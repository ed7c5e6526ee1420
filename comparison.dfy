/** How the greedy `find_lcs` relates to the optimal dynamic-programming LCS,
    and what that means for scoring. */
module Comparison {
  import opened Subsequence
  import opened GreedyMatch
  import opened Tutorial
  import opened Game

  /** The greedy result is never longer than a longest common subsequence. */
  lemma GreedyDominated(a: string, b: string)
    ensures |GreedyLcs(a, b).lcs| <= LcsLen(a, b) == |LcsOf(a, b)|
  {
    LcsOfIsCommon(a, b);
    GreedyIsCommon(a, b);
    CommonSubseqBound(GreedyLcs(a, b).lcs, a, b);
  }

  /** It can be strictly shorter: on "AB" and "ABA" the last occurrence of
      'A' is taken, after which 'B' cannot follow. */
  lemma GreedyNotLongest()
    ensures GreedyLcs("AB", "ABA").lcs == "A"
    ensures LcsLen("AB", "ABA") == 2
  {
    assert "AB"[..1] == "A" && "A"[..0] == [];
    assert LastIndex('A', "ABA") == 2;
    assert GreedyLcs("A", "ABA") == Scan("A", 2);
    assert IsSubseq("AB", "AB") by { SubseqRefl("AB"); }
    SubseqWiden("AB", [], "AB", "A");
    assert [] + "AB" + "A" == "ABA";
    CommonSubseqBound("AB", "AB", "ABA");
  }

  /** Where the last occurrence of each letter of KITTEN lies in SITTING. */
  lemma SittingLastIndices()
    ensures LastIndex('K', "SITTING") == -1 && LastIndex('E', "SITTING") == -1
    ensures LastIndex('I', "SITTING") == 4 && LastIndex('T', "SITTING") == 3
    ensures LastIndex('N', "SITTING") == 5
  {
    assert "SITTING"[..6] == "SITTIN" && "SITTIN"[..5] == "SITTI" && "SITTI"[..4] == "SITT";
    assert "SITT"[..3] == "SIT" && "SIT"[..2] == "SI" && "SI"[..1] == "S" && "S"[..0] == [];
  }

  /** On the tutorial's pair KITTEN / SITTING the greedy matcher finds "IN":
      the 'I' at position 4 leaves only 'N' for the rest of KITTEN. */
  lemma GreedyKittenSitting()
    ensures GreedyLcs("KITTEN", "SITTING").lcs == "IN"
  {
    SittingLastIndices();
    assert "KITTEN"[..5] == "KITTE" && "KITTE"[..4] == "KITT" && "KITT"[..3] == "KIT";
    assert "KIT"[..2] == "KI" && "KI"[..1] == "K" && "K"[..0] == [];
    assert GreedyLcs("K", "SITTING") == Scan([], -1);
    assert GreedyLcs("KI", "SITTING") == Scan("I", 4);
    assert GreedyLcs("KIT", "SITTING") == Scan("I", 4);
    assert GreedyLcs("KITT", "SITTING") == Scan("I", 4);
    assert GreedyLcs("KITTE", "SITTING") == Scan("I", 4);
  }

  /** The walk's string uses only characters the other string has, so it is a
      subsequence of each string with the unshared characters deleted. */
  lemma LcsOfWithinShared(a: string, b: string)
    ensures IsSubseq(LcsOf(a, b), Keep(a, b)) && IsSubseq(LcsOf(a, b), Keep(b, a))
  {
    LcsOfIsCommon(a, b);
    SubseqChars(LcsOf(a, b), a);
    SubseqChars(LcsOf(a, b), b);
    SubseqKeep(LcsOf(a, b), a, b);
    SubseqKeep(LcsOf(a, b), b, a);
  }

  /** Deleting from KITTEN the letters SITTING lacks leaves "ITTN". */
  lemma KeepKitten()
    ensures Keep("KITTEN", "SITTING") == "ITTN"
  {
    assert "KITTEN"[..5] == "KITTE" && "KITTE"[..4] == "KITT" && "KITT"[..3] == "KIT";
    assert "KIT"[..2] == "KI" && "KI"[..1] == "K" && "K"[..0] == [];
    assert 'K' !in "SITTING" && 'E' !in "SITTING";
    assert 'I' in "SITTING" && 'T' in "SITTING" && 'N' in "SITTING";
  }

  /** The tutorial's own pair: the DP walk, which `get_lcs` performs on the
      table, yields "ITTN", and the table's corner holds 4. */
  lemma KittenSittingOptimum()
    ensures IsSubseq("ITTN", "KITTEN") && IsSubseq("ITTN", "SITTING")
    ensures LcsLen("KITTEN", "SITTING") == 4
    ensures LcsOf("KITTEN", "SITTING") == "ITTN"
  {
    var idk: seq<int> := [1, 2, 3, 5];
    assert Embeds("ITTN", "KITTEN", idk);
    EmbeddingSubseq("ITTN", "KITTEN", idk);
    var ids: seq<int> := [1, 2, 3, 5];
    assert Embeds("ITTN", "SITTING", ids);
    EmbeddingSubseq("ITTN", "SITTING", ids);
    CommonSubseqBound("ITTN", "KITTEN", "SITTING");
    var w := LcsOf("KITTEN", "SITTING");
    LcsOfLength("KITTEN", "SITTING");
    LcsOfWithinShared("KITTEN", "SITTING");
    KeepKitten();
    SubseqLength(w, "ITTN");
    SubseqSameLength(w, "ITTN");
  }

  /** Deleting from APPLE the letters BANANA lacks leaves "A". */
  lemma KeepApple()
    ensures Keep("APPLE", "BANANA") == "A"
  {
    assert "APPLE"[..4] == "APPL" && "APPL"[..3] == "APP" && "APP"[..2] == "AP";
    assert "AP"[..1] == "A" && "A"[..0] == [];
    assert 'P' !in "BANANA" && 'L' !in "BANANA" && 'E' !in "BANANA";
    assert 'A' in "BANANA";
  }

  /** The tutorial's BANANA / APPLE example: the two words share only one
      'A', so the DP walk yields "A" and the table's corner holds 1. */
  lemma BananaApple()
    ensures LcsLen("BANANA", "APPLE") == 1
    ensures LcsOf("BANANA", "APPLE") == "A"
  {
    var ib: seq<int> := [1];
    assert Embeds("A", "BANANA", ib);
    EmbeddingSubseq("A", "BANANA", ib);
    var ia: seq<int> := [0];
    assert Embeds("A", "APPLE", ia);
    EmbeddingSubseq("A", "APPLE", ia);
    CommonSubseqBound("A", "BANANA", "APPLE");
    var w := LcsOf("BANANA", "APPLE");
    LcsOfLength("BANANA", "APPLE");
    LcsOfWithinShared("BANANA", "APPLE");
    KeepApple();
    SubseqLength(w, "A");
    SubseqSameLength(w, "A");
  }

  /** Return rejects some longest common subsequences: with the pair
      ("AB", "ABA"), typing "AB" scores nothing, because `find_lcs` only
      reaches length 1. */
  lemma ScoringRejectsOptimal(st: Snapshot, nextPair: (string, string))
    requires st.currentPair == ("AB", "ABA") && st.userSequence == "AB"
    ensures IsSubseq(st.userSequence, "AB") && IsSubseq(st.userSequence, "ABA")
    ensures |st.userSequence| == LcsLen("AB", "ABA")
    ensures Step(st, Return, nextPair) == st
  {
    GreedyNotLongest();
    SubseqRefl("AB");
    SubseqWiden("AB", [], "AB", "A");
    assert [] + "AB" + "A" == "ABA";
  }

  /** The examples of the subsequence test: order matters. */
  lemma SubseqExamples()
    ensures IsSubseq("ACE", "ABCDE")
    ensures !IsSubseq("AEC", "ABCDE")
  {
    var idx: seq<int> := [0, 2, 4];
    assert Embeds("ACE", "ABCDE", idx);
    EmbeddingSubseq("ACE", "ABCDE", idx);
    assert "ABCDE"[..4] == "ABCD" && "ABCD"[..3] == "ABC" && "ABC"[..2] == "AB";
    assert "AB"[..1] == "A" && "AEC"[..2] == "AE";
    if IsSubseq("AEC", "AB") {
      SubseqLength("AEC", "AB");
    }
    if IsSubseq("AE", "A") {
      SubseqLength("AE", "A");
    }
  }
}
