/** The greedy matcher `LCSGame.find_lcs`: for each character of the first
    word, in order, it looks up where that character occurs in the second
    word and takes the last such position if it lies after the previously
    taken one. */
module GreedyMatch {
  import opened Subsequence

  /** The last position of `c` in `s`, or -1 when `c` does not occur. */
  function LastIndex(c: char, s: string): (k: int)
    ensures -1 <= k < |s|
    ensures k >= 0 ==> s[k] == c
    ensures forall i :: k < i < |s| ==> s[i] != c
    decreases |s|
  {
    if s == [] then -1
    else if s[|s| - 1] == c then |s| - 1
    else LastIndex(c, s[..|s| - 1])
  }

  /** The ascending list of positions of `c` in `s`: the bucket that
      `pos[c]` holds once `s` has been indexed. */
  function Positions(c: char, s: string): (p: seq<int>)
    ensures forall i :: 0 <= i < |p| ==> 0 <= p[i] < |s| && s[p[i]] == c
    ensures forall i, j :: 0 <= i < j < |p| ==> p[i] < p[j]
    ensures forall k :: 0 <= k < |s| && s[k] == c ==> k in p
    decreases |s|
  {
    if s == [] then []
    else Positions(c, s[..|s| - 1]) + (if s[|s| - 1] == c then [|s| - 1] else [])
  }

  /** Indexing one more character adds its position to its own bucket only. */
  lemma PositionsSnoc(c: char, s: string, x: char)
    ensures Positions(c, s + [x]) == Positions(c, s) + (if x == c then [|s|] else [])
  {
    assert (s + [x])[..|s|] == s;
  }

  /** A character that does not occur has an empty bucket. */
  lemma PositionsAbsent(c: char, s: string)
    requires c !in s
    ensures Positions(c, s) == []
  {
  }

  /** A bucket is empty exactly when the character is absent, and otherwise
      ends with the character's last position. */
  lemma PositionsLast(c: char, s: string)
    ensures Positions(c, s) == [] <==> LastIndex(c, s) == -1
    ensures Positions(c, s) != [] ==> Positions(c, s)[|Positions(c, s)| - 1] == LastIndex(c, s)
  {
    var p, k := Positions(c, s), LastIndex(c, s);
    if p != [] {
      assert s[p[0]] == c;
      var last := p[|p| - 1];
      assert s[last] == c;
      assert last <= k;
      assert k in p;
    }
  }

  /** The matcher's state after a prefix of the first word: the characters
      collected so far and `last_j`, the last position taken in the second word. */
  datatype Scan = Scan(lcs: string, lastJ: int)

  /** The last-occurrence rule applied to every character of `a` in turn. */
  function GreedyLcs(a: string, b: string): (st: Scan)
    ensures -1 <= st.lastJ < |b|
    decreases |a|
  {
    if a == [] then Scan([], -1)
    else
      var prev := GreedyLcs(a[..|a| - 1], b);
      var k := LastIndex(a[|a| - 1], b);
      if k > prev.lastJ then Scan(prev.lcs + [a[|a| - 1]], k) else prev
  }

  /** The collected characters are a subsequence of the first word. */
  lemma {:induction false} GreedyInFirst(a: string, b: string)
    ensures IsSubseq(GreedyLcs(a, b).lcs, a)
    decreases |a|
  {
    if a != [] {
      var a', x := a[..|a| - 1], a[|a| - 1];
      GreedyInFirst(a', b);
      var prev := GreedyLcs(a', b);
      assert a == a' + [x];
      if LastIndex(x, b) > prev.lastJ {
        SubseqRefl([x]);
        SubseqConcat(prev.lcs, a', [x], [x]);
      } else {
        SubseqWiden(prev.lcs, [], a', [x]);
        assert [] + a' + [x] == a;
      }
    }
  }

  /** `last_j` is -1 exactly when nothing has been collected, and otherwise
      the position in the second word of the last collected character. */
  lemma {:induction false} GreedyLastTaken(a: string, b: string)
    ensures GreedyLcs(a, b).lcs == [] <==> GreedyLcs(a, b).lastJ == -1
    ensures GreedyLcs(a, b).lcs != [] ==>
      b[GreedyLcs(a, b).lastJ] == GreedyLcs(a, b).lcs[|GreedyLcs(a, b).lcs| - 1]
    decreases |a|
  {
    if a != [] {
      GreedyLastTaken(a[..|a| - 1], b);
    }
  }

  /** A subsequence of `t[..p]` followed by `t[k]`, for `p <= k`, is a
      subsequence of `t[..k + 1]`. */
  lemma SubseqThenAt(s: string, t: string, p: nat, k: nat)
    requires p <= k < |t| && IsSubseq(s, t[..p])
    ensures IsSubseq(s + [t[k]], t[..k + 1])
  {
    var x, gap := t[k], t[p..k];
    assert t[..k + 1] == t[..p] + (gap + [x]);
    SubseqRefl([x]);
    SubseqWiden([x], gap, [x], []);
    assert gap + [x] + [] == gap + [x];
    SubseqConcat(s, t[..p], [x], gap + [x]);
  }

  /** The collected characters are a subsequence of the second word up to `last_j`. */
  lemma {:induction false} GreedyInSecondUpTo(a: string, b: string)
    ensures IsSubseq(GreedyLcs(a, b).lcs, b[..GreedyLcs(a, b).lastJ + 1])
    decreases |a|
  {
    if a != [] {
      var a', x := a[..|a| - 1], a[|a| - 1];
      GreedyInSecondUpTo(a', b);
      var prev := GreedyLcs(a', b);
      var k := LastIndex(x, b);
      if k > prev.lastJ {
        SubseqThenAt(prev.lcs, b, prev.lastJ + 1, k);
      }
    }
  }

  /** The collected characters form a common subsequence of both words. */
  lemma GreedyIsCommon(a: string, b: string)
    ensures IsSubseq(GreedyLcs(a, b).lcs, a) && IsSubseq(GreedyLcs(a, b).lcs, b)
  {
    var st := GreedyLcs(a, b);
    GreedyInFirst(a, b);
    GreedyInSecondUpTo(a, b);
    assert b == [] + b[..st.lastJ + 1] + b[st.lastJ + 1..];
    SubseqWiden(st.lcs, [], b[..st.lastJ + 1], b[st.lastJ + 1..]);
  }

  /** The result is no longer than either word and holds only characters of both. */
  lemma GreedyBounds(a: string, b: string)
    ensures |GreedyLcs(a, b).lcs| <= |a| && |GreedyLcs(a, b).lcs| <= |b|
    ensures forall k :: 0 <= k < |GreedyLcs(a, b).lcs| ==>
      GreedyLcs(a, b).lcs[k] in a && GreedyLcs(a, b).lcs[k] in b
  {
    var r := GreedyLcs(a, b).lcs;
    GreedyIsCommon(a, b);
    SubseqLength(r, a);
    SubseqLength(r, b);
    SubseqChars(r, a);
    SubseqChars(r, b);
  }

  /** `last_j` never moves back, and moves strictly forward whenever a
      character is collected. */
  lemma {:induction false} GreedyLastJIncreases(a: string, b: string, i: nat)
    requires i <= |a|
    ensures GreedyLcs(a[..i], b).lastJ <= GreedyLcs(a, b).lastJ
    ensures |GreedyLcs(a[..i], b).lcs| < |GreedyLcs(a, b).lcs| ==>
      GreedyLcs(a[..i], b).lastJ < GreedyLcs(a, b).lastJ
    decreases |a| - i
  {
    if i == |a| {
      assert a[..i] == a;
    } else {
      var a' := a[..|a| - 1];
      assert a[..i] == a'[..i];
      GreedyLastJIncreases(a', b, i);
    }
  }

  /** The first loop of `find_lcs`: `pos[c]` collects, in ascending order,
      every position of `c` in `s`. */
  method IndexPositions(s: string) returns (pos: map<char, seq<int>>)
    ensures forall c :: c in pos <==> c in s
    ensures forall c :: c in pos ==> pos[c] == Positions(c, s)
  {
    pos := map[];
    for j := 0 to |s|
      invariant forall c :: c in pos <==> c in s[..j]
      invariant forall c :: c in pos ==> pos[c] == Positions(c, s[..j])
    {
      var c := s[j];
      ghost var before := pos;
      if c !in pos {
        PositionsAbsent(c, s[..j]);
      }
      pos := pos[c := (if c in pos then pos[c] else []) + [j]];
      assert s[..j + 1] == s[..j] + [c];
      forall d | d in pos
        ensures pos[d] == Positions(d, s[..j + 1])
      {
        PositionsSnoc(d, s[..j], c);
      }
    }
    assert s[..|s|] == s;
  }

  /** `find_lcs(str1, str2)`: index the positions of every character of
      `str2`, then walk `str1`, scanning each bucket from the back and taking
      the first position after `last_j`. */
  method FindLcs(str1: string, str2: string) returns (r: string)
    ensures r == GreedyLcs(str1, str2).lcs
    ensures IsSubseq(r, str1) && IsSubseq(r, str2)
  {
    var pos := IndexPositions(str2);

    var lcs: string := [];
    var lastJ := -1;
    for i := 0 to |str1|
      invariant GreedyLcs(str1[..i], str2) == Scan(lcs, lastJ)
    {
      var ch := str1[i];
      assert str1[..i + 1][..i] == str1[..i];
      PositionsLast(ch, str2);
      if ch in pos {
        var p := pos[ch];
        var t := |p|;
        while t > 0
          invariant 0 <= t <= |p|
          invariant forall u :: t <= u < |p| ==> p[u] <= lastJ
          invariant GreedyLcs(str1[..i], str2) == Scan(lcs, lastJ)
        {
          t := t - 1;
          if p[t] > lastJ {
            assert t == |p| - 1;
            lcs := lcs + [ch];
            lastJ := p[t];
            break;
          }
        }
      } else {
        assert ch !in str2;
      }
    }
    assert str1[..|str1|] == str1;
    r := lcs;
    GreedyIsCommon(str1, str2);
  }
}
