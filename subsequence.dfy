/** The subsequence test `LCSGame.is_subsequence` and the facts about
    subsequences that the rest of the model relies on. */
module Subsequence {

  /** `s` can be obtained from `t` by deleting characters: the last character
      of `t` is either deleted, or kept as the last character of `s`. */
  predicate IsSubseq(s: string, t: string)
    decreases |t|
  {
    if s == [] then true
    else if t == [] then false
    else
      || IsSubseq(s, t[..|t| - 1])
      || (s[|s| - 1] == t[|t| - 1] && IsSubseq(s[..|s| - 1], t[..|t| - 1]))
  }

  /** `idx` lists, in strictly increasing order, positions of `t` that spell `s`. */
  ghost predicate Embeds(s: string, t: string, idx: seq<int>)
  {
    && |idx| == |s|
    && (forall k :: 0 <= k < |idx| ==> 0 <= idx[k] < |t| && t[idx[k]] == s[k])
    && (forall k, l :: 0 <= k < l < |idx| ==> idx[k] < idx[l])
  }

  /** IsSubseq unfolded on a target written as `t + [x]`. */
  lemma SubseqSnoc(s: string, t: string, x: char)
    ensures IsSubseq(s, t + [x]) <==>
      s == [] || IsSubseq(s, t) || (s[|s| - 1] == x && IsSubseq(s[..|s| - 1], t))
  {
    assert (t + [x])[..|t|] == t;
  }

  lemma EmptyIsSubseq(t: string)
    ensures IsSubseq([], t)
  {
  }

  lemma {:induction false} SubseqRefl(s: string)
    ensures IsSubseq(s, s)
    decreases |s|
  {
    if s != [] {
      SubseqRefl(s[..|s| - 1]);
    }
  }

  /** Subsequences of two strings concatenate to a subsequence of the concatenation. */
  lemma {:induction false} SubseqConcat(s1: string, t1: string, s2: string, t2: string)
    requires IsSubseq(s1, t1) && IsSubseq(s2, t2)
    ensures IsSubseq(s1 + s2, t1 + t2)
    decreases |t2|
  {
    if t2 == [] {
      assert s2 == [];
      assert s1 + s2 == s1 && t1 + t2 == t1;
    } else {
      var t2', x := t2[..|t2| - 1], t2[|t2| - 1];
      assert t1 + t2 == (t1 + t2') + [x];
      if s2 == [] {
        SubseqConcat(s1, t1, [], t2');
        assert s1 + [] == s1;
        SubseqSnoc(s1, t1 + t2', x);
      } else if IsSubseq(s2, t2') {
        SubseqConcat(s1, t1, s2, t2');
        SubseqSnoc(s1 + s2, t1 + t2', x);
      } else {
        var s2' := s2[..|s2| - 1];
        SubseqConcat(s1, t1, s2', t2');
        assert (s1 + s2)[..|s1 + s2| - 1] == s1 + s2';
        SubseqSnoc(s1 + s2, t1 + t2', x);
      }
    }
  }

  /** Adding characters around the target keeps a subsequence a subsequence. */
  lemma SubseqWiden(s: string, u: string, t: string, v: string)
    requires IsSubseq(s, t)
    ensures IsSubseq(s, u + t + v)
  {
    SubseqConcat([], u, s, t);
    assert [] + s == s;
    SubseqConcat(s, u + t, [], v);
    assert s + [] == s;
  }

  /** Dropping the last character of `s` keeps it a subsequence of `t`. */
  lemma {:induction false} SubseqDropLast(s: string, t: string)
    requires s != [] && IsSubseq(s, t)
    ensures IsSubseq(s[..|s| - 1], t)
    decreases |t|
  {
    var s', t' := s[..|s| - 1], t[..|t| - 1];
    assert t == t' + [t[|t| - 1]];
    if IsSubseq(s, t') {
      SubseqDropLast(s, t');
    }
    SubseqSnoc(s', t', t[|t| - 1]);
  }

  /** Every prefix of a subsequence is a subsequence. */
  lemma {:induction false} SubseqPrefix(s: string, t: string, p: nat)
    requires p <= |s| && IsSubseq(s, t)
    ensures IsSubseq(s[..p], t)
    decreases |s| - p
  {
    if p < |s| {
      SubseqDropLast(s, t);
      SubseqPrefix(s[..|s| - 1], t, p);
      assert s[..|s| - 1][..p] == s[..p];
    } else {
      assert s[..p] == s;
    }
  }

  /** A subsequence is no longer than its target. */
  lemma {:induction false} SubseqLength(s: string, t: string)
    requires IsSubseq(s, t)
    ensures |s| <= |t|
    decreases |t|
  {
    if s != [] {
      var t' := t[..|t| - 1];
      if IsSubseq(s, t') {
        SubseqLength(s, t');
      } else {
        SubseqLength(s[..|s| - 1], t');
      }
    }
  }

  /** Every character of a subsequence occurs in its target. */
  lemma {:induction false} SubseqChars(s: string, t: string)
    requires IsSubseq(s, t)
    ensures forall k :: 0 <= k < |s| ==> s[k] in t
    decreases |t|
  {
    if s != [] {
      var s', t' := s[..|s| - 1], t[..|t| - 1];
      if IsSubseq(s, t') {
        SubseqChars(s, t');
      } else {
        SubseqChars(s', t');
        assert forall k :: 0 <= k < |s'| ==> s[k] == s'[k];
        assert t[|t| - 1] in t;
      }
    }
  }

  /** A subsequence comes with positions of `t`, strictly increasing, that spell it. */
  lemma {:induction false} SubseqEmbedding(s: string, t: string) returns (idx: seq<int>)
    requires IsSubseq(s, t)
    ensures Embeds(s, t, idx)
    decreases |t|
  {
    if s == [] {
      idx := [];
    } else {
      var s', t' := s[..|s| - 1], t[..|t| - 1];
      if IsSubseq(s, t') {
        idx := SubseqEmbedding(s, t');
      } else {
        var idx' := SubseqEmbedding(s', t');
        idx := idx' + [|t| - 1];
      }
    }
  }

  /** Positions of `t`, strictly increasing, that spell `s` make `s` a subsequence. */
  lemma {:induction false} EmbeddingSubseq(s: string, t: string, idx: seq<int>)
    requires Embeds(s, t, idx)
    ensures IsSubseq(s, t)
    decreases |t|
  {
    if s != [] {
      assert 0 <= idx[0] < |t|;
      var s', t' := s[..|s| - 1], t[..|t| - 1];
      var last := |idx| - 1;
      if idx[last] == |t| - 1 {
        var idx' := idx[..last];
        assert Embeds(s', t', idx') by {
          forall k | 0 <= k < |idx'|
            ensures 0 <= idx'[k] < |t'| && t'[idx'[k]] == s'[k]
          {
            assert idx[k] < idx[last];
          }
        }
        EmbeddingSubseq(s', t', idx');
      } else {
        assert Embeds(s, t', idx) by {
          forall k | 0 <= k < |idx|
            ensures 0 <= idx[k] < |t'| && t'[idx[k]] == s[k]
          {
            assert k < last ==> idx[k] < idx[last];
          }
        }
        EmbeddingSubseq(s, t', idx);
      }
    }
  }

  /** A subsequence as long as its target is the target itself. */
  lemma {:induction false} SubseqSameLength(s: string, t: string)
    requires IsSubseq(s, t) && |s| == |t|
    ensures s == t
    decreases |t|
  {
    if s != [] {
      var s', t' := s[..|s| - 1], t[..|t| - 1];
      if IsSubseq(s, t') {
        SubseqLength(s, t');
      }
      SubseqSameLength(s', t');
      assert s == s' + [s[|s| - 1]] && t == t' + [t[|t| - 1]];
    }
  }

  /** The characters of `t` that also occur in `other`, in order. */
  function Keep(t: string, other: string): (r: string)
    ensures |r| <= |t|
    decreases |t|
  {
    if t == [] then []
    else Keep(t[..|t| - 1], other) + (if t[|t| - 1] in other then [t[|t| - 1]] else [])
  }

  /** A subsequence of `t` made of characters of `other` survives deleting
      from `t` every character that `other` lacks. */
  lemma {:induction false} SubseqKeep(c: string, t: string, other: string)
    requires IsSubseq(c, t)
    requires forall k :: 0 <= k < |c| ==> c[k] in other
    ensures IsSubseq(c, Keep(t, other))
    decreases |t|
  {
    if c != [] {
      var c', t', x := c[..|c| - 1], t[..|t| - 1], t[|t| - 1];
      var rest := if x in other then [x] else [];
      if IsSubseq(c, t') {
        SubseqKeep(c, t', other);
        SubseqWiden(c, [], Keep(t', other), rest);
        assert [] + Keep(t', other) + rest == Keep(t, other);
      } else {
        assert c[|c| - 1] == x && IsSubseq(c', t');
        assert forall k :: 0 <= k < |c'| ==> c'[k] == c[k];
        SubseqKeep(c', t', other);
        SubseqSnoc(c, Keep(t', other), x);
        assert Keep(t, other) == Keep(t', other) + [x];
      }
    }
  }

  /** `is_subsequence(s, t)`: one left-to-right scan of `t` with a cursor into `s`. */
  method IsSubsequence(s: string, t: string) returns (b: bool)
    ensures b <==> IsSubseq(s, t)
    ensures |s| > |t| ==> !b
  {
    var sIdx := 0;
    for k := 0 to |t|
      invariant sIdx <= |s| && sIdx <= k
      invariant IsSubseq(s[..sIdx], t[..k])
      invariant sIdx < |s| ==> !IsSubseq(s[..sIdx + 1], t[..k])
    {
      assert t[..k + 1] == t[..k] + [t[k]];
      if sIdx < |s| && t[k] == s[sIdx] {
        sIdx := sIdx + 1;
        assert s[..sIdx][..sIdx - 1] == s[..sIdx - 1];
        SubseqSnoc(s[..sIdx], t[..k], t[k]);
        if sIdx < |s| {
          assert s[..sIdx + 1][..sIdx] == s[..sIdx];
          if IsSubseq(s[..sIdx + 1], t[..k]) {
            SubseqDropLast(s[..sIdx + 1], t[..k]);
          }
          SubseqSnoc(s[..sIdx + 1], t[..k], t[k]);
        }
      } else {
        SubseqSnoc(s[..sIdx], t[..k], t[k]);
        if sIdx < |s| {
          assert s[..sIdx + 1][..sIdx] == s[..sIdx];
          SubseqSnoc(s[..sIdx + 1], t[..k], t[k]);
        }
      }
    }
    assert t[..|t|] == t;
    assert s[..|s|] == s;
    if sIdx < |s| && IsSubseq(s, t) {
      SubseqPrefix(s, t, sIdx + 1);
    }
    b := sIdx == |s|;
  }
}
