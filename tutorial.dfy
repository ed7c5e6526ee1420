/** The dynamic-programming LCS of the tutorial screen:
    `Tutorial.calculate_lcs_matrix` fills the table and `Tutorial.get_lcs`
    walks it back from the bottom-right corner. */
module Tutorial {
  import opened Subsequence

  function Max(x: int, y: int): int
  {
    if x >= y then x else y
  }

  /** The textbook recurrence: the entry `dp[i][j]` for the prefixes `a` and `b`. */
  function LcsLen(a: string, b: string): (n: nat)
    ensures n <= |a| && n <= |b|
    decreases |a| + |b|
  {
    if a == [] || b == [] then 0
    else if a[|a| - 1] == b[|b| - 1] then LcsLen(a[..|a| - 1], b[..|b| - 1]) + 1
    else Max(LcsLen(a[..|a| - 1], b), LcsLen(a, b[..|b| - 1]))
  }

  /** The string the walk back through the table collects: on equal last
      characters it takes one and goes diagonally, otherwise it goes up when
      the upper entry is strictly larger and left when not. */
  function LcsOf(a: string, b: string): string
    decreases |a| + |b|
  {
    if a == [] || b == [] then []
    else if a[|a| - 1] == b[|b| - 1] then LcsOf(a[..|a| - 1], b[..|b| - 1]) + [a[|a| - 1]]
    else if LcsLen(a[..|a| - 1], b) > LcsLen(a, b[..|b| - 1]) then LcsOf(a[..|a| - 1], b)
    else LcsOf(a, b[..|b| - 1])
  }

  /** The walk collects as many characters as the recurrence counts. */
  lemma {:induction false} LcsOfLength(a: string, b: string)
    ensures |LcsOf(a, b)| == LcsLen(a, b)
    decreases |a| + |b|
  {
    if a != [] && b != [] {
      var a', b' := a[..|a| - 1], b[..|b| - 1];
      if a[|a| - 1] == b[|b| - 1] {
        LcsOfLength(a', b');
      } else {
        LcsOfLength(a', b);
        LcsOfLength(a, b');
      }
    }
  }

  /** The walk's string is a subsequence of the first string. */
  lemma {:induction false} LcsOfInFirst(a: string, b: string)
    ensures IsSubseq(LcsOf(a, b), a)
    decreases |a| + |b|
  {
    if a != [] && b != [] {
      var a', b', x := a[..|a| - 1], b[..|b| - 1], a[|a| - 1];
      assert a' + [x] == a;
      if x == b[|b| - 1] {
        LcsOfInFirst(a', b');
        SubseqRefl([x]);
        SubseqConcat(LcsOf(a', b'), a', [x], [x]);
      } else if LcsLen(a', b) > LcsLen(a, b') {
        LcsOfInFirst(a', b);
        SubseqWiden(LcsOf(a', b), [], a', [x]);
        assert [] + a' + [x] == a;
      } else {
        LcsOfInFirst(a, b');
      }
    }
  }

  /** The walk's string is a subsequence of the second string. */
  lemma {:induction false} LcsOfInSecond(a: string, b: string)
    ensures IsSubseq(LcsOf(a, b), b)
    decreases |a| + |b|
  {
    if a != [] && b != [] {
      var a', b', y := a[..|a| - 1], b[..|b| - 1], b[|b| - 1];
      assert b' + [y] == b;
      if a[|a| - 1] == y {
        LcsOfInSecond(a', b');
        SubseqRefl([y]);
        SubseqConcat(LcsOf(a', b'), b', [y], [y]);
      } else if LcsLen(a', b) > LcsLen(a, b') {
        LcsOfInSecond(a', b);
      } else {
        LcsOfInSecond(a, b');
        SubseqWiden(LcsOf(a, b'), [], b', [y]);
        assert [] + b' + [y] == b;
      }
    }
  }

  /** The walk collects a common subsequence as long as the recurrence says. */
  lemma LcsOfIsCommon(a: string, b: string)
    ensures IsSubseq(LcsOf(a, b), a) && IsSubseq(LcsOf(a, b), b)
    ensures |LcsOf(a, b)| == LcsLen(a, b)
  {
    LcsOfLength(a, b);
    LcsOfInFirst(a, b);
    LcsOfInSecond(a, b);
  }

  /** No common subsequence is longer than the recurrence's value. */
  lemma {:induction false} CommonSubseqBound(c: string, a: string, b: string)
    requires IsSubseq(c, a) && IsSubseq(c, b)
    ensures |c| <= LcsLen(a, b)
    decreases |a| + |b|
  {
    if c != [] {
      var a', b', c' := a[..|a| - 1], b[..|b| - 1], c[..|c| - 1];
      if a[|a| - 1] == b[|b| - 1] {
        if IsSubseq(c, a') && IsSubseq(c, b') {
          CommonSubseqBound(c, a', b');
        } else if IsSubseq(c, a') {
          SubseqDropLast(c, a');
          CommonSubseqBound(c', a', b');
        } else if IsSubseq(c, b') {
          SubseqDropLast(c, b');
          CommonSubseqBound(c', a', b');
        } else {
          CommonSubseqBound(c', a', b');
        }
      } else if c[|c| - 1] != a[|a| - 1] {
        CommonSubseqBound(c, a', b);
      } else {
        CommonSubseqBound(c, a, b');
      }
    }
  }

  /** The walk's result is a longest common subsequence. */
  lemma LcsOfIsLongest(a: string, b: string, c: string)
    requires IsSubseq(c, a) && IsSubseq(c, b)
    ensures |c| <= |LcsOf(a, b)|
  {
    LcsOfIsCommon(a, b);
    CommonSubseqBound(c, a, b);
  }

  /** Moving down a row never lowers the table entry. */
  lemma LcsLenRowMonotone(a: string, b: string)
    requires a != []
    ensures LcsLen(a[..|a| - 1], b) <= LcsLen(a, b)
  {
    var a', x := a[..|a| - 1], a[|a| - 1];
    var w := LcsOf(a', b);
    LcsOfIsCommon(a', b);
    SubseqSnoc(w, a', x);
    assert a' + [x] == a;
    CommonSubseqBound(w, a, b);
  }

  /** Moving right along a column never lowers the table entry. */
  lemma LcsLenColumnMonotone(a: string, b: string)
    requires b != []
    ensures LcsLen(a, b[..|b| - 1]) <= LcsLen(a, b)
  {
    var b', y := b[..|b| - 1], b[|b| - 1];
    var w := LcsOf(a, b');
    LcsOfIsCommon(a, b');
    SubseqSnoc(w, b', y);
    assert b' + [y] == b;
    CommonSubseqBound(w, a, b);
  }

  /** `matrix` is the table of `calculate_lcs_matrix(a, b)`. */
  ghost predicate IsLcsTable(matrix: array2<int>, a: string, b: string)
    reads matrix
  {
    && matrix.Length0 == |a| + 1 && matrix.Length1 == |b| + 1
    && forall i, j :: 0 <= i <= |a| && 0 <= j <= |b| ==> matrix[i, j] == LcsLen(a[..i], b[..j])
  }

  /** The table has zeros in row 0 and column 0, grows down each column and
      along each row, and `dp[i][j]` never exceeds `i` or `j`. */
  lemma LcsTableShape(matrix: array2<int>, a: string, b: string)
    requires IsLcsTable(matrix, a, b)
    ensures forall j :: 0 <= j <= |b| ==> matrix[0, j] == 0
    ensures forall i :: 0 <= i <= |a| ==> matrix[i, 0] == 0
    ensures forall i, j :: 1 <= i <= |a| && 0 <= j <= |b| ==> matrix[i - 1, j] <= matrix[i, j]
    ensures forall i, j :: 0 <= i <= |a| && 1 <= j <= |b| ==> matrix[i, j - 1] <= matrix[i, j]
    ensures forall i, j :: 0 <= i <= |a| && 0 <= j <= |b| ==> matrix[i, j] <= i && matrix[i, j] <= j
  {
    forall i, j | 1 <= i <= |a| && 0 <= j <= |b|
      ensures matrix[i - 1, j] <= matrix[i, j]
    {
      LcsLenRowMonotone(a[..i], b[..j]);
      assert a[..i][..i - 1] == a[..i - 1];
    }
    forall i, j | 0 <= i <= |a| && 1 <= j <= |b|
      ensures matrix[i, j - 1] <= matrix[i, j]
    {
      LcsLenColumnMonotone(a[..i], b[..j]);
      assert b[..j][..j - 1] == b[..j - 1];
    }
  }

  /** On a mismatch whose upper and left entries are equal the walk goes
      left: for "AB" and "BA" it keeps the 'B' and drops the 'A'. */
  lemma TieGoesLeft()
    ensures LcsLen("A", "BA") == LcsLen("AB", "B") == 1
    ensures LcsOf("AB", "BA") == "B"
  {
    assert "AB"[..1] == "A" && "BA"[..1] == "B" && "A"[..0] == [] && "B"[..0] == [];
  }

  /** The recurrence on the prefixes of length `i` and `j`. */
  lemma LcsLenAt(a: string, b: string, i: nat, j: nat)
    requires 1 <= i <= |a| && 1 <= j <= |b|
    ensures LcsLen(a[..i], b[..j]) ==
      if a[i - 1] == b[j - 1] then LcsLen(a[..i - 1], b[..j - 1]) + 1
      else Max(LcsLen(a[..i - 1], b[..j]), LcsLen(a[..i], b[..j - 1]))
  {
    assert a[..i][..i - 1] == a[..i - 1];
    assert b[..j][..j - 1] == b[..j - 1];
  }

  /** `calculate_lcs_matrix(seq1, seq2)`: row 0 and column 0 stay zero, and
      every other entry is filled from its upper, left and diagonal
      neighbours, row after row. */
  method CalculateLcsMatrix(seq1: string, seq2: string) returns (dp: array2<int>)
    ensures IsLcsTable(dp, seq1, seq2)
  {
    var m, n := |seq1|, |seq2|;
    dp := new int[m + 1, n + 1]((_, _) => 0);
    for i := 1 to m + 1
      invariant forall ii, jj :: 0 <= ii <= m && 0 <= jj <= n && (ii < i || jj == 0) ==>
        dp[ii, jj] == LcsLen(seq1[..ii], seq2[..jj])
    {
      for j := 1 to n + 1
        invariant forall ii, jj :: 0 <= ii <= m && 0 <= jj <= n && (ii < i || (ii == i && jj < j) || jj == 0) ==>
          dp[ii, jj] == LcsLen(seq1[..ii], seq2[..jj])
      {
        LcsLenAt(seq1, seq2, i, j);
        if seq1[i - 1] == seq2[j - 1] {
          dp[i, j] := dp[i - 1, j - 1] + 1;
        } else {
          dp[i, j] := Max(dp[i - 1, j], dp[i, j - 1]);
        }
      }
    }
  }

  function Reverse(s: string): (r: string)
    ensures |r| == |s|
    decreases |s|
  {
    if s == [] then [] else [s[|s| - 1]] + Reverse(s[..|s| - 1])
  }

  lemma ReverseSnoc(s: string, x: char)
    ensures Reverse(s + [x]) == [x] + Reverse(s)
  {
    assert (s + [x])[..|s|] == s;
  }

  /** One step of the walk, on the prefixes of length `i` and `j`. */
  lemma LcsOfAt(a: string, b: string, i: nat, j: nat)
    requires 1 <= i <= |a| && 1 <= j <= |b|
    ensures LcsOf(a[..i], b[..j]) ==
      if a[i - 1] == b[j - 1] then LcsOf(a[..i - 1], b[..j - 1]) + [a[i - 1]]
      else if LcsLen(a[..i - 1], b[..j]) > LcsLen(a[..i], b[..j - 1]) then LcsOf(a[..i - 1], b[..j])
      else LcsOf(a[..i], b[..j - 1])
  {
    assert a[..i][..i - 1] == a[..i - 1];
    assert b[..j][..j - 1] == b[..j - 1];
  }

  /** The bottom-right entry of the table is the LCS length of the whole strings. */
  lemma TableCorner(matrix: array2<int>, a: string, b: string)
    requires IsLcsTable(matrix, a, b)
    ensures matrix[|a|, |b|] == LcsLen(a, b)
  {
    assert a[..|a|] == a && b[..|b|] == b;
  }

  /** The characters `get_lcs` collects from `(i, j)` back to the top-left
      when it follows `matrix`, whatever the matrix holds, in string order. */
  ghost function Walk(matrix: array2<int>, a: string, b: string, i: nat, j: nat): string
    requires i <= |a| && j <= |b| && matrix.Length0 == |a| + 1 && matrix.Length1 == |b| + 1
    reads matrix
    decreases i + j
  {
    if i == 0 || j == 0 then []
    else if a[i - 1] == b[j - 1] then Walk(matrix, a, b, i - 1, j - 1) + [a[i - 1]]
    else if matrix[i - 1, j] > matrix[i, j - 1] then Walk(matrix, a, b, i - 1, j)
    else Walk(matrix, a, b, i, j - 1)
  }

  /** Whatever the matrix holds, the walk collects a common subsequence of
      the two prefixes. */
  lemma {:induction false} WalkIsCommon(matrix: array2<int>, a: string, b: string, i: nat, j: nat)
    requires i <= |a| && j <= |b| && matrix.Length0 == |a| + 1 && matrix.Length1 == |b| + 1
    ensures IsSubseq(Walk(matrix, a, b, i, j), a[..i]) && IsSubseq(Walk(matrix, a, b, i, j), b[..j])
    decreases i + j
  {
    if i > 0 && j > 0 {
      assert a[..i] == a[..i - 1] + [a[i - 1]];
      assert b[..j] == b[..j - 1] + [b[j - 1]];
      if a[i - 1] == b[j - 1] {
        var w := Walk(matrix, a, b, i - 1, j - 1);
        WalkIsCommon(matrix, a, b, i - 1, j - 1);
        SubseqSnoc(w + [a[i - 1]], a[..i - 1], a[i - 1]);
        SubseqSnoc(w + [a[i - 1]], b[..j - 1], b[j - 1]);
        assert (w + [a[i - 1]])[..|w|] == w;
      } else if matrix[i - 1, j] > matrix[i, j - 1] {
        var w := Walk(matrix, a, b, i - 1, j);
        WalkIsCommon(matrix, a, b, i - 1, j);
        SubseqSnoc(w, a[..i - 1], a[i - 1]);
      } else {
        var w := Walk(matrix, a, b, i, j - 1);
        WalkIsCommon(matrix, a, b, i, j - 1);
        SubseqSnoc(w, b[..j - 1], b[j - 1]);
      }
    }
  }

  /** Following the table of the two strings, the walk is `LcsOf` of the prefixes. */
  lemma {:induction false} WalkOnTable(matrix: array2<int>, a: string, b: string, i: nat, j: nat)
    requires IsLcsTable(matrix, a, b) && i <= |a| && j <= |b|
    ensures Walk(matrix, a, b, i, j) == LcsOf(a[..i], b[..j])
    decreases i + j
  {
    if i > 0 && j > 0 {
      LcsOfAt(a, b, i, j);
      assert matrix[i - 1, j] == LcsLen(a[..i - 1], b[..j]);
      assert matrix[i, j - 1] == LcsLen(a[..i], b[..j - 1]);
      if a[i - 1] == b[j - 1] {
        WalkOnTable(matrix, a, b, i - 1, j - 1);
      } else if matrix[i - 1, j] > matrix[i, j - 1] {
        WalkOnTable(matrix, a, b, i - 1, j);
      } else {
        WalkOnTable(matrix, a, b, i, j - 1);
      }
    }
  }

  /** Following the table of the two strings, the walk from `(i, j)` collects
      exactly `matrix[i, j]` characters; so at every point of `get_lcs` the
      characters collected so far plus `matrix[i][j]` make `matrix[m][n]`. */
  lemma WalkLength(matrix: array2<int>, a: string, b: string, i: nat, j: nat)
    requires IsLcsTable(matrix, a, b) && i <= |a| && j <= |b|
    ensures |Walk(matrix, a, b, i, j)| == matrix[i, j]
    ensures |Walk(matrix, a, b, |a|, |b|)| - |Walk(matrix, a, b, i, j)| + matrix[i, j] == matrix[|a|, |b|]
  {
    WalkOnTable(matrix, a, b, i, j);
    LcsOfLength(a[..i], b[..j]);
    WalkOnTable(matrix, a, b, |a|, |b|);
    LcsOfLength(a[..|a|], b[..|b|]);
  }

  /** `get_lcs(seq1, seq2, matrix)`: walk from `(m, n)` towards the top-left,
      collecting the matching characters in reverse, then reverse them.
      Whatever the table holds, the result is a common subsequence; when it
      is the table of the two strings, the result is the walk's string, a
      longest common subsequence, as long as the bottom-right entry says. */
  method GetLcs(seq1: string, seq2: string, matrix: array2<int>) returns (r: string)
    requires matrix.Length0 == |seq1| + 1 && matrix.Length1 == |seq2| + 1
    ensures r == Walk(matrix, seq1, seq2, |seq1|, |seq2|)
    ensures IsSubseq(r, seq1) && IsSubseq(r, seq2)
    ensures IsLcsTable(matrix, seq1, seq2) ==> r == LcsOf(seq1, seq2)
    ensures IsLcsTable(matrix, seq1, seq2) ==> |r| == matrix[|seq1|, |seq2|]
  {
    ghost var table := IsLcsTable(matrix, seq1, seq2);
    var i, j := |seq1|, |seq2|;
    var lcs: string := [];
    while i > 0 && j > 0
      invariant 0 <= i <= |seq1| && 0 <= j <= |seq2|
      invariant Walk(matrix, seq1, seq2, i, j) + Reverse(lcs) == Walk(matrix, seq1, seq2, |seq1|, |seq2|)
      invariant table ==> |lcs| + matrix[i, j] == matrix[|seq1|, |seq2|]
      decreases i + j
    {
      if seq1[i - 1] == seq2[j - 1] {
        var x := seq1[i - 1];
        ReverseSnoc(lcs, x);
        assert Walk(matrix, seq1, seq2, i - 1, j - 1) + [x] + Reverse(lcs) ==
          Walk(matrix, seq1, seq2, i - 1, j - 1) + Reverse(lcs + [x]);
        lcs := lcs + [x];
        i, j := i - 1, j - 1;
      } else if matrix[i - 1, j] > matrix[i, j - 1] {
        i := i - 1;
      } else {
        j := j - 1;
      }
      if table {
        WalkLength(matrix, seq1, seq2, i, j);
      }
    }
    r := Reverse(lcs);
    WalkIsCommon(matrix, seq1, seq2, |seq1|, |seq2|);
    assert seq1[..|seq1|] == seq1 && seq2[..|seq2|] == seq2;
    if table {
      WalkOnTable(matrix, seq1, seq2, |seq1|, |seq2|);
      WalkLength(matrix, seq1, seq2, |seq1|, |seq2|);
    }
  }
}
