/** Constrained longest common subsequence: a longest sequence that is a
    subsequence of both `s1` and `s2` and contains `constraint` as a
    subsequence. A three-dimensional table over (constraint progress k,
    prefix length i of s1, prefix length j of s2), a backward reconstruction
    that reads it, and an independent two-pointer feasibility check. */
module ConstrainedLcs {
  import opened Wrappers

  // ---------------------------------------------------------------------
  // Table cells
  // ---------------------------------------------------------------------

  /** A table cell: a best length, or Unreachable where the source stores
      `Integer.MIN_VALUE`. */
  datatype Cell = Unreachable | Len(n: nat)

  /** The `int` the source keeps in a cell. */
  function Encode(x: Cell): int {
    if x.Unreachable? then INT_MIN else x.n
  }

  /** `a` is no better than `b`: Unreachable lies below every length. */
  predicate AtMost(a: Cell, b: Cell) {
    a.Unreachable? || (b.Len? && a.n <= b.n)
  }

  /** `Math.max` on two cells: the first unless the second is better. */
  function MaxCell(a: Cell, b: Cell): Cell {
    if AtMost(b, a) then a else b
  }

  /** `MaxCell` is `Math.max` on the `int`s the source stores. */
  lemma MaxCellIsMathMax(a: Cell, b: Cell)
    ensures Encode(MaxCell(a, b)) == if Encode(a) >= Encode(b) then Encode(a) else Encode(b)
  {
  }

  /** `prev + 1`, guarded as the source guards it: only a reachable
      predecessor is extended. */
  function PlusOne(prev: Cell): Cell {
    if prev != Unreachable then Len(prev.n + 1) else Unreachable
  }

  /** The backtracking test `cur == prev + 1` on the stored `int`s. Because
      `Integer.MIN_VALUE + 1` is negative and no cell holds it, the test
      succeeds only when `prev` is reachable and `cur` is one longer. */
  function PlusOneEquals(cur: Cell, prev: Cell): (b: bool)
    ensures b <==> prev.Len? && cur == Len(prev.n + 1)
  {
    Encode(cur) == Encode(prev) + 1
  }

  // ---------------------------------------------------------------------
  // The recurrence, as a specification of the table
  // ---------------------------------------------------------------------

  /** The value the table holds at [k][i][j]. Layer 0 borders are 0; the
      borders of every other layer are Unreachable; an inner cell is the best
      of its match candidate and its two carries. */
  ghost function Table(s1: seq<char>, s2: seq<char>, c: seq<char>, k: nat, i: nat, j: nat): Cell
    requires k <= |c| && i <= |s1| && j <= |s2|
    decreases i + j
  {
    if i == 0 || j == 0 then
      (if k == 0 then Len(0) else Unreachable)
    else
      var lower := if k > 0 then Table(s1, s2, c, k - 1, i - 1, j - 1) else Unreachable;
      MaxCell(MatchValue(s1, s2, c, k, i, j, lower, Table(s1, s2, c, k, i - 1, j - 1)),
              MaxCell(Table(s1, s2, c, k, i - 1, j), Table(s1, s2, c, k, i, j - 1)))
  }

  /** The candidate from matching s1[i-1] with s2[j-1], given the diagonal
      cells of layers k-1 (`lower`) and k (`same`): a match on the next
      constraint symbol extends layer k-1 and only layer k-1; any other match
      extends layer k; unequal symbols give nothing. */
  function MatchValue(s1: seq<char>, s2: seq<char>, c: seq<char>, k: nat, i: nat, j: nat, lower: Cell, same: Cell): Cell
    requires k <= |c| && 0 < i <= |s1| && 0 < j <= |s2|
  {
    if s1[i - 1] != s2[j - 1] then Unreachable
    else if k > 0 && s1[i - 1] == c[k - 1] then PlusOne(lower)
    else PlusOne(same)
  }

  /** (k1, i1, j1) comes before (k, i, j) in the fill order. */
  predicate Before(k1: int, i1: int, j1: int, k: int, i: int, j: int) {
    k1 < k || (k1 == k && (i1 < i || (i1 == i && j1 < j)))
  }

  predicate HasShape(dp: array3<Cell>, s1: seq<char>, s2: seq<char>, c: seq<char>) {
    dp.Length0 == |c| + 1 && dp.Length1 == |s1| + 1 && dp.Length2 == |s2| + 1
  }

  /** Every layer below k, and every border cell, holds its value. */
  ghost predicate LayersDone(dp: array3<Cell>, s1: seq<char>, s2: seq<char>, c: seq<char>, k: int)
    requires HasShape(dp, s1, s2, c)
    reads dp
  {
    (forall k1, i1, j1 {:trigger dp[k1, i1, j1]} :: 0 <= k1 < k && k1 <= |c| && 0 <= i1 <= |s1| && 0 <= j1 <= |s2| ==>
      dp[k1, i1, j1] == Table(s1, s2, c, k1, i1, j1)) &&
    (forall k1, i1 {:trigger dp[k1, i1, 0]} :: 0 <= k1 <= |c| && 0 <= i1 <= |s1| ==> dp[k1, i1, 0] == Table(s1, s2, c, k1, i1, 0)) &&
    (forall k1, j1 {:trigger dp[k1, 0, j1]} :: 0 <= k1 <= |c| && 0 <= j1 <= |s2| ==> dp[k1, 0, j1] == Table(s1, s2, c, k1, 0, j1))
  }

  /** In layer k, every row before i holds its value. */
  ghost predicate RowsDone(dp: array3<Cell>, s1: seq<char>, s2: seq<char>, c: seq<char>, k: int, i: int)
    requires HasShape(dp, s1, s2, c) && 0 <= k <= |c|
    reads dp
  {
    forall i1, j1 {:trigger dp[k, i1, j1]} :: 0 <= i1 < i && i1 <= |s1| && 0 <= j1 <= |s2| ==> dp[k, i1, j1] == Table(s1, s2, c, k, i1, j1)
  }

  /** In layer k, row i, every column before j holds its value. */
  ghost predicate ColumnsDone(dp: array3<Cell>, s1: seq<char>, s2: seq<char>, c: seq<char>, k: int, i: int, j: int)
    requires HasShape(dp, s1, s2, c) && 0 <= k <= |c| && 0 <= i <= |s1|
    reads dp
  {
    forall j1 {:trigger dp[k, i, j1]} :: 0 <= j1 < j && j1 <= |s2| ==> dp[k, i, j1] == Table(s1, s2, c, k, i, j1)
  }

  /** `dp` is the table computed for s1, s2 and c. */
  ghost predicate IsTableOf(dp: array3<Cell>, s1: seq<char>, s2: seq<char>, c: seq<char>)
    reads dp
  {
    HasShape(dp, s1, s2, c) &&
    forall k, i, j {:trigger dp[k, i, j]} :: 0 <= k <= |c| && 0 <= i <= |s1| && 0 <= j <= |s2| ==>
      dp[k, i, j] == Table(s1, s2, c, k, i, j)
  }

  // ---------------------------------------------------------------------
  // Building the table
  // ---------------------------------------------------------------------

  /** Fills the table in place: layer 0 set to 0, the other layers set to
      Unreachable, then every inner cell in increasing k, i, j order. */
  method ComputeDynamicProgrammingTable(s1: seq<char>, s2: seq<char>, c: seq<char>) returns (dp: array3<Cell>)
    ensures fresh(dp)
    ensures IsTableOf(dp, s1, s2, c)
  {
    var n, m, r := |s1|, |s2|, |c|;
    // `new int[..]` starts out all zero
    dp := new Cell[r + 1, n + 1, m + 1]((k, i, j) => Len(0));
    InitialiseLayers(dp);
    assert LayersDone(dp, s1, s2, c, 0);
    for k := 0 to r + 1
      invariant LayersDone(dp, s1, s2, c, k)
    {
      FillLayer(dp, s1, s2, c, k);
    }
  }

  /** The two initialisation loops: layer 0 all 0, every other layer all
      Unreachable. */
  method InitialiseLayers(dp: array3<Cell>)
    modifies dp
    ensures forall i, j :: 0 <= i < dp.Length1 && 0 <= j < dp.Length2 && 0 < dp.Length0 ==> dp[0, i, j] == Len(0)
    ensures forall k, i, j :: 1 <= k < dp.Length0 && 0 <= i < dp.Length1 && 0 <= j < dp.Length2 ==> dp[k, i, j] == Unreachable
  {
    var r, n, m := dp.Length0 - 1, dp.Length1 - 1, dp.Length2 - 1;
    if r < 0 {
      return;
    }
    for i := 0 to n + 1
      invariant forall i1, j1 :: 0 <= i1 < i && 0 <= j1 <= m ==> dp[0, i1, j1] == Len(0)
    {
      for j := 0 to m + 1
        invariant forall i1, j1 :: 0 <= i1 < i && 0 <= j1 <= m ==> dp[0, i1, j1] == Len(0)
        invariant forall j1 :: 0 <= j1 < j ==> dp[0, i, j1] == Len(0)
      {
        dp[0, i, j] := Len(0);
      }
    }

    for k := 1 to r + 1
      invariant forall i1, j1 :: 0 <= i1 <= n && 0 <= j1 <= m ==> dp[0, i1, j1] == Len(0)
      invariant forall k1, i1, j1 :: 1 <= k1 < k && 0 <= i1 <= n && 0 <= j1 <= m ==> dp[k1, i1, j1] == Unreachable
    {
      for i := 0 to n + 1
        invariant forall i1, j1 :: 0 <= i1 <= n && 0 <= j1 <= m ==> dp[0, i1, j1] == Len(0)
        invariant forall k1, i1, j1 :: 1 <= k1 < k && 0 <= i1 <= n && 0 <= j1 <= m ==> dp[k1, i1, j1] == Unreachable
        invariant forall i1, j1 :: 0 <= i1 < i && 0 <= j1 <= m ==> dp[k, i1, j1] == Unreachable
      {
        for j := 0 to m + 1
          invariant forall i1, j1 :: 0 <= i1 <= n && 0 <= j1 <= m ==> dp[0, i1, j1] == Len(0)
          invariant forall k1, i1, j1 :: 1 <= k1 < k && 0 <= i1 <= n && 0 <= j1 <= m ==> dp[k1, i1, j1] == Unreachable
          invariant forall i1, j1 :: 0 <= i1 < i && 0 <= j1 <= m ==> dp[k, i1, j1] == Unreachable
          invariant forall j1 :: 0 <= j1 < j ==> dp[k, i, j1] == Unreachable
        {
          dp[k, i, j] := Unreachable;
        }
      }
    }
  }

  /** One pass of the outermost build loop: every row of layer k, in
      increasing i order. */
  method FillLayer(dp: array3<Cell>, s1: seq<char>, s2: seq<char>, c: seq<char>, k: nat)
    requires HasShape(dp, s1, s2, c) && k <= |c|
    requires LayersDone(dp, s1, s2, c, k)
    modifies dp
    ensures LayersDone(dp, s1, s2, c, k + 1)
  {
    for i := 0 to |s1| + 1
      invariant LayersDone(dp, s1, s2, c, k) && RowsDone(dp, s1, s2, c, k, i)
    {
      FillRow(dp, s1, s2, c, k, i);
    }
  }

  /** One pass of the middle build loop: every cell of row i in layer k, in
      increasing j order. Border cells keep their initial values. */
  method FillRow(dp: array3<Cell>, s1: seq<char>, s2: seq<char>, c: seq<char>, k: nat, i: nat)
    requires HasShape(dp, s1, s2, c) && k <= |c| && i <= |s1|
    requires LayersDone(dp, s1, s2, c, k) && RowsDone(dp, s1, s2, c, k, i)
    modifies dp
    ensures LayersDone(dp, s1, s2, c, k) && RowsDone(dp, s1, s2, c, k, i + 1)
  {
    for j := 0 to |s2| + 1
      invariant LayersDone(dp, s1, s2, c, k) && RowsDone(dp, s1, s2, c, k, i) && ColumnsDone(dp, s1, s2, c, k, i, j)
    {
      if i == 0 || j == 0 {
        // already set by the initialisation
        continue;
      }
      FillCell(dp, s1, s2, c, k, i, j);
    }
  }

  /** The body of the innermost build loop for an inner cell: the match
      candidate, guarded against extending an Unreachable predecessor, then
      the best of it and the two carries. */
  method FillCell(dp: array3<Cell>, s1: seq<char>, s2: seq<char>, c: seq<char>, k: nat, i: nat, j: nat)
    requires HasShape(dp, s1, s2, c) && k <= |c| && 0 < i <= |s1| && 0 < j <= |s2|
    requires LayersDone(dp, s1, s2, c, k) && RowsDone(dp, s1, s2, c, k, i) && ColumnsDone(dp, s1, s2, c, k, i, j)
    modifies dp
    ensures LayersDone(dp, s1, s2, c, k) && RowsDone(dp, s1, s2, c, k, i) && ColumnsDone(dp, s1, s2, c, k, i, j + 1)
  {
    var val := Unreachable;
    if s1[i - 1] == s2[j - 1] {
      var currentChar := s1[i - 1];
      if k > 0 && currentChar == c[k - 1] {
        // the match advances the constraint
        var prev := dp[k - 1, i - 1, j - 1];
        if prev != Unreachable {
          val := Len(prev.n + 1);
        }
      } else {
        // an ordinary match within layer k
        var prev := dp[k, i - 1, j - 1];
        if prev != Unreachable {
          val := Len(prev.n + 1);
        }
      }
    }
    var maxPrev := MaxCell(dp[k, i - 1, j], dp[k, i, j - 1]);
    assert MaxCell(val, maxPrev) == Table(s1, s2, c, k, i, j);
    dp[k, i, j] := MaxCell(val, maxPrev);
  }

  // ---------------------------------------------------------------------
  // Subsequences and the feasibility oracle
  // ---------------------------------------------------------------------

  /** `p` is obtained from `t` by deleting zero or more elements: the first
      element of t is either kept (and matches p's first) or deleted. */
  ghost predicate IsSubseq<T>(p: seq<T>, t: seq<T>)
    decreases |t|
  {
    p == [] || (t != [] && ((p[0] == t[0] && IsSubseq(p[1..], t[1..])) || IsSubseq(p, t[1..])))
  }

  /** A candidate is feasible when it is common to s1 and s2 and contains the
      constraint. */
  ghost predicate Feasible(s1: seq<char>, s2: seq<char>, c: seq<char>, solution: seq<char>) {
    IsSubseq(solution, s1) && IsSubseq(solution, s2) && IsSubseq(c, solution)
  }

  /** Dropping the first element of a subsequence keeps it a subsequence. */
  lemma {:induction false} SubseqDropFirst<T>(p: seq<T>, t: seq<T>)
    requires p != [] && IsSubseq(p, t)
    ensures IsSubseq(p[1..], t)
    decreases |t|
  {
    if p[0] == t[0] && IsSubseq(p[1..], t[1..]) {
    } else {
      SubseqDropFirst(p, t[1..]);
    }
  }

  /** Matching equal first elements greedily loses no embedding. */
  lemma SubseqGreedyMatch<T>(p: seq<T>, t: seq<T>)
    requires p != [] && t != [] && p[0] == t[0]
    ensures IsSubseq(p, t) <==> IsSubseq(p[1..], t[1..])
  {
    if IsSubseq(p, t) && !IsSubseq(p[1..], t[1..]) {
      SubseqDropFirst(p, t[1..]);
    }
  }

  /** The two-pointer scan: `sub` is a subsequence of `text`. */
  method IsSubsequence(sub: seq<char>, text: seq<char>) returns (b: bool)
    ensures b == IsSubseq(sub, text)
  {
    var i := 0;
    var j := 0;
    while i < |sub| && j < |text|
      invariant 0 <= i <= |sub| && 0 <= j <= |text|
      invariant IsSubseq(sub, text) == IsSubseq(sub[i..], text[j..])
    {
      if sub[i] == text[j] {
        SubseqGreedyMatch(sub[i..], text[j..]);
        assert sub[i..][1..] == sub[i + 1..];
        i := i + 1;
      }
      assert text[j..][1..] == text[j + 1..];
      j := j + 1;
    }
    return i == |sub|;
  }

  /** The feasibility oracle: the three subsequence tests and nothing else. */
  method IsFeasible(s1: seq<char>, s2: seq<char>, c: seq<char>, solution: seq<char>) returns (b: bool)
    ensures b == Feasible(s1, s2, c, solution)
  {
    var inS1 := IsSubsequence(solution, s1);
    var inS2 := IsSubsequence(solution, s2);
    if !inS1 || !inS2 {
      return false;
    }
    b := IsSubsequence(c, solution);
  }

  // ---------------------------------------------------------------------
  // Backtracking
  // ---------------------------------------------------------------------

  /** `StringBuilder.reverse`: the same elements, last first. */
  function Reversed<T>(s: seq<T>): (r: seq<T>)
    ensures |r| == |s|
    ensures forall i :: 0 <= i < |s| ==> r[i] == s[|s| - 1 - i]
  {
    if s == [] then [] else Reversed(s[1..]) + [s[0]]
  }

  /** Appending to the builder and reversing at the end puts the newest
      symbol first. */
  lemma ReversedAppend<T>(s: seq<T>, x: T)
    ensures Reversed(s + [x]) == [x] + Reversed(s)
  {
  }

  /** An extra symbol in front of the text keeps every subsequence, and a
      symbol in front of both keeps the relation. */
  lemma SubseqCons<T>(p: seq<T>, t: seq<T>, x: T)
    requires IsSubseq(p, t)
    ensures IsSubseq(p, [x] + t)
    ensures IsSubseq([x] + p, [x] + t)
  {
    assert ([x] + t)[1..] == t;
    assert ([x] + p)[1..] == p;
  }

  /** A subsequence of a suffix is a subsequence of the whole text. */
  lemma {:induction false} SubseqOfSuffix<T>(p: seq<T>, t: seq<T>, i: nat)
    requires i <= |t| && IsSubseq(p, t[i..])
    ensures IsSubseq(p, t)
    decreases i
  {
    if i > 0 {
      assert t[i - 1..] == [t[i - 1]] + t[i..];
      SubseqCons(p, t[i..], t[i - 1]);
      SubseqOfSuffix(p, t, i - 1);
    } else {
      assert t[0..] == t;
    }
  }

  /** A matched symbol put in front of the solution keeps it embedded in
      both strings, and keeps the constraint embedded in it, whether or not
      the match advances the constraint. */
  lemma MatchKeepsEmbedding(sol: seq<char>, s1: seq<char>, s2: seq<char>, c: seq<char>, k: nat, i: nat, j: nat, k': nat)
    requires k <= |c| && 0 < i <= |s1| && 0 < j <= |s2| && s1[i - 1] == s2[j - 1]
    requires k' == k || (k' == k - 1 && s1[i - 1] == c[k - 1])
    requires IsSubseq(sol, s1[i..]) && IsSubseq(sol, s2[j..]) && IsSubseq(c[k..], sol)
    ensures IsSubseq([s1[i - 1]] + sol, s1[i - 1..]) && IsSubseq([s1[i - 1]] + sol, s2[j - 1..])
    ensures IsSubseq(c[k'..], [s1[i - 1]] + sol)
  {
    var x := s1[i - 1];
    assert s1[i - 1..] == [x] + s1[i..];
    assert s2[j - 1..] == [x] + s2[j..];
    SubseqCons(sol, s1[i..], x);
    SubseqCons(sol, s2[j..], x);
    SubseqCons(c[k..], sol, x);
    if k' < k {
      assert c[k - 1..] == [x] + c[k..];
    }
  }

  /** When the backtracking takes neither match nor the step in s1, the step
      in s2 keeps the cell's value. */
  lemma CarryLeft(s1: seq<char>, s2: seq<char>, c: seq<char>, k: nat, i: nat, j: nat)
    requires k <= |c| && 0 < i <= |s1| && 0 < j <= |s2|
    requires Table(s1, s2, c, k, i, j).Len?
    requires Table(s1, s2, c, k, i, j) != Table(s1, s2, c, k, i - 1, j)
    requires s1[i - 1] == s2[j - 1] ==>
      !(k > 0 && s1[i - 1] == c[k - 1] && PlusOneEquals(Table(s1, s2, c, k, i, j), Table(s1, s2, c, k - 1, i - 1, j - 1))) &&
      !PlusOneEquals(Table(s1, s2, c, k, i, j), Table(s1, s2, c, k, i - 1, j - 1))
    ensures Table(s1, s2, c, k, i, j - 1) == Table(s1, s2, c, k, i, j)
  {
  }

  /** Walks back from [r][n][m], collecting matched symbols in reverse, and
      reverses them at the end. */
  method BacktrackingClcs(s1: seq<char>, s2: seq<char>, c: seq<char>, dp: array3<Cell>) returns (solution: seq<char>)
    requires IsTableOf(dp, s1, s2, c)
    ensures Table(s1, s2, c, |c|, |s1|, |s2|).Unreachable? ==> solution == []
    ensures Table(s1, s2, c, |c|, |s1|, |s2|).Len? ==>
      |solution| == Table(s1, s2, c, |c|, |s1|, |s2|).n && Feasible(s1, s2, c, solution)
  {
    var reversedSolution: seq<char> := [];
    var i := |s1|;
    var j := |s2|;
    var k := |c|;

    if Encode(dp[k, i, j]) < 0 {
      return [];
    }
    ghost var total := dp[k, i, j].n;
    // the solution as it will read once reversed
    ghost var sol: seq<char> := [];

    while i > 0 && j > 0
      invariant 0 <= k <= |c| && 0 <= i <= |s1| && 0 <= j <= |s2|
      invariant sol == Reversed(reversedSolution)
      invariant dp[k, i, j].Len? && |sol| + dp[k, i, j].n == total
      invariant IsSubseq(sol, s1[i..]) && IsSubseq(sol, s2[j..])
      invariant IsSubseq(c[k..], sol)
      decreases i + j
    {
      var k', i', j', matched := BacktrackStep(s1, s2, c, dp, k, i, j);
      if matched {
        MatchKeepsEmbedding(sol, s1, s2, c, k, i, j, k');
        ReversedAppend(reversedSolution, s1[i - 1]);
        reversedSolution := reversedSolution + [s1[i - 1]];
        sol := [s1[i - 1]] + sol;
      } else {
        SubseqOfSuffix(sol, s1[i'..], i - i');
        SubseqOfSuffix(sol, s2[j'..], j - j');
        assert s1[i'..][i - i'..] == s1[i..] && s2[j'..][j - j'..] == s2[j..];
      }
      i, j, k := i', j', k';
    }

    assert dp[k, i, j] == Table(s1, s2, c, k, i, j);
    assert k == 0 && dp[k, i, j].n == 0;
    solution := Reversed(reversedSolution);
    SubseqOfSuffix(sol, s1, i);
    SubseqOfSuffix(sol, s2, j);
    assert c[0..] == c;
  }

  /** One step of the backward walk from an inner reachable cell, trying in
      order a match that advances the constraint, an ordinary match, a step
      in s1 and a step in s2. A match leads to a cell one shorter (one layer
      down when it advances the constraint, which it does only on the next
      constraint symbol); a step keeps the cell's value. */
  method BacktrackStep(s1: seq<char>, s2: seq<char>, c: seq<char>, dp: array3<Cell>, k: nat, i: nat, j: nat)
    returns (k': nat, i': nat, j': nat, matched: bool)
    requires IsTableOf(dp, s1, s2, c)
    requires k <= |c| && 0 < i <= |s1| && 0 < j <= |s2| && dp[k, i, j].Len?
    ensures k' <= k && i' <= i && j' <= j
    ensures matched ==> s1[i - 1] == s2[j - 1] && i' == i - 1 && j' == j - 1
    ensures matched ==> k' == k || (k' == k - 1 && s1[i - 1] == c[k - 1])
    ensures matched ==> dp[k', i', j'].Len? && dp[k', i', j'].n + 1 == dp[k, i, j].n
    ensures !matched ==> k' == k && i' + j' == i + j - 1 && dp[k', i', j'] == dp[k, i, j]
  {
    if s1[i - 1] == s2[j - 1] {
      if k > 0 && s1[i - 1] == c[k - 1] && PlusOneEquals(dp[k, i, j], dp[k - 1, i - 1, j - 1]) {
        return k - 1, i - 1, j - 1, true;
      } else if PlusOneEquals(dp[k, i, j], dp[k, i - 1, j - 1]) {
        return k, i - 1, j - 1, true;
      } else if dp[k, i, j] == dp[k, i - 1, j] {
        return k, i - 1, j, false;
      } else {
        CarryLeft(s1, s2, c, k, i, j);
        return k, i, j - 1, false;
      }
    } else if dp[k, i, j] == dp[k, i - 1, j] {
      return k, i - 1, j, false;
    } else {
      CarryLeft(s1, s2, c, k, i, j);
      return k, i, j - 1, false;
    }
  }

  // ---------------------------------------------------------------------
  // Properties of the table
  // ---------------------------------------------------------------------

  /** A reachable cell has made no more constraint progress than its length,
      and no longer a length than either prefix: so every layer k >= 1 is
      Unreachable on its borders. */
  lemma {:induction false} ReachableBounds(s1: seq<char>, s2: seq<char>, c: seq<char>, k: nat, i: nat, j: nat)
    requires k <= |c| && i <= |s1| && j <= |s2|
    ensures Bounded(Table(s1, s2, c, k, i, j), k, i, j)
    decreases i + j
  {
    if i > 0 && j > 0 {
      var up, left, same := Table(s1, s2, c, k, i - 1, j), Table(s1, s2, c, k, i, j - 1), Table(s1, s2, c, k, i - 1, j - 1);
      var lower := if k > 0 then Table(s1, s2, c, k - 1, i - 1, j - 1) else Unreachable;
      ReachableBounds(s1, s2, c, k, i - 1, j);
      ReachableBounds(s1, s2, c, k, i, j - 1);
      ReachableBounds(s1, s2, c, k, i - 1, j - 1);
      if k > 0 {
        ReachableBounds(s1, s2, c, k - 1, i - 1, j - 1);
      }
      BoundedStep(s1, s2, c, k, i, j, lower, same, up, left);
    }
  }

  lemma BoundedStep(s1: seq<char>, s2: seq<char>, c: seq<char>, k: nat, i: nat, j: nat, lower: Cell, same: Cell, up: Cell, left: Cell)
    requires k <= |c| && 0 < i <= |s1| && 0 < j <= |s2|
    requires k > 0 ==> Bounded(lower, k - 1, i - 1, j - 1)
    requires Bounded(same, k, i - 1, j - 1) && Bounded(up, k, i - 1, j) && Bounded(left, k, i, j - 1)
    ensures Bounded(MaxCell(MatchValue(s1, s2, c, k, i, j, lower, same), MaxCell(up, left)), k, i, j)
  {
  }

  predicate Bounded(x: Cell, k: nat, i: nat, j: nat) {
    x.Len? ==> k <= x.n <= i && x.n <= j
  }

  /** Monotone carry: growing either prefix never makes a cell worse. */
  lemma {:induction false} TableMonotone(s1: seq<char>, s2: seq<char>, c: seq<char>, k: nat, i: nat, j: nat, i2: nat, j2: nat)
    requires k <= |c| && i <= i2 <= |s1| && j <= j2 <= |s2|
    ensures AtMost(Table(s1, s2, c, k, i, j), Table(s1, s2, c, k, i2, j2))
    decreases i2 + j2
  {
    if i2 > i {
      TableMonotone(s1, s2, c, k, i, j, i2 - 1, j2);
      CarryStep(s1, s2, c, k, i2, j2);
      AtMostTrans(Table(s1, s2, c, k, i, j), Table(s1, s2, c, k, i2 - 1, j2), Table(s1, s2, c, k, i2, j2));
    } else if j2 > j {
      TableMonotone(s1, s2, c, k, i, j, i2, j2 - 1);
      CarryStep(s1, s2, c, k, i2, j2);
      AtMostTrans(Table(s1, s2, c, k, i, j), Table(s1, s2, c, k, i2, j2 - 1), Table(s1, s2, c, k, i2, j2));
    }
  }

  /** A cell is at least each of its two carries, on the borders too. */
  lemma CarryStep(s1: seq<char>, s2: seq<char>, c: seq<char>, k: nat, i: nat, j: nat)
    requires k <= |c| && i <= |s1| && j <= |s2|
    ensures i > 0 ==> AtMost(Table(s1, s2, c, k, i - 1, j), Table(s1, s2, c, k, i, j))
    ensures j > 0 ==> AtMost(Table(s1, s2, c, k, i, j - 1), Table(s1, s2, c, k, i, j))
  {
  }

  /** A cell is Unreachable exactly when the match candidate and both
      carries are: the symbols differ or the extended predecessor is
      Unreachable, and both neighbours are Unreachable. */
  lemma CellUnreachable(s1: seq<char>, s2: seq<char>, c: seq<char>, k: nat, i: nat, j: nat)
    requires k <= |c| && 0 < i <= |s1| && 0 < j <= |s2|
    ensures Table(s1, s2, c, k, i, j).Unreachable? <==>
      (s1[i - 1] != s2[j - 1] ||
       (k > 0 && s1[i - 1] == c[k - 1] && Table(s1, s2, c, k - 1, i - 1, j - 1).Unreachable?) ||
       (!(k > 0 && s1[i - 1] == c[k - 1]) && Table(s1, s2, c, k, i - 1, j - 1).Unreachable?)) &&
      Table(s1, s2, c, k, i - 1, j).Unreachable? && Table(s1, s2, c, k, i, j - 1).Unreachable?
  {
  }

  lemma PlusOneMonotone(a: Cell, b: Cell)
    requires AtMost(a, b)
    ensures AtMost(PlusOne(a), PlusOne(b))
  {
  }

  lemma AtMostTrans(a: Cell, b: Cell, x: Cell)
    requires AtMost(a, b) && AtMost(b, x)
    ensures AtMost(a, x)
  {
  }

  /** Demanding more of the constraint never helps: layer k is never better
      than layer k-1. */
  lemma {:induction false} LayerMonotone(s1: seq<char>, s2: seq<char>, c: seq<char>, k: nat, i: nat, j: nat)
    requires 0 < k <= |c| && i <= |s1| && j <= |s2|
    ensures AtMost(Table(s1, s2, c, k, i, j), Table(s1, s2, c, k - 1, i, j))
    decreases i + j
  {
    if i > 0 && j > 0 {
      LayerMonotone(s1, s2, c, k, i - 1, j);
      LayerMonotone(s1, s2, c, k, i, j - 1);
      LayerMonotone(s1, s2, c, k, i - 1, j - 1);
      var lowerBelow := if k > 1 then Table(s1, s2, c, k - 2, i - 1, j - 1) else Unreachable;
      if k > 1 {
        LayerMonotone(s1, s2, c, k - 1, i - 1, j - 1);
      }
      LayerStep(s1, s2, c, k, i, j,
        Table(s1, s2, c, k - 1, i - 1, j - 1), Table(s1, s2, c, k, i - 1, j - 1),
        Table(s1, s2, c, k, i - 1, j), Table(s1, s2, c, k, i, j - 1),
        lowerBelow, Table(s1, s2, c, k - 1, i - 1, j), Table(s1, s2, c, k - 1, i, j - 1));
    }
  }

  /** One cell of two adjacent layers: if layer k's neighbours are no better
      than layer k-1's, neither is the cell. `lower` is the diagonal of layer
      k-1, which layer k extends on its constraint symbol and layer k-1
      extends on any other match; `lowerBelow` is the diagonal of layer k-2. */
  lemma LayerStep(s1: seq<char>, s2: seq<char>, c: seq<char>, k: nat, i: nat, j: nat,
                  lower: Cell, same: Cell, up: Cell, left: Cell, lowerBelow: Cell, upBelow: Cell, leftBelow: Cell)
    requires 0 < k <= |c| && 0 < i <= |s1| && 0 < j <= |s2|
    requires AtMost(same, lower) && AtMost(up, upBelow) && AtMost(left, leftBelow)
    requires k > 1 ==> AtMost(lower, lowerBelow)
    ensures AtMost(MaxCell(MatchValue(s1, s2, c, k, i, j, lower, same), MaxCell(up, left)),
                   MaxCell(MatchValue(s1, s2, c, k - 1, i, j, lowerBelow, lower), MaxCell(upBelow, leftBelow)))
  {
    PlusOneMonotone(same, lower);
    if k > 1 {
      PlusOneMonotone(lower, lowerBelow);
    }
  }

  /** The same recurrence, except that a match on the next constraint symbol
      also falls back to extending layer k when that is better. */
  ghost function TableWithFallback(s1: seq<char>, s2: seq<char>, c: seq<char>, k: nat, i: nat, j: nat): Cell
    requires k <= |c| && i <= |s1| && j <= |s2|
    decreases i + j
  {
    if i == 0 || j == 0 then
      (if k == 0 then Len(0) else Unreachable)
    else
      var lower := if k > 0 then TableWithFallback(s1, s2, c, k - 1, i - 1, j - 1) else Unreachable;
      MaxCell(FallbackMatchValue(s1, s2, c, k, i, j, lower, TableWithFallback(s1, s2, c, k, i - 1, j - 1)),
              MaxCell(TableWithFallback(s1, s2, c, k, i - 1, j), TableWithFallback(s1, s2, c, k, i, j - 1)))
  }

  /** The match candidate with the fallback: on the next constraint symbol,
      the better of extending layer k-1 and extending layer k. */
  function FallbackMatchValue(s1: seq<char>, s2: seq<char>, c: seq<char>, k: nat, i: nat, j: nat, lower: Cell, same: Cell): Cell
    requires k <= |c| && 0 < i <= |s1| && 0 < j <= |s2|
  {
    if s1[i - 1] != s2[j - 1] then Unreachable
    else if k > 0 && s1[i - 1] == c[k - 1] then MaxCell(PlusOne(lower), PlusOne(same))
    else PlusOne(same)
  }

  /** Where layer k is no better than layer k-1, the fallback never wins. */
  lemma FallbackStep(s1: seq<char>, s2: seq<char>, c: seq<char>, k: nat, i: nat, j: nat, lower: Cell, same: Cell, up: Cell, left: Cell)
    requires k <= |c| && 0 < i <= |s1| && 0 < j <= |s2|
    requires k > 0 ==> AtMost(same, lower)
    ensures MaxCell(FallbackMatchValue(s1, s2, c, k, i, j, lower, same), MaxCell(up, left)) ==
      MaxCell(MatchValue(s1, s2, c, k, i, j, lower, same), MaxCell(up, left))
  {
    if k > 0 {
      PlusOneMonotone(same, lower);
    }
  }

  /** The missing fallback costs nothing: with or without it the table is
      the same. */
  lemma {:induction false} FallbackChangesNothing(s1: seq<char>, s2: seq<char>, c: seq<char>, k: nat, i: nat, j: nat)
    requires k <= |c| && i <= |s1| && j <= |s2|
    ensures TableWithFallback(s1, s2, c, k, i, j) == Table(s1, s2, c, k, i, j)
    decreases i + j
  {
    if i > 0 && j > 0 {
      FallbackChangesNothing(s1, s2, c, k, i - 1, j);
      FallbackChangesNothing(s1, s2, c, k, i, j - 1);
      FallbackChangesNothing(s1, s2, c, k, i - 1, j - 1);
      var lower := if k > 0 then Table(s1, s2, c, k - 1, i - 1, j - 1) else Unreachable;
      if k > 0 {
        FallbackChangesNothing(s1, s2, c, k - 1, i - 1, j - 1);
        LayerMonotone(s1, s2, c, k, i - 1, j - 1);
      }
      FallbackStep(s1, s2, c, k, i, j, lower, Table(s1, s2, c, k, i - 1, j - 1), Table(s1, s2, c, k, i - 1, j), Table(s1, s2, c, k, i, j - 1));
    }
  }

  // ---------------------------------------------------------------------
  // Layer 0 is the classical LCS
  // ---------------------------------------------------------------------

  function Max(a: nat, b: nat): nat {
    if a >= b then a else b
  }

  /** The textbook LCS length of the prefixes a[..i] and b[..j]: a match of
      the last symbols extends the diagonal, anything else drops one of them. */
  function LcsLength(a: seq<char>, b: seq<char>, i: nat, j: nat): nat
    requires i <= |a| && j <= |b|
    decreases i + j
  {
    if i == 0 || j == 0 then 0
    else if a[i - 1] == b[j - 1] then LcsLength(a, b, i - 1, j - 1) + 1
    else Max(LcsLength(a, b, i - 1, j), LcsLength(a, b, i, j - 1))
  }

  /** Dropping the last symbol of either prefix lowers the LCS length by at
      most one. */
  lemma {:induction false} LcsStep(a: seq<char>, b: seq<char>, i: nat, j: nat)
    requires i <= |a| && j <= |b|
    ensures i > 0 ==> LcsLength(a, b, i - 1, j) <= LcsLength(a, b, i, j) <= LcsLength(a, b, i - 1, j) + 1
    ensures j > 0 ==> LcsLength(a, b, i, j - 1) <= LcsLength(a, b, i, j) <= LcsLength(a, b, i, j - 1) + 1
    decreases i + j
  {
    if i > 0 && j > 0 {
      LcsStep(a, b, i - 1, j);
      LcsStep(a, b, i, j - 1);
      LcsStep(a, b, i - 1, j - 1);
    }
  }

  /** Layer 0 of the table holds the classical LCS length of the prefixes. */
  lemma {:induction false} LayerZeroIsLcs(s1: seq<char>, s2: seq<char>, c: seq<char>, i: nat, j: nat)
    requires i <= |s1| && j <= |s2|
    ensures Table(s1, s2, c, 0, i, j) == Len(LcsLength(s1, s2, i, j))
    decreases i + j
  {
    if i > 0 && j > 0 {
      LayerZeroIsLcs(s1, s2, c, i - 1, j);
      LayerZeroIsLcs(s1, s2, c, i, j - 1);
      LayerZeroIsLcs(s1, s2, c, i - 1, j - 1);
      LcsStep(s1, s2, i, j - 1);
      LcsStep(s1, s2, i - 1, j);
      LayerZeroStep(s1, s2, c, i, j, LcsLength(s1, s2, i - 1, j - 1), LcsLength(s1, s2, i - 1, j), LcsLength(s1, s2, i, j - 1));
    }
  }

  /** One cell of layer 0: with both carries at most one longer than the
      diagonal, the table's candidate and carries combine as the textbook
      recurrence does. */
  lemma LayerZeroStep(s1: seq<char>, s2: seq<char>, c: seq<char>, i: nat, j: nat, diag: nat, up: nat, left: nat)
    requires 0 < i <= |s1| && 0 < j <= |s2|
    requires diag <= up <= diag + 1 && diag <= left <= diag + 1
    ensures MaxCell(MatchValue(s1, s2, c, 0, i, j, Unreachable, Len(diag)), MaxCell(Len(up), Len(left))) ==
      Len(if s1[i - 1] == s2[j - 1] then diag + 1 else Max(up, left))
  {
  }
}
