/** Exact cover by reduction to SAT. A boolean matrix says which set (row)
    contains which element (column); every set becomes a variable, numbered
    from 1, and every element gives one "at least one of its sets" clause and
    one "not both" clause per pair of its sets, in the DIMACS convention
    that a clause is a list of non-zero literals closed by 0. The solver's
    answer is decoded back into the chosen sets. */
module ExactCoverReductor {
  import opened Wrappers

  /** A clause as DIMACS writes it: literals, then 0. */
  type Clause = seq<int>

  /** The formula: the header's variable and clause counts, then the
      clauses in the order they are written. */
  datatype Dimacs = Dimacs(numVars: int, numClauses: int, clauses: seq<Clause>)

  /** Every set has a column for each of the first `numElements` elements. */
  ghost predicate Fits(m: seq<seq<bool>>, numElements: int) {
    forall i :: 0 <= i < |m| ==> numElements <= |m[i]|
  }

  // ---------------------------------------------------------------------
  // The clauses, as functions of the matrix
  // ---------------------------------------------------------------------

  /** The 1-based numbers of the sets lo..hi-1 that contain element u, in
      increasing order. */
  ghost function Members(m: seq<seq<bool>>, u: nat, lo: nat, hi: nat): seq<int>
    requires Fits(m, u + 1) && lo <= hi <= |m|
    decreases hi - lo
  {
    if hi == lo then [] else Members(m, u, lo, hi - 1) + (if m[hi - 1][u] then [hi] else [])
  }

  /** A set number is a member exactly when that set contains u. */
  lemma {:induction false} MembersSpec(m: seq<seq<bool>>, u: nat, lo: nat, hi: nat)
    requires Fits(m, u + 1) && lo <= hi <= |m|
    ensures forall v :: v in Members(m, u, lo, hi) <==> lo < v <= hi && m[v - 1][u]
    ensures forall a, b :: 0 <= a < b < |Members(m, u, lo, hi)| ==> Members(m, u, lo, hi)[a] < Members(m, u, lo, hi)[b]
    decreases hi - lo
  {
    if hi > lo {
      MembersSpec(m, u, lo, hi - 1);
      var prev := Members(m, u, lo, hi - 1);
      assert forall a :: 0 <= a < |prev| ==> prev[a] in prev;
    }
  }

  /** Peeling the first set off the range. */
  lemma {:induction false} MembersFront(m: seq<seq<bool>>, u: nat, lo: nat, hi: nat)
    requires Fits(m, u + 1) && lo < hi <= |m|
    ensures Members(m, u, lo, hi) == (if m[lo][u] then [lo + 1] else []) + Members(m, u, lo + 1, hi)
    decreases hi - lo
  {
    if hi > lo + 1 {
      MembersFront(m, u, lo, hi - 1);
    }
  }

  /** The clause saying that sets i and j (counted from 0) are not both
      chosen. */
  function PairClause(i: int, j: int): Clause {
    [-(i + 1), -(j + 1), 0]
  }

  /** The "not both" clauses pairing set i with the sets i+1..j-1 that also
      contain u. */
  ghost function PairsWith(m: seq<seq<bool>>, u: nat, i: nat, j: nat): seq<Clause>
    requires Fits(m, u + 1) && i < j <= |m|
    decreases j - i
  {
    if j == i + 1 then []
    else PairsWith(m, u, i, j - 1) + (if m[j - 1][u] then [PairClause(i, j - 1)] else [])
  }

  /** The pair clauses that start at set i. */
  ghost function PairRow(m: seq<seq<bool>>, u: nat, i: nat): seq<Clause>
    requires Fits(m, u + 1) && i < |m|
  {
    if m[i][u] then PairsWith(m, u, i, |m|) else []
  }

  /** The pair clauses of element u whose first set is below k. */
  ghost function PairsUpTo(m: seq<seq<bool>>, u: nat, k: nat): seq<Clause>
    requires Fits(m, u + 1) && k <= |m|
  {
    if k == 0 then [] else PairsUpTo(m, u, k - 1) + PairRow(m, u, k - 1)
  }

  /** The "at least one" clauses of the first k elements. */
  ghost function AtLeastOne(m: seq<seq<bool>>, k: nat): seq<Clause>
    requires Fits(m, k)
  {
    if k == 0 then [] else AtLeastOne(m, k - 1) + [Members(m, k - 1, 0, |m|) + [0]]
  }

  /** The "at most one" clauses of the first k elements. */
  ghost function AtMostOne(m: seq<seq<bool>>, k: nat): seq<Clause>
    requires Fits(m, k)
  {
    if k == 0 then [] else AtMostOne(m, k - 1) + PairsUpTo(m, k - 1, |m|)
  }

  /** The number of pairs among c things. */
  function Choose2(c: nat): nat {
    if c == 0 then 0 else Choose2(c - 1) + (c - 1)
  }

  /** The pair-clause count of the first k elements, as the header adds it
      up. */
  ghost function PairTotal(m: seq<seq<bool>>, k: nat): nat
    requires Fits(m, k)
  {
    if k == 0 then 0 else PairTotal(m, k - 1) + Choose2(|Members(m, k - 1, 0, |m|)|)
  }

  /** Some element among the first numElements lies in no set. */
  ghost predicate Uncovered(m: seq<seq<bool>>, numElements: nat)
    requires Fits(m, numElements)
  {
    exists u :: 0 <= u < numElements && Members(m, u, 0, |m|) == []
  }

  /** The reduction: nothing when an element lies in no set, otherwise the
      header and the at-least-one clauses followed by the at-most-one
      clauses. */
  ghost function Reduce(m: seq<seq<bool>>, numElements: nat): Option<Dimacs>
    requires Fits(m, numElements)
  {
    if Uncovered(m, numElements) then None
    else Some(Dimacs(|m|, numElements + PairTotal(m, numElements), AtLeastOne(m, numElements) + AtMostOne(m, numElements)))
  }

  // ---------------------------------------------------------------------
  // The header count
  // ---------------------------------------------------------------------

  lemma {:induction false} PairsWithCount(m: seq<seq<bool>>, u: nat, i: nat, j: nat)
    requires Fits(m, u + 1) && i < j <= |m|
    ensures |PairsWith(m, u, i, j)| == |Members(m, u, i + 1, j)|
    decreases j - i
  {
    if j > i + 1 {
      PairsWithCount(m, u, i, j - 1);
    }
  }

  /** The pair clauses of u below k, together with the pairs among the
      sets from k on, are all the pairs of u's sets. */
  lemma {:induction false} PairsUpToCount(m: seq<seq<bool>>, u: nat, k: nat)
    requires Fits(m, u + 1) && k <= |m|
    ensures |PairsUpTo(m, u, k)| + Choose2(|Members(m, u, k, |m|)|) == Choose2(|Members(m, u, 0, |m|)|)
  {
    if k > 0 {
      PairsUpToCount(m, u, k - 1);
      MembersFront(m, u, k - 1, |m|);
      if m[k - 1][u] {
        PairsWithCount(m, u, k - 1, |m|);
      }
    }
  }

  lemma {:induction false} ClauseCounts(m: seq<seq<bool>>, k: nat)
    requires Fits(m, k)
    ensures |AtLeastOne(m, k)| == k && |AtMostOne(m, k)| == PairTotal(m, k)
  {
    if k > 0 {
      ClauseCounts(m, k - 1);
      PairsUpToCount(m, k - 1, |m|);
    }
  }

  /** The clause count in the header is the number of clauses written. */
  lemma HeaderCountMatches(m: seq<seq<bool>>, numElements: nat)
    requires Fits(m, numElements) && Reduce(m, numElements).Some?
    ensures Reduce(m, numElements).value.numClauses == |Reduce(m, numElements).value.clauses|
    ensures Reduce(m, numElements).value.numVars == |m|
  {
    ClauseCounts(m, numElements);
  }

  // ---------------------------------------------------------------------
  // The shape of the clauses
  // ---------------------------------------------------------------------

  /** The clause that lists the sets containing element u. */
  ghost function CoverClause(m: seq<seq<bool>>, u: nat): Clause
    requires Fits(m, u + 1)
  {
    Members(m, u, 0, |m|) + [0]
  }

  /** A clause ends in 0 and every other literal names one of the n
      variables. */
  ghost predicate WellFormed(c: Clause, n: int) {
    |c| > 0 && c[|c| - 1] == 0 && forall k :: 0 <= k < |c| - 1 ==> 1 <= c[k] <= n || -n <= c[k] <= -1
  }

  /** Clause u of the at-least-one part lists, in increasing order and
      closed by 0, the numbers of exactly the sets containing u. */
  lemma AtLeastOneClause(m: seq<seq<bool>>, k: nat, u: nat)
    requires Fits(m, k) && u < k
    ensures |AtLeastOne(m, k)| == k
    ensures var c := AtLeastOne(m, k)[u];
      |c| > 0 && c[|c| - 1] == 0 &&
      (forall a, b :: 0 <= a < b < |c| - 1 ==> c[a] < c[b]) &&
      (forall i :: 0 <= i < |m| ==> (m[i][u] <==> exists a :: 0 <= a < |c| - 1 && c[a] == i + 1))
  {
    ClauseCounts(m, k);
    AtLeastOneAt(m, k, u);
    var ms := Members(m, u, 0, |m|);
    MembersSpec(m, u, 0, |m|);
    var c := AtLeastOne(m, k)[u];
    assert forall a :: 0 <= a < |ms| ==> c[a] == ms[a];
    forall i | 0 <= i < |m|
      ensures m[i][u] <==> exists a :: 0 <= a < |c| - 1 && c[a] == i + 1
    {
      if m[i][u] {
        assert i + 1 in ms;
      }
      if exists a :: 0 <= a < |c| - 1 && c[a] == i + 1 {
        var a :| 0 <= a < |c| - 1 && c[a] == i + 1;
        assert ms[a] in ms;
      }
    }
  }

  lemma {:induction false} AtLeastOneAt(m: seq<seq<bool>>, k: nat, u: nat)
    requires Fits(m, k) && u < k
    ensures |AtLeastOne(m, k)| == k && AtLeastOne(m, k)[u] == CoverClause(m, u)
  {
    ClauseCounts(m, k);
    if u < k - 1 {
      AtLeastOneAt(m, k - 1, u);
    }
  }

  /** The clauses of an element's pairs, as a set: one per pair i < j of
      sets both containing u. */
  lemma {:induction false} PairsWithSpec(m: seq<seq<bool>>, u: nat, i: nat, j: nat)
    requires Fits(m, u + 1) && i < j <= |m|
    ensures forall c :: c in PairsWith(m, u, i, j) <==> exists k :: i < k < j && m[k][u] && c == PairClause(i, k)
    decreases j - i
  {
    if j > i + 1 {
      PairsWithSpec(m, u, i, j - 1);
    }
  }

  lemma {:induction false} PairsUpToSpec(m: seq<seq<bool>>, u: nat, k: nat)
    requires Fits(m, u + 1) && k <= |m|
    ensures forall c :: c in PairsUpTo(m, u, k) <==>
      exists i, j :: 0 <= i < k && i < j < |m| && m[i][u] && m[j][u] && c == PairClause(i, j)
  {
    if k > 0 {
      PairsUpToSpec(m, u, k - 1);
      if m[k - 1][u] {
        PairsWithSpec(m, u, k - 1, |m|);
      }
    }
  }

  lemma {:induction false} AtLeastOneSpec(m: seq<seq<bool>>, k: nat)
    requires Fits(m, k)
    ensures forall c :: c in AtLeastOne(m, k) <==> exists u :: 0 <= u < k && c == CoverClause(m, u)
  {
    if k > 0 {
      AtLeastOneSpec(m, k - 1);
      assert CoverClause(m, k - 1) in AtLeastOne(m, k);
    }
  }

  lemma {:induction false} AtMostOneSpec(m: seq<seq<bool>>, k: nat)
    requires Fits(m, k)
    ensures forall c :: c in AtMostOne(m, k) <==> exists u :: 0 <= u < k && c in PairsUpTo(m, u, |m|)
  {
    if k > 0 {
      AtMostOneSpec(m, k - 1);
      var prev, last := AtMostOne(m, k - 1), PairsUpTo(m, k - 1, |m|);
      assert AtMostOne(m, k) == prev + last;
      forall c | c in AtMostOne(m, k)
        ensures exists u :: 0 <= u < k && c in PairsUpTo(m, u, |m|)
      {
        if c in prev {
          var u :| 0 <= u < k - 1 && c in PairsUpTo(m, u, |m|);
          assert 0 <= u < k;
        } else {
          assert c in last;
        }
      }
      forall c, u | 0 <= u < k && c in PairsUpTo(m, u, |m|)
        ensures c in AtMostOne(m, k)
      {
        if u < k - 1 {
          assert c in prev;
        } else {
          assert c in last;
        }
      }
      assert forall c :: c in AtMostOne(m, k) ==> exists u :: 0 <= u < k && c in PairsUpTo(m, u, |m|);
      assert forall c :: (exists u :: 0 <= u < k && c in PairsUpTo(m, u, |m|)) ==> c in AtMostOne(m, k);
    }
  }

  /** Every clause of the formula is well formed over the header's
      variables. */
  lemma LiteralsInRange(m: seq<seq<bool>>, numElements: nat)
    requires Fits(m, numElements) && Reduce(m, numElements).Some?
    ensures forall c :: c in Reduce(m, numElements).value.clauses ==> WellFormed(c, |m|)
  {
    AtLeastOneSpec(m, numElements);
    AtMostOneSpec(m, numElements);
    forall c | c in Reduce(m, numElements).value.clauses
      ensures WellFormed(c, |m|)
    {
      if c in AtLeastOne(m, numElements) {
        var u :| 0 <= u < numElements && c == CoverClause(m, u);
        MembersSpec(m, u, 0, |m|);
        assert forall k :: 0 <= k < |c| - 1 ==> c[k] in Members(m, u, 0, |m|);
      } else {
        var u :| 0 <= u < numElements && c in PairsUpTo(m, u, |m|);
        PairsUpToSpec(m, u, |m|);
      }
    }
  }

  // ---------------------------------------------------------------------
  // What the formula means
  // ---------------------------------------------------------------------

  /** Literal l is true under the choice x of sets: l names set l-1 as
      chosen, -l names set l-1 as not chosen, 0 is never true. */
  predicate LiteralHolds(x: seq<bool>, l: int) {
    (0 < l <= |x| && x[l - 1]) || (-|x| <= l < 0 && !x[-l - 1])
  }

  ghost predicate ClauseHolds(x: seq<bool>, c: Clause) {
    exists k :: 0 <= k < |c| && LiteralHolds(x, c[k])
  }

  ghost predicate Satisfies(x: seq<bool>, clauses: seq<Clause>) {
    forall c :: c in clauses ==> ClauseHolds(x, c)
  }

  /** The choice x covers element u exactly once: some chosen set contains
      it, and no two chosen sets do. */
  ghost predicate CoveredOnce(m: seq<seq<bool>>, u: nat, x: seq<bool>)
    requires Fits(m, u + 1) && |x| == |m|
  {
    (exists i :: 0 <= i < |m| && m[i][u] && x[i]) &&
    (forall i, j :: 0 <= i < j < |m| && m[i][u] && m[j][u] ==> !(x[i] && x[j]))
  }

  /** The choice x covers each of the first numElements elements exactly
      once. */
  ghost predicate ExactCover(m: seq<seq<bool>>, numElements: nat, x: seq<bool>)
    requires Fits(m, numElements) && |x| == |m|
  {
    forall u :: 0 <= u < numElements ==> CoveredOnce(m, u, x)
  }

  /** The clause of element u holds exactly when a chosen set contains u. */
  lemma CoverClauseHolds(m: seq<seq<bool>>, u: nat, x: seq<bool>)
    requires Fits(m, u + 1) && |x| == |m|
    ensures ClauseHolds(x, CoverClause(m, u)) <==> exists i :: 0 <= i < |m| && m[i][u] && x[i]
  {
    var ms := Members(m, u, 0, |m|);
    var c := CoverClause(m, u);
    MembersSpec(m, u, 0, |m|);
    if ClauseHolds(x, c) {
      var k :| 0 <= k < |c| && LiteralHolds(x, c[k]);
      assert k < |ms| && c[k] == ms[k] && ms[k] in ms;
      var i := c[k] - 1;
      assert 0 <= i < |m| && m[i][u] && x[i];
    }
    if exists i :: 0 <= i < |m| && m[i][u] && x[i] {
      var i :| 0 <= i < |m| && m[i][u] && x[i];
      assert i + 1 in ms;
      var k :| 0 <= k < |ms| && ms[k] == i + 1;
      assert c[k] == i + 1 && LiteralHolds(x, c[k]);
    }
  }

  /** A pair clause holds exactly when not both of its sets are chosen. */
  lemma PairClauseHolds(x: seq<bool>, i: nat, j: nat)
    requires i < |x| && j < |x|
    ensures ClauseHolds(x, PairClause(i, j)) <==> !(x[i] && x[j])
  {
    var c := PairClause(i, j);
    if !x[i] {
      assert LiteralHolds(x, c[0]);
    } else if !x[j] {
      assert LiteralHolds(x, c[1]);
    }
  }

  /** The reduction is correct: when it produces a formula, a choice of sets
      satisfies it exactly when the choice is an exact cover; when it gives
      up, no choice is an exact cover. */
  lemma ReductionCorrect(m: seq<seq<bool>>, numElements: nat, x: seq<bool>)
    requires Fits(m, numElements) && |x| == |m|
    ensures Reduce(m, numElements).Some? ==> (Satisfies(x, Reduce(m, numElements).value.clauses) <==> ExactCover(m, numElements, x))
    ensures Reduce(m, numElements).None? ==> !ExactCover(m, numElements, x)
  {
    if Uncovered(m, numElements) {
      var u :| 0 <= u < numElements && Members(m, u, 0, |m|) == [];
      assert !CoveredOnce(m, u, x) by {
        MembersSpec(m, u, 0, |m|);
        forall i | 0 <= i < |m| && m[i][u]
          ensures i + 1 in Members(m, u, 0, |m|)
        {
        }
      }
    } else {
      var clauses := Reduce(m, numElements).value.clauses;
      AtLeastOneSpec(m, numElements);
      AtMostOneSpec(m, numElements);
      if Satisfies(x, clauses) {
        forall u | 0 <= u < numElements
          ensures CoveredOnce(m, u, x)
        {
          assert CoverClause(m, u) in clauses;
          CoverClauseHolds(m, u, x);
          PairsUpToSpec(m, u, |m|);
          forall i, j | 0 <= i < j < |m| && m[i][u] && m[j][u]
            ensures !(x[i] && x[j])
          {
            assert PairClause(i, j) in PairsUpTo(m, u, |m|);
            assert PairClause(i, j) in clauses;
            PairClauseHolds(x, i, j);
          }
        }
      }
      if ExactCover(m, numElements, x) {
        forall c | c in clauses
          ensures ClauseHolds(x, c)
        {
          if c in AtLeastOne(m, numElements) {
            var u :| 0 <= u < numElements && c == CoverClause(m, u);
            assert CoveredOnce(m, u, x);
            CoverClauseHolds(m, u, x);
          } else {
            var u :| 0 <= u < numElements && c in PairsUpTo(m, u, |m|);
            PairsUpToSpec(m, u, |m|);
            var i, j :| 0 <= i < |m| && i < j < |m| && m[i][u] && m[j][u] && c == PairClause(i, j);
            assert CoveredOnce(m, u, x);
            PairClauseHolds(x, i, j);
          }
        }
      }
    }
  }

  // ---------------------------------------------------------------------
  // The generator and the clause counter
  // ---------------------------------------------------------------------

  /** `calculateTotalClauses`: one clause per element plus c(c-1)/2 per
      element that lies in c sets. */
  method CalculateTotalClauses(setMatrix: seq<seq<bool>>, numElements: nat, numSets: nat) returns (numClauses: int)
    requires numSets == |setMatrix| && Fits(setMatrix, numElements)
    ensures numClauses == numElements + PairTotal(setMatrix, numElements)
  {
    numClauses := numElements;
    for u := 0 to numElements
      invariant numClauses == numElements + PairTotal(setMatrix, u)
    {
      var setsContainingElement := 0;
      for i := 0 to numSets
        invariant setsContainingElement == |Members(setMatrix, u, 0, i)|
      {
        if setMatrix[i][u] {
          setsContainingElement := setsContainingElement + 1;
        }
      }
      Choose2Closed(setsContainingElement);
      numClauses := numClauses + (setsContainingElement * (setsContainingElement - 1)) / 2;
    }
  }

  lemma {:induction false} Choose2Closed(c: nat)
    ensures Choose2(c) == (c * (c - 1)) / 2
  {
    if c > 0 {
      Choose2Closed(c - 1);
      assert c * (c - 1) == (c - 1) * (c - 2) + 2 * (c - 1);
    }
  }

  /** The per-element term `(c * (c - 1)) / 2` as Java computes it on
      `int`s: the product wraps around, and `/` truncates toward zero. */
  function PairTerm32(c: int32): int {
    var p := Wrap32(c as int * (c as int - 1)) as int;
    if p >= 0 then p / 2 else -((-p) / 2)
  }

  /** While the product fits in an `int`, the term is the number of pairs. */
  lemma PairTerm32Exact(c: int32)
    requires 0 <= c && c as int * (c as int - 1) <= INT_MAX
    ensures PairTerm32(c) == Choose2(c as nat)
  {
    Choose2Closed(c as nat);
  }

  /** An element lying in 46342 sets: the product 46342 * 46341 exceeds
      `Integer.MAX_VALUE`, so the term is negative, although the true number
      of pairs fits in an `int`. The count is then wrong, but only latently:
      writing that many pair clauses overflows the DIMACS text first. */
  lemma PairTerm32Wraps()
    ensures PairTerm32(46342) < 0 < Choose2(46342) <= INT_MAX
  {
    Choose2Closed(46342);
    assert 46342 * 46341 == 2147534622;
    assert Wrap32(2147534622) as int == 2147534622 - 0x1_0000_0000;
  }

  /** `generateDimacsCNF`: the header, then per element the sets containing
      it (giving up with nothing when there are none), then per element every
      pair of its sets. */
  method GenerateDimacsCnf(setMatrix: seq<seq<bool>>, numElements: nat, numSets: nat) returns (r: Option<Dimacs>)
    requires numSets == |setMatrix| && Fits(setMatrix, numElements)
    ensures r == Reduce(setMatrix, numElements)
  {
    var total := CalculateTotalClauses(setMatrix, numElements, numSets);
    var dimacs: seq<Clause> := [];
    for u := 0 to numElements
      invariant dimacs == AtLeastOne(setMatrix, u)
      invariant forall v :: 0 <= v < u ==> Members(setMatrix, v, 0, numSets) != []
    {
      var clause: seq<int> := [];
      var hasLiterals := false;
      for i := 0 to numSets
        invariant clause == Members(setMatrix, u, 0, i) && hasLiterals == (clause != [])
      {
        if setMatrix[i][u] {
          clause := clause + [i + 1];
          hasLiterals := true;
        }
      }
      if hasLiterals {
        dimacs := dimacs + [clause + [0]];
      } else {
        return None;
      }
    }
    ghost var atLeast := dimacs;
    for u := 0 to numElements
      invariant dimacs == atLeast + AtMostOne(setMatrix, u)
    {
      dimacs := AppendPairs(setMatrix, u, numSets, dimacs);
    }
    return Some(Dimacs(numSets, total, dimacs));
  }

  /** The pair loops of one element. */
  method AppendPairs(setMatrix: seq<seq<bool>>, u: nat, numSets: nat, dimacs: seq<Clause>) returns (dimacs': seq<Clause>)
    requires numSets == |setMatrix| && Fits(setMatrix, u + 1)
    ensures dimacs' == dimacs + PairsUpTo(setMatrix, u, numSets)
  {
    dimacs' := dimacs;
    for i := 0 to numSets
      invariant dimacs' == dimacs + PairsUpTo(setMatrix, u, i)
    {
      if setMatrix[i][u] {
        ghost var before := dimacs';
        for j := i + 1 to numSets
          invariant dimacs' == before + PairsWith(setMatrix, u, i, j)
        {
          if setMatrix[j][u] {
            dimacs' := dimacs' + [PairClause(i, j)];
          }
        }
      }
    }
  }

  // ---------------------------------------------------------------------
  // Solving and decoding
  // ---------------------------------------------------------------------

  /** The solver's answer carries no assignment: it is absent, empty, or
      starts with "Parsing error". */
  predicate Unusable(result: Option<string>) {
    result.None? || result.value == [] || "Parsing error" <= result.value
  }

  /** Set i (counted from 0) is named by a positive literal among the
      answer's tokens; a token that is not an integer is `None`. */
  ghost predicate Chosen(literals: seq<Option<int32>>, i: int) {
    exists k :: 0 <= k < |literals| && literals[k].Some? && literals[k].value as int == i + 1
  }

  /** `findExactCover`: no matrix, an empty one, an element in no set or an
      unusable answer gives false and leaves `chosenSets` alone; otherwise
      `chosenSets` is cleared and then marks every set a positive literal
      names, and the answer is true. The solver is not modelled: `result`
      is what it answers for the formula, and `literals` is that answer
      split at white space, each token parsed as an `int` when it is one. */
  method FindExactCover(setMatrix: Option<seq<seq<bool>>>, result: Option<string>, literals: seq<Option<int32>>,
                        chosenSets: array<bool>) returns (found: bool)
    requires setMatrix.Some? && |setMatrix.value| > 0 ==> Fits(setMatrix.value, |setMatrix.value[0]|)
    requires forall k :: 0 <= k < |literals| && literals[k].Some? && literals[k].value > 0 ==>
      literals[k].value as int <= chosenSets.Length
    modifies chosenSets
    ensures found <==> setMatrix.Some? && |setMatrix.value| > 0 &&
                       Reduce(setMatrix.value, |setMatrix.value[0]|).Some? && !Unusable(result)
    ensures !found ==> chosenSets[..] == old(chosenSets[..])
    ensures found ==> forall i :: 0 <= i < chosenSets.Length ==> (chosenSets[i] <==> Chosen(literals, i))
  {
    if setMatrix.None? || |setMatrix.value| == 0 {
      return false;
    }
    var m := setMatrix.value;
    var numSets := |m|;
    var numElements := |m[0]|;
    var dimacsInput := GenerateDimacsCnf(m, numElements, numSets);
    if dimacsInput.None? {
      return false;
    }
    if Unusable(result) {
      return false;
    }
    for i := 0 to chosenSets.Length
      invariant forall i' :: 0 <= i' < i ==> !chosenSets[i']
    {
      chosenSets[i] := false;
    }
    for k := 0 to |literals|
      invariant forall i :: 0 <= i < chosenSets.Length ==> (chosenSets[i] <==> Chosen(literals[..k], i))
    {
      if literals[k].Some? {
        var value := literals[k].value;
        if value != 0 {
          if value > 0 {
            chosenSets[value - 1] := true;
          }
        }
      }
      forall i | 0 <= i < chosenSets.Length
        ensures Chosen(literals[..k + 1], i) <==> Chosen(literals[..k], i) || (literals[k].Some? && literals[k].value as int == i + 1)
      {
        assert literals[..k + 1][k] == literals[k];
        if Chosen(literals[..k + 1], i) {
          var k' :| 0 <= k' < k + 1 && literals[..k + 1][k'].Some? && literals[..k + 1][k'].value as int == i + 1;
          if k' < k {
            assert literals[..k][k'] == literals[..k + 1][k'];
          }
        }
        if Chosen(literals[..k], i) {
          var k' :| 0 <= k' < k && literals[..k][k'].Some? && literals[..k][k'].value as int == i + 1;
          assert literals[..k + 1][k'] == literals[..k][k'];
        }
      }
    }
    assert literals[..|literals|] == literals;
    return true;
  }
}
