/**
  Sequence facts shared by the cleaning, merging and reporting steps: first
  occurrences, removal of repeated elements (what `drop_duplicates`, the union of
  column labels in `concat` and `value_counts` all do) and order-preserving filters.
 */
module Sequences {

  /** No element occurs twice. */
  predicate NoDuplicates<T(==)>(s: seq<T>) {
    forall i, j :: 0 <= i < j < |s| ==> s[i] != s[j]
  }

  /** The position of the first occurrence of `x` in `s`. */
  function IndexOf<T(==)>(s: seq<T>, x: T): (i: nat)
    requires x in s
    ensures i < |s| && s[i] == x && x !in s[..i]
  {
    if s[0] == x then 0
    else
      var k := IndexOf(s[1..], x);
      assert s[..k + 1] == [s[0]] + s[1..][..k];
      1 + k
  }

  /** A position holding `x` with no `x` before it is the first occurrence. */
  lemma {:induction false} IndexOfUnique<T>(s: seq<T>, x: T, i: nat)
    requires i < |s| && s[i] == x && x !in s[..i]
    ensures IndexOf(s, x) == i
  {
    var k := IndexOf(s, x);
    assert forall j :: 0 <= j < i ==> s[..i][j] == s[j];
    assert forall j :: 0 <= j < k ==> s[..k][j] == s[j];
  }

  /** `s` with every element after its first occurrence removed. */
  function Distinct<T(==)>(s: seq<T>): (d: seq<T>)
    ensures |d| <= |s|
    ensures forall i :: 0 <= i < |d| ==> d[i] in s
  {
    if s == [] then []
    else
      var init, x := s[..|s| - 1], s[|s| - 1];
      assert s == init + [x];
      Distinct(init) + (if x in init then [] else [x])
  }

  /** `Distinct(s)` holds exactly the elements of `s`. */
  lemma {:induction false} DistinctMembers<T>(s: seq<T>)
    ensures forall x :: x in Distinct(s) <==> x in s
  {
    if s != [] {
      var init, x := s[..|s| - 1], s[|s| - 1];
      assert s == init + [x];
      DistinctMembers(init);
    }
  }

  /** No element occurs twice in `Distinct(s)`. */
  lemma {:induction false} DistinctHasNoDuplicates<T>(s: seq<T>)
    ensures NoDuplicates(Distinct(s))
  {
    if s != [] {
      var init, x := s[..|s| - 1], s[|s| - 1];
      DistinctHasNoDuplicates(init);
      var d, d' := Distinct(init), Distinct(s);
      forall i, j | 0 <= i < j < |d'| ensures d'[i] != d'[j] {
        if j >= |d| {
          assert d'[i] == d[i] && d[i] in init;
        }
      }
    }
  }

  /** Distinct keeps the elements in the order of their first occurrence in `s`. */
  lemma {:induction false} DistinctKeepsFirstOccurrenceOrder<T>(s: seq<T>)
    ensures forall i, j :: 0 <= i < j < |Distinct(s)| ==>
              IndexOf(s, Distinct(s)[i]) < IndexOf(s, Distinct(s)[j])
  {
    if s != [] {
      var init, x := s[..|s| - 1], s[|s| - 1];
      assert s == init + [x];
      DistinctKeepsFirstOccurrenceOrder(init);
      var d, d' := Distinct(init), Distinct(s);
      forall y | y in init ensures IndexOf(s, y) == IndexOf(init, y) {
        IndexOfExtend(init, [x], y);
      }
      forall i, j | 0 <= i < j < |d'| ensures IndexOf(s, d'[i]) < IndexOf(s, d'[j]) {
        assert d'[i] == d[i] && d[i] in init;
        if j < |d| {
          assert d'[j] == d[j];
        } else {
          assert x !in init && d'[j] == x;
          assert IndexOf(s, x) == |init| by {
            assert s[..|init|] == init;
          }
        }
      }
    }
  }

  /** The first occurrence of an element of `a` in `a + b` is its first occurrence in `a`. */
  lemma {:induction false} IndexOfExtend<T>(a: seq<T>, b: seq<T>, y: T)
    requires y in a
    ensures IndexOf(a + b, y) == IndexOf(a, y)
  {
    var k, i := IndexOf(a, y), IndexOf(a + b, y);
    assert forall j :: 0 <= j < k ==> (a + b)[j] == a[..k][j];
    assert (a + b)[k] == y;
    assert i <= k ==> (a + b)[i] == a[i];
  }

  /** Appending `x` keeps the elements distinct exactly when they were and `x` is new. */
  lemma {:induction false} NoDuplicatesSnoc<T>(init: seq<T>, x: T)
    ensures NoDuplicates(init + [x]) <==> NoDuplicates(init) && x !in init
  {
    var s := init + [x];
    if NoDuplicates(init) && x !in init {
      forall i, j | 0 <= i < j < |s| ensures s[i] != s[j] {
        if j < |init| { assert s[i] == init[i] && s[j] == init[j]; }
        else { assert s[i] in init; }
      }
    } else if x in init {
      var k := IndexOf(init, x);
      assert s[k] == s[|init|];
    } else {
      var i, j :| 0 <= i < j < |init| && init[i] == init[j];
      assert s[i] == s[j];
    }
  }

  /**
    Nothing is removed exactly when nothing repeats: the count of removed rows
    that cleaning logs is zero iff the rows were already distinct.
   */
  lemma {:induction false} DistinctRemovesNothingIff<T>(s: seq<T>)
    ensures |Distinct(s)| == |s| <==> NoDuplicates(s)
    ensures NoDuplicates(s) ==> Distinct(s) == s
  {
    if s != [] {
      var init, x := s[..|s| - 1], s[|s| - 1];
      assert s == init + [x];
      DistinctRemovesNothingIff(init);
      NoDuplicatesSnoc(init, x);
    }
  }

  /** The elements of `s` that satisfy `keep`, in their order in `s`. */
  function Filter<T>(s: seq<T>, keep: T -> bool): (r: seq<T>)
    ensures |r| <= |s|
    ensures forall i :: 0 <= i < |r| ==> r[i] in s && keep(r[i])
  {
    if s == [] then []
    else
      var init, x := s[..|s| - 1], s[|s| - 1];
      assert s == init + [x];
      Filter(init, keep) + (if keep(x) then [x] else [])
  }

  /** Filtering distributes over concatenation, so the kept elements stay in order. */
  lemma {:induction false} FilterAppend<T>(a: seq<T>, b: seq<T>, keep: T -> bool)
    ensures Filter(a + b, keep) == Filter(a, keep) + Filter(b, keep)
  {
    if b != [] {
      var init, y := b[..|b| - 1], b[|b| - 1];
      assert b == init + [y];
      assert a + b == (a + init) + [y];
      assert (a + b)[..|a + b| - 1] == a + init;
      FilterAppend(a, init, keep);
    } else {
      assert a + b == a;
    }
  }

  /** `Filter` keeps nothing exactly when no element satisfies `keep`. */
  lemma {:induction false} FilterEmpty<T>(s: seq<T>, keep: T -> bool)
    ensures Filter(s, keep) == [] <==> forall i :: 0 <= i < |s| ==> !keep(s[i])
  {
    if s != [] {
      var init, x := s[..|s| - 1], s[|s| - 1];
      FilterEmpty(init, keep);
      assert forall i :: 0 <= i < |init| ==> init[i] == s[i];
    }
  }

  /** Every element that satisfies `keep` is kept as many times as it occurs; no other is kept. */
  lemma {:induction false} FilterCounts<T>(s: seq<T>, keep: T -> bool, x: T)
    ensures multiset(Filter(s, keep))[x] == if keep(x) then multiset(s)[x] else 0
  {
    if s != [] {
      var init, y := s[..|s| - 1], s[|s| - 1];
      assert s == init + [y];
      FilterCounts(init, keep, x);
    }
  }

  /** The positions of the elements of `s` that satisfy `keep`, in increasing order. */
  function KeptPositions<T>(s: seq<T>, keep: T -> bool): seq<nat> {
    if s == [] then []
    else KeptPositions(s[..|s| - 1], keep) + (if keep(s[|s| - 1]) then [|s| - 1] else [])
  }

  /**
    `Filter` selects exactly the elements at the positions that satisfy `keep`,
    in increasing order of position: it keeps every match, nothing else, and
    does not reorder.
   */
  lemma {:induction false} FilterSelectsKeptPositions<T>(s: seq<T>, keep: T -> bool)
    ensures var p := KeptPositions(s, keep);
            && |p| == |Filter(s, keep)|
            && (forall k :: 0 <= k < |p| ==> p[k] < |s| && Filter(s, keep)[k] == s[p[k]])
            && (forall k, l :: 0 <= k < l < |p| ==> p[k] < p[l])
            && (forall i :: 0 <= i < |s| ==> (keep(s[i]) <==> i in p))
  {
    if s != [] {
      var init, x := s[..|s| - 1], s[|s| - 1];
      assert s == init + [x];
      FilterSelectsKeptPositions(init, keep);
      var p0, p := KeptPositions(init, keep), KeptPositions(s, keep);
      var f0, f := Filter(init, keep), Filter(s, keep);
      var tail := if keep(x) then [|init|] else [];
      assert p == p0 + tail && f == f0 + (if keep(x) then [x] else []);
      forall k | 0 <= k < |p| ensures p[k] < |s| && f[k] == s[p[k]] {
        if k < |p0| {
          assert p[k] == p0[k] && f[k] == f0[k] && s[p0[k]] == init[p0[k]];
        }
      }
      forall i | 0 <= i < |s| ensures keep(s[i]) <==> i in p {
        if i < |init| {
          assert s[i] == init[i];
          assert i in p0 <==> i in p;
        } else {
          assert |init| !in p0;
        }
      }
    }
  }
}
