/** Stable sorting by a three-way comparator, as `Array.prototype.sort` is required to be
    (section 23.1.3.30 of ECMA-262, 2023 edition). The comparator returns a negative number,
    zero or a positive number, as JavaScript comparators do.

    `InsertionSorted` is the reference result; `InsertionSort` computes it in place on an
    array. For a comparator that is a total preorder on the elements, the reference result is
    sorted, a permutation of the input and stable, and it is the ONLY sequence with these three
    properties (`StableSortIsUnique`), so it is the result of any conforming `sort`. */
module StableSort {

  /** No element is greater than one after it. */
  predicate SortedBy<T(==)>(s: seq<T>, cmp: (T, T) -> int)
  {
    forall i, j :: 0 <= i < j < |s| ==> cmp(s[i], s[j]) <= 0
  }

  /** `cmp` is consistent and transitive on the elements of `u` (ECMA-262 calls such a
      comparator consistent). Reflexivity follows from the first conjunct. */
  predicate TotalPreorder<T(==)>(u: seq<T>, cmp: (T, T) -> int)
  {
    && (forall x, y {:trigger x in u, y in u} :: x in u && y in u ==> (cmp(x, y) < 0 <==> cmp(y, x) > 0))
    && (forall x, y, z {:trigger x in u, y in u, z in u} ::
          x in u && y in u && z in u && cmp(x, y) <= 0 && cmp(y, z) <= 0 ==> cmp(x, z) <= 0)
  }

  /** Every element of `s` is an element of `u`. */
  predicate Within<T(==)>(s: seq<T>, u: seq<T>)
  {
    forall x :: x in s ==> x in u
  }

  /** The elements of `s` that compare equal to `z`, in their order in `s`. */
  function EquivPart<T(==)>(s: seq<T>, z: T, cmp: (T, T) -> int): seq<T>
  {
    if s == [] then []
    else EquivPart(s[..|s| - 1], z, cmp) + (if cmp(s[|s| - 1], z) == 0 then [s[|s| - 1]] else [])
  }

  /** `output` keeps the relative order of every class of equal-comparing elements of `input`. */
  predicate Stable<T(==)>(input: seq<T>, output: seq<T>, cmp: (T, T) -> int)
  {
    forall z :: z in input ==> EquivPart(output, z, cmp) == EquivPart(input, z, cmp)
  }

  /** Where `Insert` puts `x` among `s[..j]`: just after the last of these elements,
      scanning from the right, that is not greater than `x`. */
  function InsertPos<T>(s: seq<T>, x: T, j: nat, cmp: (T, T) -> int): (p: nat)
    requires j <= |s|
    ensures p <= j
  {
    if j == 0 then 0
    else if cmp(s[j - 1], x) > 0 then InsertPos(s, x, j - 1, cmp)
    else j
  }

  /** Inserts `x` into `s` from the right: `x` moves left past every element greater than it. */
  function Insert<T>(s: seq<T>, x: T, cmp: (T, T) -> int): seq<T>
  {
    var p := InsertPos(s, x, |s|, cmp);
    s[..p] + [x] + s[p..]
  }

  /** Insertion sort of `s`, element by element from the left. */
  function InsertionSorted<T>(s: seq<T>, cmp: (T, T) -> int): seq<T>
  {
    if s == [] then []
    else Insert(InsertionSorted(s[..|s| - 1], cmp), s[|s| - 1], cmp)
  }

  /** `InsertPos` only looks at the elements it scans. */
  lemma {:induction false} InsertPosOfPrefix<T>(s: seq<T>, x: T, j: nat, cmp: (T, T) -> int)
    requires j < |s|
    ensures InsertPos(s, x, j, cmp) == InsertPos(s[..|s| - 1], x, j, cmp)
  {
    if j > 0 {
      InsertPosOfPrefix(s, x, j - 1, cmp);
    }
  }

  /** The element-by-element reading of `Insert`. */
  lemma InsertStep<T>(s: seq<T>, x: T, cmp: (T, T) -> int)
    requires s != []
    ensures Insert(s, x, cmp) ==
      if cmp(s[|s| - 1], x) > 0 then Insert(s[..|s| - 1], x, cmp) + [s[|s| - 1]] else s + [x]
  {
    var init := s[..|s| - 1];
    if cmp(s[|s| - 1], x) > 0 {
      InsertPosOfPrefix(s, x, |s| - 1, cmp);
      var p := InsertPos(init, x, |init|, cmp);
      assert init[..p] == s[..p];
      assert s == init + [s[|s| - 1]];
      assert s[p..] == init[p..] + [s[|s| - 1]];
    }
  }

  /** `Insert` adds exactly `x`. */
  lemma InsertPermutes<T>(s: seq<T>, x: T, cmp: (T, T) -> int)
    ensures multiset(Insert(s, x, cmp)) == multiset(s) + multiset{x}
  {
    var p := InsertPos(s, x, |s|, cmp);
    assert s == s[..p] + s[p..];
  }

  /** The reference result is a permutation of its input. */
  lemma {:induction false} InsertionSortedPermutes<T>(s: seq<T>, cmp: (T, T) -> int)
    ensures multiset(InsertionSorted(s, cmp)) == multiset(s)
  {
    if s != [] {
      InsertionSortedPermutes(s[..|s| - 1], cmp);
      InsertPermutes(InsertionSorted(s[..|s| - 1], cmp), s[|s| - 1], cmp);
      assert s == s[..|s| - 1] + [s[|s| - 1]];
    }
  }

  lemma ReflexiveOn<T>(u: seq<T>, cmp: (T, T) -> int, x: T)
    requires TotalPreorder(u, cmp) && x in u
    ensures cmp(x, x) == 0
  {
  }

  /** Appending an element no smaller than any element keeps a sequence sorted. */
  lemma AppendKeepsSorted<T>(t: seq<T>, last: T, cmp: (T, T) -> int)
    requires SortedBy(t, cmp)
    requires forall k :: 0 <= k < |t| ==> cmp(t[k], last) <= 0
    ensures SortedBy(t + [last], cmp)
  {
    forall i, j | 0 <= i < j < |t| + 1
      ensures cmp((t + [last])[i], (t + [last])[j]) <= 0
    {
      assert (t + [last])[i] == t[i];
      if j < |t| {
        assert (t + [last])[j] == t[j];
      }
    }
  }

  lemma {:induction false} InsertKeepsSorted<T>(s: seq<T>, x: T, cmp: (T, T) -> int, u: seq<T>)
    requires TotalPreorder(u, cmp) && Within(s, u) && x in u
    requires SortedBy(s, cmp)
    ensures SortedBy(Insert(s, x, cmp), cmp)
  {
    if s != [] {
      var init, last := s[..|s| - 1], s[|s| - 1];
      assert last in u;
      InsertStep(s, x, cmp);
      if cmp(last, x) > 0 {
        assert Within(init, u);
        InsertKeepsSorted(init, x, cmp, u);
        var t := Insert(init, x, cmp);
        InsertPermutes(init, x, cmp);
        forall k | 0 <= k < |t|
          ensures cmp(t[k], last) <= 0
        {
          var e := t[k];
          assert e in multiset(t);
          if e != x {
            assert e in init;
            var i :| 0 <= i < |init| && init[i] == e;
            assert s[i] == e;
          }
        }
        AppendKeepsSorted(t, last, cmp);
      } else {
        forall k | 0 <= k < |s|
          ensures cmp(s[k], x) <= 0
        {
          if k < |s| - 1 {
            assert cmp(s[k], last) <= 0;
            assert s[k] in u;
          }
        }
        AppendKeepsSorted(s, x, cmp);
      }
    }
  }

  /** The reference result is sorted when `cmp` is a total preorder on the elements. */
  lemma {:induction false} InsertionSortedIsSorted<T>(s: seq<T>, cmp: (T, T) -> int, u: seq<T>)
    requires TotalPreorder(u, cmp) && Within(s, u)
    ensures SortedBy(InsertionSorted(s, cmp), cmp)
  {
    if s != [] {
      var init := s[..|s| - 1];
      assert Within(init, u);
      InsertionSortedIsSorted(init, cmp, u);
      var r := InsertionSorted(init, cmp);
      InsertionSortedPermutes(init, cmp);
      forall e | e in r
        ensures e in u
      {
        assert e in multiset(r);
        assert e in init;
      }
      InsertKeepsSorted(r, s[|s| - 1], cmp, u);
    }
  }

  /** An element greater than `x` is not in the class of `x`. */
  lemma GreaterNotEquivalent<T>(u: seq<T>, cmp: (T, T) -> int, x: T, z: T, y: T)
    requires TotalPreorder(u, cmp) && x in u && z in u && y in u
    requires cmp(y, x) > 0
    ensures !(cmp(x, z) == 0 && cmp(y, z) == 0)
  {
  }

  /** Appending an element extends its class and no other. */
  lemma EquivPartAppend<T>(t: seq<T>, e: T, z: T, cmp: (T, T) -> int)
    ensures EquivPart(t + [e], z, cmp) == EquivPart(t, z, cmp) + (if cmp(e, z) == 0 then [e] else [])
  {
    assert (t + [e])[..|t|] == t;
  }

  /** The step past a greater last element: it keeps its place after `x`, and at most one of
      the two belongs to the class of `z`. */
  lemma InsertEquivPartPast<T>(init: seq<T>, last: T, x: T, z: T, cmp: (T, T) -> int)
    requires !(cmp(x, z) == 0 && cmp(last, z) == 0)
    requires EquivPart(Insert(init, x, cmp), z, cmp) == EquivPart(init, z, cmp) + (if cmp(x, z) == 0 then [x] else [])
    ensures EquivPart(Insert(init, x, cmp) + [last], z, cmp) ==
      EquivPart(init + [last], z, cmp) + (if cmp(x, z) == 0 then [x] else [])
  {
    EquivPartAppend(Insert(init, x, cmp), last, z, cmp);
    EquivPartAppend(init, last, z, cmp);
  }

  /** Inserting `x` appends it to its own class and leaves every other class as it was. */
  lemma {:induction false} InsertEquivPart<T>(s: seq<T>, x: T, z: T, cmp: (T, T) -> int, u: seq<T>)
    requires TotalPreorder(u, cmp) && Within(s, u) && x in u && z in u
    ensures EquivPart(Insert(s, x, cmp), z, cmp) == EquivPart(s, z, cmp) + (if cmp(x, z) == 0 then [x] else [])
  {
    if s == [] {
      assert Insert(s, x, cmp) == [] + [x];
      EquivPartAppend([], x, z, cmp);
    } else {
      var init, last := s[..|s| - 1], s[|s| - 1];
      InsertStep(s, x, cmp);
      if cmp(last, x) > 0 {
        assert Within(init, u);
        assert last in u;
        InsertEquivPart(init, x, z, cmp, u);
        GreaterNotEquivalent(u, cmp, x, z, last);
        InsertEquivPartPast(init, last, x, z, cmp);
        assert init + [last] == s;
      } else {
        EquivPartAppend(s, x, z, cmp);
      }
    }
  }

  /** The reference result is stable when `cmp` is a total preorder on the elements. */
  lemma {:induction false} InsertionSortedIsStable<T>(s: seq<T>, cmp: (T, T) -> int, u: seq<T>)
    requires TotalPreorder(u, cmp) && Within(s, u)
    ensures Stable(s, InsertionSorted(s, cmp), cmp)
  {
    forall z | z in s
      ensures EquivPart(InsertionSorted(s, cmp), z, cmp) == EquivPart(s, z, cmp)
    {
      EquivPartOfSorted(s, z, cmp, u);
    }
  }

  lemma {:induction false} EquivPartOfSorted<T>(s: seq<T>, z: T, cmp: (T, T) -> int, u: seq<T>)
    requires TotalPreorder(u, cmp) && Within(s, u) && z in u
    ensures EquivPart(InsertionSorted(s, cmp), z, cmp) == EquivPart(s, z, cmp)
  {
    if s != [] {
      var init := s[..|s| - 1];
      assert Within(init, u);
      EquivPartOfSorted(init, z, cmp, u);
      var r := InsertionSorted(init, cmp);
      InsertionSortedPermutes(init, cmp);
      forall e | e in r
        ensures e in u
      {
        assert e in multiset(r);
        assert e in init;
      }
      InsertEquivPart(r, s[|s| - 1], z, cmp, u);
    }
  }

  /** Three elements that break transitivity rule out a total preorder. */
  lemma NotPreorderOfCycle<T>(u: seq<T>, cmp: (T, T) -> int, x: T, y: T, z: T)
    requires x in u && y in u && z in u
    requires cmp(x, y) <= 0 && cmp(y, z) <= 0 && cmp(x, z) > 0
    ensures !TotalPreorder(u, cmp)
  {
  }

  /** The last element of a sorted sequence is not less than any of its elements. */
  lemma LastIsGreatest<T>(t: seq<T>, e: T, cmp: (T, T) -> int, u: seq<T>)
    requires TotalPreorder(u, cmp) && Within(t, u)
    requires SortedBy(t, cmp) && e in t
    ensures cmp(e, t[|t| - 1]) <= 0
  {
    var k :| 0 <= k < |t| && t[k] == e;
    if k == |t| - 1 {
      ReflexiveOn(u, cmp, e);
    }
  }

  /** The class of the last element ends with that element. */
  lemma LastOfClass<T>(t: seq<T>, z: T, cmp: (T, T) -> int)
    requires t != [] && cmp(t[|t| - 1], z) == 0
    ensures EquivPart(t, z, cmp) != [] && EquivPart(t, z, cmp)[|EquivPart(t, z, cmp)| - 1] == t[|t| - 1]
  {
  }

  lemma WithinByMultiset<T>(t1: seq<T>, t2: seq<T>, u: seq<T>)
    requires Within(t1, u) && multiset(t1) == multiset(t2)
    ensures Within(t2, u)
  {
    forall e | e in t2
      ensures e in u
    {
      assert e in multiset(t2);
      assert e in t1;
    }
  }

  /** Two sorted arrangements of the same elements end with equivalent elements. */
  lemma LastsEquivalent<T>(t1: seq<T>, t2: seq<T>, cmp: (T, T) -> int, u: seq<T>)
    requires TotalPreorder(u, cmp) && Within(t1, u) && Within(t2, u)
    requires t1 != [] && |t1| == |t2| && multiset(t1) == multiset(t2)
    requires SortedBy(t1, cmp) && SortedBy(t2, cmp)
    ensures cmp(t2[|t2| - 1], t1[|t1| - 1]) == 0 && cmp(t1[|t1| - 1], t1[|t1| - 1]) == 0
  {
    var n := |t1|;
    var m1, m2 := t1[n - 1], t2[n - 1];
    assert m1 in t2 by { assert m1 in multiset(t2); }
    assert m2 in t1 by { assert m2 in multiset(t1); }
    LastIsGreatest(t2, m1, cmp, u);
    LastIsGreatest(t1, m2, cmp, u);
    assert m1 in u && m2 in u;
    ReflexiveOn(u, cmp, m1);
  }

  /** Two sequences that agree on the class of their equivalent last elements end alike. */
  lemma SameLast<T>(t1: seq<T>, t2: seq<T>, cmp: (T, T) -> int)
    requires t1 != [] && |t1| == |t2|
    requires cmp(t2[|t2| - 1], t1[|t1| - 1]) == 0 && cmp(t1[|t1| - 1], t1[|t1| - 1]) == 0
    requires EquivPart(t1, t1[|t1| - 1], cmp) == EquivPart(t2, t1[|t1| - 1], cmp)
    ensures t1[|t1| - 1] == t2[|t2| - 1]
  {
    var m1 := t1[|t1| - 1];
    LastOfClass(t1, m1, cmp);
    LastOfClass(t2, m1, cmp);
  }

  /** Dropping the same last element from two sequences that agree on a class. */
  lemma EquivPartOfInit<T>(t1: seq<T>, t2: seq<T>, z: T, cmp: (T, T) -> int)
    requires t1 != [] && t2 != [] && t1[|t1| - 1] == t2[|t2| - 1]
    requires EquivPart(t1, z, cmp) == EquivPart(t2, z, cmp)
    ensures EquivPart(t1[..|t1| - 1], z, cmp) == EquivPart(t2[..|t2| - 1], z, cmp)
  {
    var tail := if cmp(t1[|t1| - 1], z) == 0 then [t1[|t1| - 1]] else [];
    var a, b := EquivPart(t1[..|t1| - 1], z, cmp), EquivPart(t2[..|t2| - 1], z, cmp);
    assert a + tail == b + tail;
    assert |a| == |b|;
    assert a == (a + tail)[..|a|];
    assert b == (b + tail)[..|b|];
  }

  /** Two sorted arrangements of the same elements that agree on every class have the same
      last element. */
  lemma SameLastOfArrangements<T>(t1: seq<T>, t2: seq<T>, cmp: (T, T) -> int, u: seq<T>)
    requires TotalPreorder(u, cmp) && Within(t1, u) && t1 != []
    requires multiset(t1) == multiset(t2)
    requires SortedBy(t1, cmp) && SortedBy(t2, cmp)
    requires Stable(t1, t2, cmp)
    ensures |t1| == |t2| && t1[|t1| - 1] == t2[|t2| - 1]
  {
    assert |t1| == |multiset(t1)| == |multiset(t2)| == |t2|;
    WithinByMultiset(t1, t2, u);
    LastsEquivalent(t1, t2, cmp, u);
    assert t1[|t1| - 1] in t1;
    SameLast(t1, t2, cmp);
  }

  /** Dropping the same last element from two sequences keeps them agreeing on every class. */
  lemma StableOfInits<T>(t1: seq<T>, t2: seq<T>, cmp: (T, T) -> int)
    requires t1 != [] && t2 != [] && t1[|t1| - 1] == t2[|t2| - 1]
    requires Stable(t1, t2, cmp)
    ensures Stable(t1[..|t1| - 1], t2[..|t2| - 1], cmp)
  {
    var init1 := t1[..|t1| - 1];
    forall z | z in init1
      ensures EquivPart(t2[..|t2| - 1], z, cmp) == EquivPart(init1, z, cmp)
    {
      assert z in t1;
      EquivPartOfInit(t1, t2, z, cmp);
    }
  }

  /** Removing the same last element keeps two multisets equal. */
  lemma MultisetOfInit<T>(t1: seq<T>, t2: seq<T>)
    requires t1 != [] && t2 != [] && t1[|t1| - 1] == t2[|t2| - 1]
    requires multiset(t1) == multiset(t2)
    ensures multiset(t1[..|t1| - 1]) == multiset(t2[..|t2| - 1])
  {
    var x := t1[|t1| - 1];
    var a, b := multiset(t1[..|t1| - 1]), multiset(t2[..|t2| - 1]);
    assert t1 == t1[..|t1| - 1] + [x];
    assert t2 == t2[..|t2| - 1] + [x];
    assert a + multiset{x} == b + multiset{x};
    assert forall e :: a[e] == (a + multiset{x})[e] - multiset{x}[e] == b[e];
  }

  /** Prefixes of sorted sequences are sorted, and prefixes stay within `u`. */
  lemma InitsSorted<T>(t1: seq<T>, t2: seq<T>, cmp: (T, T) -> int, u: seq<T>)
    requires t1 != [] && t2 != [] && Within(t1, u)
    requires SortedBy(t1, cmp) && SortedBy(t2, cmp)
    ensures SortedBy(t1[..|t1| - 1], cmp) && SortedBy(t2[..|t2| - 1], cmp)
    ensures Within(t1[..|t1| - 1], u)
  {
    var init1 := t1[..|t1| - 1];
    forall x | x in init1
      ensures x in u
    {
      assert x in t1;
    }
  }

  /** Two sorted arrangements of the same elements that agree on the order within every class
      are equal. */
  lemma {:induction false} SortedStableUnique<T>(t1: seq<T>, t2: seq<T>, cmp: (T, T) -> int, u: seq<T>)
    requires TotalPreorder(u, cmp) && Within(t1, u)
    requires multiset(t1) == multiset(t2)
    requires SortedBy(t1, cmp) && SortedBy(t2, cmp)
    requires Stable(t1, t2, cmp)
    ensures t1 == t2
    decreases |t1|
  {
    if t1 == [] {
      assert |multiset(t2)| == 0;
    } else {
      SameLastOfArrangements(t1, t2, cmp, u);
      var n := |t1|;
      MultisetOfInit(t1, t2);
      StableOfInits(t1, t2, cmp);
      InitsSorted(t1, t2, cmp, u);
      SortedStableUnique(t1[..n - 1], t2[..n - 1], cmp, u);
      assert t1 == t1[..n - 1] + [t1[n - 1]] && t2 == t2[..n - 1] + [t2[n - 1]];
    }
  }

  /** Any sorted, stable permutation of `s` is the reference result: the outcome of a stable
      sort does not depend on the algorithm that produced it. */
  lemma StableSortIsUnique<T>(s: seq<T>, t: seq<T>, cmp: (T, T) -> int, u: seq<T>)
    requires TotalPreorder(u, cmp) && Within(s, u)
    requires multiset(t) == multiset(s) && SortedBy(t, cmp) && Stable(s, t, cmp)
    ensures t == InsertionSorted(s, cmp)
  {
    var r := InsertionSorted(s, cmp);
    InsertionSortedPermutes(s, cmp);
    InsertionSortedIsSorted(s, cmp, u);
    InsertionSortedIsStable(s, cmp, u);
    forall e | e in t
      ensures e in u && e in s
    {
      assert e in multiset(t);
    }
    assert Stable(t, r, cmp);
    SortedStableUnique(t, r, cmp, u);
  }

  lemma InsertionSortedStep<T>(s: seq<T>, i: nat, cmp: (T, T) -> int)
    requires i < |s|
    ensures InsertionSorted(s[..i + 1], cmp) == Insert(InsertionSorted(s[..i], cmp), s[i], cmp)
  {
    assert s[..i + 1][..i] == s[..i];
  }

  /** The array `InsertAt` leaves: the sorted prefix with `x` put in at `j`. */
  lemma Assemble<T>(b: seq<T>, sorted: seq<T>, x: T, j: nat)
    requires j <= |sorted| < |b|
    requires forall k :: 0 <= k < j ==> b[k] == sorted[k]
    requires b[j] == x
    requires forall k :: j < k <= |sorted| ==> b[k] == sorted[k - 1]
    ensures b[..|sorted| + 1] == sorted[..j] + [x] + sorted[j..]
  {
  }

  /** Moves `a[i]` left past the greater elements of the prefix `a[..i]`. */
  method InsertAt<T>(a: array<T>, i: nat, cmp: (T, T) -> int)
    requires i < a.Length
    modifies a
    ensures a[..i + 1] == Insert(old(a[..i]), old(a[i]), cmp)
    ensures a[i + 1..] == old(a[i + 1..])
  {
    var x := a[i];
    ghost var sorted := a[..i];
    var j := i;
    while j > 0 && cmp(a[j - 1], x) > 0
      invariant 0 <= j <= i
      invariant forall k :: 0 <= k < j ==> a[k] == old(a[k])
      invariant forall k :: j < k <= i ==> a[k] == old(a[k - 1])
      invariant forall k :: i < k < a.Length ==> a[k] == old(a[k])
      invariant InsertPos(sorted, x, i, cmp) == InsertPos(sorted, x, j, cmp)
    {
      a[j] := a[j - 1];
      j := j - 1;
    }
    a[j] := x;
    Assemble(a[..], sorted, x, j);
  }

  /** Sorts `a` in place by insertion, leaving elements that compare equal in their order. */
  method InsertionSort<T>(a: array<T>, cmp: (T, T) -> int)
    modifies a
    ensures a[..] == InsertionSorted(old(a[..]), cmp)
  {
    ghost var s := a[..];
    var i := 0;
    while i < a.Length
      invariant 0 <= i <= a.Length
      invariant a[..i] == InsertionSorted(s[..i], cmp)
      invariant a[i..] == s[i..]
    {
      InsertionSortedStep(s, i, cmp);
      InsertAt(a, i, cmp);
      i := i + 1;
    }
    assert s[..a.Length] == s;
  }
}
