/**
 * `Array.prototype.sort` with a comparator, modelled as a stable insertion
 * sort: the comparator returns a negative number when its first argument
 * goes first, and elements it calls equal keep their input order.
 */
module Sorting {

  /** The comparator orders every pair and its "goes no later than" is transitive. */
  ghost predicate IsTotalPreorder<T(!new)>(cmp: (T, T) -> int) {
    && (forall a, b :: cmp(a, b) <= 0 || cmp(b, a) <= 0)
    && (forall a, b, c :: cmp(a, b) <= 0 && cmp(b, c) <= 0 ==> cmp(a, c) <= 0)
  }

  ghost predicate SortedBy<T>(s: seq<T>, cmp: (T, T) -> int) {
    forall i, j :: 0 <= i < j < |s| ==> cmp(s[i], s[j]) <= 0
  }

  predicate Distinct<T(==)>(s: seq<T>) {
    forall i, j :: 0 <= i < j < |s| ==> s[i] != s[j]
  }

  /** Puts `x` in front of the first element it does not go after. */
  function Insert<T>(x: T, s: seq<T>, cmp: (T, T) -> int): (r: seq<T>)
    ensures multiset(r) == multiset(s) + multiset{x}
  {
    if s == [] then [x]
    else if cmp(x, s[0]) <= 0 then [x] + s
    else
      assert s == [s[0]] + s[1..];
      [s[0]] + Insert(x, s[1..], cmp)
  }

  function SortBy<T>(s: seq<T>, cmp: (T, T) -> int): seq<T> {
    if s == [] then []
    else
      assert s == [s[0]] + s[1..];
      Insert(s[0], SortBy(s[1..], cmp), cmp)
  }

  /** An element that goes no later than the head of a sorted list can go in front of it. */
  lemma SortedCons<T(!new)>(x: T, s: seq<T>, cmp: (T, T) -> int)
    requires IsTotalPreorder(cmp) && SortedBy(s, cmp)
    requires forall y :: y in s ==> cmp(x, y) <= 0
    ensures SortedBy([x] + s, cmp)
  {
    var r := [x] + s;
    forall i, j | 0 <= i < j < |r| ensures cmp(r[i], r[j]) <= 0 {
      if i == 0 {
        assert r[j] in s;
      } else {
        assert r[i] == s[i - 1] && r[j] == s[j - 1];
      }
    }
  }

  lemma {:induction false} InsertSorted<T(!new)>(x: T, s: seq<T>, cmp: (T, T) -> int)
    requires IsTotalPreorder(cmp) && SortedBy(s, cmp)
    ensures SortedBy(Insert(x, s, cmp), cmp)
  {
    if s == [] {
    } else if cmp(x, s[0]) <= 0 {
      forall y | y in s ensures cmp(x, y) <= 0 {
        var k :| 0 <= k < |s| && s[k] == y;
        assert k == 0 || cmp(s[0], s[k]) <= 0;
      }
      SortedCons(x, s, cmp);
    } else {
      var rest := Insert(x, s[1..], cmp);
      assert SortedBy(s[1..], cmp) by {
        forall i, j | 0 <= i < j < |s[1..]| ensures cmp(s[1..][i], s[1..][j]) <= 0 {
          assert s[1..][i] == s[i + 1] && s[1..][j] == s[j + 1];
        }
      }
      InsertSorted(x, s[1..], cmp);
      forall y | y in rest ensures cmp(s[0], y) <= 0 {
        assert y in multiset(rest);
        if y != x {
          assert y in s[1..];
          var k :| 0 <= k < |s[1..]| && s[1..][k] == y;
          assert s[k + 1] == y;
        }
      }
      SortedCons(s[0], rest, cmp);
    }
  }

  /** The sort's output is a permutation of its input. */
  lemma {:induction false} SortByPermutes<T>(s: seq<T>, cmp: (T, T) -> int)
    ensures multiset(SortBy(s, cmp)) == multiset(s)
  {
    if s != [] {
      SortByPermutes(s[1..], cmp);
      assert s == [s[0]] + s[1..];
    }
  }

  /** The sort's output is ordered by the comparator and is a permutation of its input. */
  lemma {:induction false} SortBySorted<T(!new)>(s: seq<T>, cmp: (T, T) -> int)
    requires IsTotalPreorder(cmp)
    ensures SortedBy(SortBy(s, cmp), cmp)
    ensures multiset(SortBy(s, cmp)) == multiset(s)
  {
    SortByPermutes(s, cmp);
    if s != [] {
      SortBySorted(s[1..], cmp);
      InsertSorted(s[0], SortBy(s[1..], cmp), cmp);
    }
  }

  lemma DistinctCons<T>(x: T, s: seq<T>)
    requires x !in s && Distinct(s)
    ensures Distinct([x] + s)
  {
    var r := [x] + s;
    forall i, j | 0 <= i < j < |r| ensures r[i] != r[j] {
      assert r[j] == s[j - 1];
      if i > 0 {
        assert r[i] == s[i - 1];
      }
    }
  }

  lemma {:induction false} InsertDistinct<T>(x: T, s: seq<T>, cmp: (T, T) -> int)
    requires x !in s && Distinct(s)
    ensures Distinct(Insert(x, s, cmp))
  {
    if s == [] {
    } else if cmp(x, s[0]) <= 0 {
      DistinctCons(x, s);
    } else {
      var rest := Insert(x, s[1..], cmp);
      assert forall k :: 0 <= k < |s[1..]| ==> s[1..][k] == s[k + 1];
      InsertDistinct(x, s[1..], cmp);
      assert s[0] !in rest by {
        assert s[0] !in multiset(s[1..]) + multiset{x};
      }
      DistinctCons(s[0], rest);
    }
  }

  /** Sorting a list without repetitions gives a list without repetitions. */
  lemma {:induction false} SortByDistinct<T>(s: seq<T>, cmp: (T, T) -> int)
    requires Distinct(s)
    ensures Distinct(SortBy(s, cmp))
  {
    if s != [] {
      assert forall k :: 0 <= k < |s[1..]| ==> s[1..][k] == s[k + 1];
      SortByDistinct(s[1..], cmp);
      SortByPermutes(s[1..], cmp);
      assert s[0] !in SortBy(s[1..], cmp) by {
        assert s[0] !in multiset(s[1..]);
      }
      InsertDistinct(s[0], SortBy(s[1..], cmp), cmp);
    }
  }

  /** The comparator ranks `a` level with `p`: neither goes after the other. */
  predicate Level<T>(a: T, p: T, cmp: (T, T) -> int) {
    cmp(a, p) <= 0 && cmp(p, a) <= 0
  }

  /** The elements of `s` the comparator ranks level with `p`, in their order in `s`. */
  function Equivalents<T>(s: seq<T>, p: T, cmp: (T, T) -> int): seq<T> {
    if s == [] then []
    else (if Level(s[0], p, cmp) then [s[0]] else []) + Equivalents(s[1..], p, cmp)
  }

  lemma EquivalentsCons<T>(x: T, s: seq<T>, p: T, cmp: (T, T) -> int)
    ensures Equivalents([x] + s, p, cmp) == (if Level(x, p, cmp) then [x] else []) + Equivalents(s, p, cmp)
  {
    assert ([x] + s)[1..] == s;
  }

  /** Two elements level with `p` are level with each other. */
  lemma LevelTogether<T(!new)>(x: T, y: T, p: T, cmp: (T, T) -> int)
    requires IsTotalPreorder(cmp)
    requires Level(x, p, cmp) && Level(y, p, cmp)
    ensures cmp(x, y) <= 0
  {
  }

  /** Inserting puts `x` in front of every element ranked level with it. */
  lemma {:induction false} InsertEquivalents<T>(x: T, s: seq<T>, p: T, cmp: (T, T) -> int)
    requires forall y :: y in s && Level(x, p, cmp) && Level(y, p, cmp) ==> cmp(x, y) <= 0
    ensures Equivalents(Insert(x, s, cmp), p, cmp) ==
      (if Level(x, p, cmp) then [x] else []) + Equivalents(s, p, cmp)
  {
    if s == [] {
      EquivalentsCons(x, [], p, cmp);
    } else if cmp(x, s[0]) <= 0 {
      EquivalentsCons(x, s, p, cmp);
    } else {
      var rest := Insert(x, s[1..], cmp);
      assert Insert(x, s, cmp) == [s[0]] + rest;
      assert s[0] in s;
      assert forall y :: y in s[1..] ==> y in s;
      InsertEquivalents(x, s[1..], p, cmp);
      var lx := if Level(x, p, cmp) then [x] else [];
      var l0 := if Level(s[0], p, cmp) then [s[0]] else [];
      assert lx == [] || l0 == [];
      calc {
        Equivalents(Insert(x, s, cmp), p, cmp);
        { EquivalentsCons(s[0], rest, p, cmp); }
        l0 + Equivalents(rest, p, cmp);
        l0 + (lx + Equivalents(s[1..], p, cmp));
        { SwapEmpty(l0, lx, Equivalents(s[1..], p, cmp)); }
        lx + (l0 + Equivalents(s[1..], p, cmp));
        lx + Equivalents(s, p, cmp);
      }
    }
  }

  lemma SwapEmpty<T>(a: seq<T>, b: seq<T>, c: seq<T>)
    requires a == [] || b == []
    ensures a + (b + c) == b + (a + c)
  {
    if a == [] {
      assert a + (b + c) == b + c && a + c == c;
    } else {
      assert b + c == c && b + (a + c) == a + c;
    }
  }

  /**
   * The sort is stable: the elements the comparator ranks level with any
   * `p` come out in the order they went in.
   */
  lemma {:induction false} SortByStable<T(!new)>(s: seq<T>, p: T, cmp: (T, T) -> int)
    requires IsTotalPreorder(cmp)
    ensures Equivalents(SortBy(s, cmp), p, cmp) == Equivalents(s, p, cmp)
  {
    if s != [] {
      SortByStable(s[1..], p, cmp);
      forall y | y in SortBy(s[1..], cmp) && Level(s[0], p, cmp) && Level(y, p, cmp) ensures cmp(s[0], y) <= 0 {
        LevelTogether(s[0], y, p, cmp);
      }
      InsertEquivalents(s[0], SortBy(s[1..], cmp), p, cmp);
    }
  }

  /** A list already sorted is left as it is: the sort is stable. */
  lemma {:induction false} SortBySortedIsIdentity<T(!new)>(s: seq<T>, cmp: (T, T) -> int)
    requires SortedBy(s, cmp)
    ensures SortBy(s, cmp) == s
  {
    if s != [] {
      assert SortedBy(s[1..], cmp) by {
        forall i, j | 0 <= i < j < |s[1..]| ensures cmp(s[1..][i], s[1..][j]) <= 0 {
          assert s[1..][i] == s[i + 1] && s[1..][j] == s[j + 1];
        }
      }
      SortBySortedIsIdentity(s[1..], cmp);
      if |s| > 1 {
        assert cmp(s[0], s[1]) <= 0;
      }
      assert [s[0]] + s[1..] == s;
    }
  }

  ghost predicate StrictlySortedBy<T>(s: seq<T>, cmp: (T, T) -> int) {
    forall i, j :: 0 <= i < j < |s| ==> cmp(s[i], s[j]) < 0
  }

  /** No two elements each go strictly before the other. */
  ghost predicate Asymmetric<T(!new)>(cmp: (T, T) -> int) {
    forall x, y :: !(cmp(x, y) < 0 && cmp(y, x) < 0)
  }

  /** The head of a strictly sorted list goes before every other element. */
  lemma HeadFirst<T>(s: seq<T>, x: T, cmp: (T, T) -> int)
    requires StrictlySortedBy(s, cmp) && x in s
    ensures x == s[0] || cmp(s[0], x) < 0
  {
    var m :| 0 <= m < |s| && s[m] == x;
    if m > 0 {
      assert cmp(s[0], s[m]) < 0;
    }
  }

  /** Two strictly sorted lists with the same elements are the same list. */
  lemma {:induction false} StrictlySortedUnique<T(!new)>(a: seq<T>, b: seq<T>, cmp: (T, T) -> int)
    requires Asymmetric(cmp)
    requires StrictlySortedBy(a, cmp) && StrictlySortedBy(b, cmp)
    requires forall x :: x in a <==> x in b
    ensures a == b
  {
    assert |b| == 0 || b[0] in a;
    if a != [] {
      assert a[0] in b;
      SameHeads(a, b, cmp);
      SameTails(a, b, cmp);
      TailStrictlySorted(a, cmp);
      TailStrictlySorted(b, cmp);
      StrictlySortedUnique(a[1..], b[1..], cmp);
      assert a == [a[0]] + a[1..] && b == [b[0]] + b[1..];
    }
  }

  /** Two strictly sorted lists with the same elements start alike. */
  lemma SameHeads<T(!new)>(a: seq<T>, b: seq<T>, cmp: (T, T) -> int)
    requires Asymmetric(cmp)
    requires StrictlySortedBy(a, cmp) && StrictlySortedBy(b, cmp)
    requires forall x :: x in a <==> x in b
    requires a != [] && b != []
    ensures a[0] == b[0]
  {
    assert a[0] in b && b[0] in a;
    HeadFirst(a, b[0], cmp);
    HeadFirst(b, a[0], cmp);
  }

  /** Behind a common head, two strictly sorted lists with the same elements have the same elements. */
  lemma SameTails<T(!new)>(a: seq<T>, b: seq<T>, cmp: (T, T) -> int)
    requires Asymmetric(cmp)
    requires StrictlySortedBy(a, cmp) && StrictlySortedBy(b, cmp)
    requires forall x :: x in a <==> x in b
    requires a != [] && b != [] && a[0] == b[0]
    ensures forall x :: x in a[1..] <==> x in b[1..]
  {
    forall x | x in a[1..] ensures x in b[1..] {
      TailMember(a, b, x, cmp);
    }
    forall x | x in b[1..] ensures x in a[1..] {
      TailMember(b, a, x, cmp);
    }
  }

  lemma TailMember<T(!new)>(a: seq<T>, b: seq<T>, x: T, cmp: (T, T) -> int)
    requires Asymmetric(cmp) && StrictlySortedBy(a, cmp)
    requires forall y :: y in a ==> y in b
    requires a != [] && b != [] && a[0] == b[0]
    requires x in a[1..]
    ensures x in b[1..]
  {
    var i :| 1 <= i < |a| && a[i] == x;
    assert cmp(a[0], a[i]) < 0;
    assert x != a[0];
    assert x in b;
    var j :| 0 <= j < |b| && b[j] == x;
    assert b[1..][j - 1] == x;
  }

  /** Dropping the head keeps a list strictly sorted. */
  lemma TailStrictlySorted<T>(s: seq<T>, cmp: (T, T) -> int)
    requires StrictlySortedBy(s, cmp) && s != []
    ensures StrictlySortedBy(s[1..], cmp)
  {
    forall i, j | 0 <= i < j < |s[1..]| ensures cmp(s[1..][i], s[1..][j]) < 0 {
      assert s[1..][i] == s[i + 1] && s[1..][j] == s[j + 1];
    }
  }
}
