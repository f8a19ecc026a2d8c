/**
 * A stable sort by a total preorder: what Stream.sorted() and List.sort(Comparator)
 * guarantee (both are stable merge sorts in the JDK), stated on an insertion sort.
 */
module StableSort {

  /** le(a, b) holds when a may precede b: total and transitive. */
  ghost predicate TotalPreorder<T(!new)>(le: (T, T) -> bool) {
    && (forall a, b :: le(a, b) || le(b, a))
    && (forall a, b, c :: le(a, b) && le(b, c) ==> le(a, c))
  }

  ghost predicate Sorted<T>(s: seq<T>, le: (T, T) -> bool) {
    forall i, j :: 0 <= i < j < |s| ==> le(s[i], s[j])
  }

  /** Puts x before the first element it may precede, so x stays ahead of its equals. */
  function Insert<T(==)>(x: T, s: seq<T>, le: (T, T) -> bool): (r: seq<T>)
    ensures multiset(r) == multiset(s) + multiset{x}
    ensures |r| == |s| + 1
  {
    if s == [] || le(x, s[0]) then [x] + s
    else
      assert s == [s[0]] + s[1..];
      [s[0]] + Insert(x, s[1..], le)
  }

  /** Inserts the elements from last to first, so earlier elements end ahead of later equals. */
  function Sort<T(==)>(s: seq<T>, le: (T, T) -> bool): (r: seq<T>)
    ensures multiset(r) == multiset(s)
    ensures |r| == |s|
  {
    if s == [] then []
    else
      assert s == [s[0]] + s[1..];
      Insert(s[0], Sort(s[1..], le), le)
  }

  /** Two elements come out swapped exactly when the first may not precede the second. */
  lemma SortTwo<T>(a: T, b: T, le: (T, T) -> bool)
    ensures Sort([a, b], le) == if le(a, b) then [a, b] else [b, a]
  {
    assert [a, b][1..] == [b];
    assert Sort([b], le) == [b] by { assert [b][1..] == []; }
    assert [b][1..] == [];
  }

  lemma {:induction false} InsertSorted<T(!new)>(x: T, s: seq<T>, le: (T, T) -> bool)
    requires TotalPreorder(le) && Sorted(s, le)
    ensures Sorted(Insert(x, s, le), le)
    decreases |s|
  {
    if s != [] && !le(x, s[0]) {
      InsertSorted(x, s[1..], le);
      var r := Insert(x, s, le);
      var tail := Insert(x, s[1..], le);
      assert r == [s[0]] + tail;
      forall j | 0 < j < |r| ensures le(s[0], r[j]) {
        assert r[j] in multiset(tail);
        assert r[j] in multiset(s[1..]) + multiset{x};
        if r[j] != x {
          assert r[j] in s[1..];
          var k :| 0 <= k < |s[1..]| && s[1..][k] == r[j];
          assert s[k + 1] == r[j];
        }
      }
    }
  }

  /** The result of Sort is ordered by le. */
  lemma {:induction false} SortSorted<T(!new)>(s: seq<T>, le: (T, T) -> bool)
    requires TotalPreorder(le)
    ensures Sorted(Sort(s, le), le)
    decreases |s|
  {
    if s != [] {
      SortSorted(s[1..], le);
      InsertSorted(s[0], Sort(s[1..], le), le);
    }
  }

  // ---------------------------------------------------------------------------
  // Stability

  /** The elements of s that le ranks equal to e, in their order in s. */
  function Equivalents<T>(s: seq<T>, e: T, le: (T, T) -> bool): seq<T>
    decreases |s|
  {
    if s == [] then []
    else (if le(s[0], e) && le(e, s[0]) then [s[0]] else []) + Equivalents(s[1..], e, le)
  }

  lemma {:induction false} EquivalentsAppend<T>(a: seq<T>, b: seq<T>, e: T, le: (T, T) -> bool)
    ensures Equivalents(a + b, e, le) == Equivalents(a, e, le) + Equivalents(b, e, le)
    decreases |a|
  {
    if a == [] {
      assert a + b == b;
    } else {
      assert (a + b)[1..] == a[1..] + b;
      EquivalentsAppend(a[1..], b, e, le);
    }
  }

  /** x alone if le ranks it equal to e, else nothing. */
  function Equivalent<T>(x: T, e: T, le: (T, T) -> bool): seq<T> {
    if le(x, e) && le(e, x) then [x] else []
  }

  lemma EquivalentsCons<T>(x: T, s: seq<T>, e: T, le: (T, T) -> bool)
    ensures Equivalents([x] + s, e, le) == Equivalent(x, e, le) + Equivalents(s, e, le)
  {
    assert ([x] + s)[1..] == s;
  }

  lemma {:induction false} InsertKeepsEquivalents<T(!new)>(x: T, s: seq<T>, e: T, le: (T, T) -> bool)
    requires TotalPreorder(le)
    ensures Equivalents(Insert(x, s, le), e, le) == Equivalents([x] + s, e, le)
    decreases |s|
  {
    if s != [] && !le(x, s[0]) {
      var ex, e0, rest := Equivalent(x, e, le), Equivalent(s[0], e, le), Equivalents(s[1..], e, le);
      assert Equivalents(Insert(x, s, le), e, le) == e0 + (ex + rest) by {
        assert Insert(x, s, le) == [s[0]] + Insert(x, s[1..], le);
        EquivalentsCons(s[0], Insert(x, s[1..], le), e, le);
        InsertKeepsEquivalents(x, s[1..], e, le);
        EquivalentsCons(x, s[1..], e, le);
      }
      assert Equivalents([x] + s, e, le) == ex + (e0 + rest) by {
        EquivalentsCons(x, s, e, le);
        EquivalentsCons(s[0], s[1..], e, le);
        assert [s[0]] + s[1..] == s;
      }
      // x and s[0] are not both ranked equal to e, since x does not precede s[0]
      var first := s[0];
      assert le(x, e) && le(e, first) ==> le(x, first);
      assert ex == [] || e0 == [];
    }
  }

  /** Stability: elements that le ranks equal keep their relative order. */
  lemma {:induction false} SortIsStable<T(!new)>(s: seq<T>, e: T, le: (T, T) -> bool)
    requires TotalPreorder(le)
    ensures Equivalents(Sort(s, le), e, le) == Equivalents(s, e, le)
    decreases |s|
  {
    if s != [] {
      SortIsStable(s[1..], e, le);
      InsertKeepsEquivalents(s[0], Sort(s[1..], le), e, le);
      EquivalentsAppend([s[0]], Sort(s[1..], le), e, le);
      EquivalentsAppend([s[0]], s[1..], e, le);
      assert [s[0]] + s[1..] == s;
    }
  }
}
