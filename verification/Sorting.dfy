/** What `sort` and `sort_by_key` of the standard library promise: an ascending, stable rearrangement. */
module Sorting {

  ghost predicate TotalPreorder<T(!new)>(leq: (T, T) -> bool) {
    && (forall x, y :: leq(x, y) || leq(y, x))
    && (forall x, y, z :: leq(x, y) && leq(y, z) ==> leq(x, z))
  }

  ghost predicate Antisymmetric<T(!new)>(leq: (T, T) -> bool) {
    forall x, y :: leq(x, y) && leq(y, x) ==> x == y
  }

  ghost predicate Ascending<T>(leq: (T, T) -> bool, s: seq<T>) {
    forall i, j :: 0 <= i < j < |s| ==> leq(s[i], s[j])
  }

  function Insert<T>(leq: (T, T) -> bool, x: T, s: seq<T>): seq<T> {
    if s == [] || leq(x, s[0]) then [x] + s else [s[0]] + Insert(leq, x, s[1..])
  }

  function Sort<T>(leq: (T, T) -> bool, s: seq<T>): seq<T> {
    if s == [] then [] else Insert(leq, s[0], Sort(leq, s[1..]))
  }

  lemma {:induction false} InsertCounts<T>(leq: (T, T) -> bool, x: T, s: seq<T>)
    ensures multiset(Insert(leq, x, s)) == multiset{x} + multiset(s)
    decreases |s|
  {
    if s != [] && !leq(x, s[0]) {
      InsertCounts(leq, x, s[1..]);
      assert s == [s[0]] + s[1..];
    }
  }

  lemma {:induction false} InsertAscending<T(!new)>(leq: (T, T) -> bool, x: T, s: seq<T>)
    requires TotalPreorder(leq) && Ascending(leq, s)
    ensures Ascending(leq, Insert(leq, x, s))
    decreases |s|
  {
    if s != [] && !leq(x, s[0]) {
      InsertAscending(leq, x, s[1..]);
      InsertCounts(leq, x, s[1..]);
      var r := Insert(leq, x, s[1..]);
      forall j | 0 <= j < |r| ensures leq(s[0], r[j]) {
        assert r[j] in multiset(r);
        assert r[j] == x || r[j] in s[1..];
      }
    }
  }

  /** Sorting rearranges, and leaves the result ascending. */
  lemma {:induction false} SortCorrect<T(!new)>(leq: (T, T) -> bool, s: seq<T>)
    requires TotalPreorder(leq)
    ensures multiset(Sort(leq, s)) == multiset(s)
    ensures Ascending(leq, Sort(leq, s))
    decreases |s|
  {
    if s != [] {
      SortCorrect(leq, s[1..]);
      InsertCounts(leq, s[0], Sort(leq, s[1..]));
      InsertAscending(leq, s[0], Sort(leq, s[1..]));
      assert s == [s[0]] + s[1..];
    }
  }

  /** The elements that compare equal to `x`, in their order. */
  function Tied<T>(leq: (T, T) -> bool, x: T, s: seq<T>): seq<T> {
    if s == [] then []
    else (if leq(x, s[0]) && leq(s[0], x) then [s[0]] else []) + Tied(leq, x, s[1..])
  }

  lemma {:induction false} InsertStable<T(!new)>(leq: (T, T) -> bool, x: T, y: T, s: seq<T>)
    requires TotalPreorder(leq)
    ensures Tied(leq, x, Insert(leq, y, s)) == Tied(leq, x, [y] + s)
    decreases |s|
  {
    hide Tied;
    if s != [] && !leq(y, s[0]) {
      InsertStable(leq, x, y, s[1..]);
      assert s == [s[0]] + s[1..];
      TiedFirst(leq, x, s[0], s[1..]);
      TiedFirst(leq, x, y, s);
      TiedFirst(leq, x, y, s[1..]);
      TiedFirst(leq, x, s[0], Insert(leq, y, s[1..]));
    }
  }

  lemma TiedFirst<T>(leq: (T, T) -> bool, x: T, y: T, s: seq<T>)
    ensures Tied(leq, x, [y] + s) == (if leq(x, y) && leq(y, x) then [y] else []) + Tied(leq, x, s)
  {
    assert ([y] + s)[1..] == s;
  }

  /** Elements that compare equal keep their order. */
  lemma {:induction false} SortStable<T(!new)>(leq: (T, T) -> bool, x: T, s: seq<T>)
    requires TotalPreorder(leq)
    ensures Tied(leq, x, Sort(leq, s)) == Tied(leq, x, s)
    decreases |s|
  {
    if s != [] {
      SortStable(leq, x, s[1..]);
      InsertStable(leq, x, s[0], Sort(leq, s[1..]));
      TiedFirst(leq, x, s[0], Sort(leq, s[1..]));
    }
  }

  lemma RestCounts<T>(s: seq<T>)
    requires s != []
    ensures s == [s[0]] + s[1..] && multiset(s[1..]) == multiset(s) - multiset{s[0]}
  {
    assert s == [s[0]] + s[1..];
  }

  lemma FirstIsLeast<T(!new)>(leq: (T, T) -> bool, s: seq<T>, x: T)
    requires TotalPreorder(leq) && Ascending(leq, s) && x in s
    ensures leq(s[0], x)
  {
    var i :| 0 <= i < |s| && s[i] == x;
    assert leq(x, x);
  }

  lemma {:induction false} AscendingUnique<T(!new)>(leq: (T, T) -> bool, s: seq<T>, t: seq<T>)
    requires TotalPreorder(leq) && Antisymmetric(leq)
    requires Ascending(leq, s) && Ascending(leq, t) && multiset(s) == multiset(t)
    ensures s == t
    decreases |s|
  {
    assert |s| == |multiset(s)| == |multiset(t)| == |t|;
    if s != [] {
      assert s[0] in multiset(t) && t[0] in multiset(s);
      FirstIsLeast(leq, s, t[0]);
      FirstIsLeast(leq, t, s[0]);
      assert s[0] == t[0];
      RestCounts(s);
      RestCounts(t);
      AscendingUnique(leq, s[1..], t[1..]);
    }
  }

  /** Under a total order, the sorted list does not depend on the order of the input. */
  lemma SortOrderFree<T(!new)>(leq: (T, T) -> bool, s: seq<T>, t: seq<T>)
    requires TotalPreorder(leq) && Antisymmetric(leq) && multiset(s) == multiset(t)
    ensures Sort(leq, s) == Sort(leq, t)
  {
    SortCorrect(leq, s);
    SortCorrect(leq, t);
    AscendingUnique(leq, Sort(leq, s), Sort(leq, t));
  }
}
