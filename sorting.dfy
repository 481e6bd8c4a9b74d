/** Python's `sorted(...)` over strings and over records keyed by a string,
    `sorted(set(...))`, and the descending order SQL's `ORDER BY ... DESC`
    produces. */
module Sorting {
  import opened Strings

  /** Ascending by `key`, in Python's string order. */
  ghost predicate SortedBy<T>(s: seq<T>, key: T -> string) {
    forall i, j :: 0 <= i < j < |s| ==> LessEq(key(s[i]), key(s[j]))
  }

  /** Descending by `key`. */
  ghost predicate DescendingBy<T>(s: seq<T>, key: T -> string) {
    forall i, j :: 0 <= i < j < |s| ==> LessEq(key(s[j]), key(s[i]))
  }

  /** Strictly ascending strings: sorted and free of duplicates. */
  ghost predicate StrictlySorted(s: seq<string>) {
    forall i, j :: 0 <= i < j < |s| ==> Less(s[i], s[j])
  }

  /** The elements of a list, as a set. */
  function Elems(s: seq<string>): (r: set<string>)
    ensures forall y :: y in r <==> y in s
  {
    set y | y in s
  }

  /** The members of a non-empty list: those before its last element, and
      that element. */
  lemma SnocMembers<T>(s: seq<T>)
    requires s != []
    ensures forall x :: x in s <==> x in s[..|s| - 1] || x == s[|s| - 1]
  {
    assert s == s[..|s| - 1] + [s[|s| - 1]];
  }

  /** Inserts `x` before the first element whose key is not smaller, which
      keeps equal keys in their original order. */
  function InsertBy<T>(x: T, s: seq<T>, key: T -> string): (r: seq<T>)
    ensures multiset(r) == multiset(s) + multiset{x}
    ensures SortedBy(s, key) ==> SortedBy(r, key)
  {
    if s == [] then [x]
    else if LessEq(key(x), key(s[0])) then
      InsertFrontSorted(x, s, key);
      [x] + s
    else
      var tail := InsertBy(x, s[1..], key);
      InsertBehindSorted(x, s, tail, key);
      [s[0]] + tail
  }

  /** An element no greater than the head may go in front. */
  lemma InsertFrontSorted<T>(x: T, s: seq<T>, key: T -> string)
    requires s != [] && LessEq(key(x), key(s[0]))
    ensures SortedBy(s, key) ==> SortedBy([x] + s, key)
  {
    var r := [x] + s;
    if SortedBy(s, key) {
      forall j | 0 < j < |r| ensures LessEq(key(x), key(r[j])) {
        LessEqTransitive(key(x), key(s[0]), key(r[j]));
      }
    }
  }

  /** An element greater than the head goes into the sorted tail, and the
      head stays in front of everything. */
  lemma InsertBehindSorted<T>(x: T, s: seq<T>, tail: seq<T>, key: T -> string)
    requires s != [] && !LessEq(key(x), key(s[0]))
    requires multiset(tail) == multiset(s[1..]) + multiset{x}
    requires SortedBy(s[1..], key) ==> SortedBy(tail, key)
    ensures multiset([s[0]] + tail) == multiset(s) + multiset{x}
    ensures SortedBy(s, key) ==> SortedBy([s[0]] + tail, key)
  {
    assert s == [s[0]] + s[1..];
    var r := [s[0]] + tail;
    if SortedBy(s, key) {
      assert SortedBy(s[1..], key);
      LessTotal(key(x), key(s[0]));
      forall j | 0 < j < |r| ensures LessEq(key(s[0]), key(r[j])) {
        assert r[j] in multiset(tail);
        if r[j] != x {
          assert r[j] in multiset(s[1..]);
          var k :| 0 <= k < |s[1..]| && s[1..][k] == r[j];
          assert s[k + 1] == r[j];
        }
      }
    }
  }

  /** `sorted(s, key=key)`: a stable insertion sort. */
  function SortBy<T>(s: seq<T>, key: T -> string): (r: seq<T>)
    ensures multiset(r) == multiset(s)
    ensures |r| == |s|
    ensures SortedBy(r, key)
  {
    if s == [] then []
    else
      assert s == [s[0]] + s[1..];
      InsertBy(s[0], SortBy(s[1..], key), key)
  }

  lemma SortBySingleton<T>(x: T, key: T -> string)
    ensures SortBy([x], key) == [x]
  {
    assert [x][1..] == [];
  }

  function Identity(x: string): string { x }

  /** `sorted(s)` for a list of strings. */
  function Sort(s: seq<string>): (r: seq<string>)
    ensures multiset(r) == multiset(s)
    ensures |r| == |s|
    ensures forall i, j :: 0 <= i < j < |r| ==> LessEq(r[i], r[j])
  {
    var r := SortBy(s, Identity);
    assert forall i, j :: 0 <= i < j < |r| ==> LessEq(Identity(r[i]), Identity(r[j]));
    r
  }

  /** Sorting a list that is already in order changes nothing. */
  lemma {:induction false} SortBySorted<T>(s: seq<T>, key: T -> string)
    requires SortedBy(s, key)
    ensures SortBy(s, key) == s
  {
    if s != [] {
      assert SortedBy(s[1..], key);
      SortBySorted(s[1..], key);
      if |s| > 1 {
        assert LessEq(key(s[0]), key(s[1]));
      }
    }
  }

  /** Adds `x` to a strictly sorted list unless it is already there. */
  function InsertUnique(x: string, s: seq<string>): (r: seq<string>)
    ensures Elems(r) == Elems(s) + {x}
    ensures StrictlySorted(s) ==> StrictlySorted(r)
  {
    if s == [] then [x]
    else if x == s[0] then s
    else if Less(x, s[0]) then
      UniqueFrontSorted(x, s);
      [x] + s
    else
      var tail := InsertUnique(x, s[1..]);
      UniqueBehindSorted(x, s, tail);
      [s[0]] + tail
  }

  /** An element smaller than the head goes in front. */
  lemma UniqueFrontSorted(x: string, s: seq<string>)
    requires s != [] && Less(x, s[0])
    ensures StrictlySorted(s) ==> StrictlySorted([x] + s)
  {
    var r := [x] + s;
    if StrictlySorted(s) {
      forall j | 0 < j < |r| ensures Less(x, r[j]) {
        if j > 1 { LessTransitive(x, s[0], r[j]); }
      }
    }
  }

  /** An element greater than the head goes into the tail, and the head
      stays smaller than everything behind it. */
  lemma UniqueBehindSorted(x: string, s: seq<string>, tail: seq<string>)
    requires s != [] && x != s[0] && !Less(x, s[0])
    requires Elems(tail) == Elems(s[1..]) + {x}
    requires StrictlySorted(s[1..]) ==> StrictlySorted(tail)
    ensures Elems([s[0]] + tail) == Elems(s) + {x}
    ensures StrictlySorted(s) ==> StrictlySorted([s[0]] + tail)
  {
    assert s == [s[0]] + s[1..];
    assert Elems([s[0]] + tail) == {s[0]} + Elems(tail);
    var r := [s[0]] + tail;
    if StrictlySorted(s) {
      assert StrictlySorted(s[1..]);
      LessTotal(x, s[0]);
      forall j | 0 < j < |r| ensures Less(s[0], r[j]) {
        assert r[j] in tail && r[j] in Elems(tail);
        if r[j] != x {
          assert r[j] in s[1..];
          var k :| 0 <= k < |s[1..]| && s[1..][k] == r[j];
          assert s[k + 1] == r[j];
        }
      }
    }
  }

  /** `sorted(set(s))`: the distinct elements of `s` in ascending order. */
  function SortedSet(s: seq<string>): (r: seq<string>)
    ensures StrictlySorted(r)
    ensures Elems(r) == Elems(s)
  {
    if s == [] then []
    else
      assert s == [s[0]] + s[1..];
      InsertUnique(s[0], SortedSet(s[1..]))
  }

  /** A strictly sorted list is determined by its elements, so
      `sorted(set(s))` is the one increasing enumeration of them. */
  lemma {:induction false} StrictlySortedUnique(a: seq<string>, b: seq<string>)
    requires StrictlySorted(a) && StrictlySorted(b)
    requires Elems(a) == Elems(b)
    ensures a == b
  {
    ElemsEmpty(a);
    ElemsEmpty(b);
    if a != [] && b != [] {
      assert b[0] in Elems(b) && a[0] in Elems(a);
      assert b[0] in a && a[0] in b;
      if a[0] != b[0] {
        var i :| 0 <= i < |a| && a[i] == b[0];
        var j :| 0 <= j < |b| && b[j] == a[0];
        assert i > 0 && j > 0;
        assert Less(a[0], b[0]) && Less(b[0], a[0]);
        LessAsymmetric(a[0], b[0]);
      }
      forall y | y in a[1..] ensures y in b[1..] {
        var i :| 1 <= i < |a| && a[i] == y;
        assert Less(a[0], y);
        LessAsymmetric(a[0], y);
        assert y in Elems(a);
        var j :| 0 <= j < |b| && b[j] == y;
        assert j != 0;
      }
      forall y | y in b[1..] ensures y in a[1..] {
        var j :| 1 <= j < |b| && b[j] == y;
        assert Less(b[0], y);
        LessAsymmetric(b[0], y);
        assert y in Elems(b);
        var i :| 0 <= i < |a| && a[i] == y;
        assert i != 0;
      }
      assert Elems(a[1..]) == Elems(b[1..]);
      StrictlySortedUnique(a[1..], b[1..]);
      assert a == [a[0]] + a[1..] && b == [b[0]] + b[1..];
    }
  }

  lemma ElemsEmpty(s: seq<string>)
    ensures Elems(s) == {} <==> s == []
  {
    if s != [] {
      assert s[0] in Elems(s);
    }
  }

  /** `sorted` of a strictly sorted list is the list itself. */
  lemma SortStrictlySorted(s: seq<string>)
    requires StrictlySorted(s)
    ensures Sort(s) == s
  {
    assert SortedBy(s, Identity);
    SortBySorted(s, Identity);
  }

  function Reverse<T>(s: seq<T>): (r: seq<T>)
    ensures |r| == |s|
    ensures forall k :: 0 <= k < |s| ==> r[k] == s[|s| - 1 - k]
  {
    if s == [] then [] else Reverse(s[1..]) + [s[0]]
  }

  lemma {:induction false} ReverseMultiset<T>(s: seq<T>)
    ensures multiset(Reverse(s)) == multiset(s)
  {
    if s != [] {
      ReverseMultiset(s[1..]);
      assert s == [s[0]] + s[1..];
    }
  }

  /** Ascending order read backwards: descending, with the same elements. */
  function SortDescendingBy<T>(s: seq<T>, key: T -> string): (r: seq<T>)
    ensures multiset(r) == multiset(s)
    ensures DescendingBy(r, key)
  {
    var a := SortBy(s, key);
    ReverseMultiset(a);
    Reverse(a)
  }
}
