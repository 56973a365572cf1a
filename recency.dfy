/**
 * The recency order kept by an access-ordered hash map: the sequence of its
 * keys, least recently used first and most recently used last. Unlinking a
 * key and re-linking it at the most-recently-used end are the only ways the
 * map changes this order.
 */
module Recency {
  /** A cache key (a Java `Long` user id). */
  type Id = int

  /** No key occurs twice: each key has exactly one node in the linked list. */
  predicate Distinct(s: seq<Id>) {
    forall i, j :: 0 <= i < j < |s| ==> s[i] != s[j]
  }

  /** The set of keys in the order. */
  function Elems(s: seq<Id>): set<Id> {
    set x | x in s
  }

  /** The order with every key of `ks` unlinked; the remaining keys keep their relative order. */
  function Drop(s: seq<Id>, ks: set<Id>): (r: seq<Id>)
    ensures forall x :: x in r <==> x in s && x !in ks
    ensures |r| <= |s|
    ensures Distinct(s) ==> Distinct(r)
    ensures (forall i :: 0 <= i < |s| ==> s[i] !in ks) ==> r == s
  {
    if s == [] then []
    else if s[0] in ks then Drop(s[1..], ks)
    else [s[0]] + Drop(s[1..], ks)
  }

  /** The order with the single key `k` unlinked (a no-op when `k` is absent). */
  function Without(s: seq<Id>, k: Id): (r: seq<Id>)
    ensures forall x :: x in r <==> x in s && x != k
    ensures Distinct(s) ==> Distinct(r)
    ensures k !in s ==> r == s
    ensures Distinct(s) && k in s ==> |r| == |s| - 1
  {
    DropSingle(s, k);
    Drop(s, {k})
  }

  /**
   * The order after an access to `k`: `k` is moved (or appended) to the
   * most-recently-used end and every other key keeps its place relative to
   * the others.
   */
  function Touch(s: seq<Id>, k: Id): (r: seq<Id>)
    ensures |r| > 0 && r[|r| - 1] == k
    ensures r[..|r| - 1] == Without(s, k)
    ensures forall x :: x in r <==> x in s || x == k
    ensures Distinct(s) ==> Distinct(r)
    ensures Distinct(s) ==> |r| == if k in s then |s| else |s| + 1
  {
    var r := Without(s, k) + [k];
    assert r[..|r| - 1] == Without(s, k);
    r
  }

  /** The position of `x` in the order: its first occurrence. */
  function IndexOf(s: seq<Id>, x: Id): (i: nat)
    requires x in s
    ensures i < |s| && s[i] == x && x !in s[..i]
  {
    if s[0] == x then 0
    else
      var i := 1 + IndexOf(s[1..], x);
      assert s[..i] == [s[0]] + s[1..][..i - 1];
      i
  }

  /** Unlinking a key that occurs once shortens the order by exactly one. */
  lemma {:induction false} DropSingle(s: seq<Id>, k: Id)
    ensures Distinct(s) && k in s ==> |Drop(s, {k})| == |s| - 1
  {
    if !(Distinct(s) && k in s) {
    } else if s[0] == k {
      assert k !in s[1..] by {
        forall j | 0 <= j < |s| - 1 ensures s[1..][j] != k { assert s[j + 1] != s[0]; }
      }
      assert Drop(s[1..], {k}) == s[1..];
    } else {
      assert k in s[1..];
      DropSingle(s[1..], k);
    }
  }

  /** In a list without repeated keys the number of keys is the length. */
  lemma {:induction false} DistinctCard(s: seq<Id>)
    requires Distinct(s)
    ensures |Elems(s)| == |s|
  {
    if s != [] {
      DistinctCard(s[1..]);
      assert Elems(s) == {s[0]} + Elems(s[1..]);
      assert s[0] !in Elems(s[1..]) by {
        forall j | 0 <= j < |s| - 1 ensures s[1..][j] != s[0] { assert s[j + 1] != s[0]; }
      }
    }
  }

  /**
   * Unlinking keys never reorders the keys that stay: of two surviving keys,
   * the one nearer the least-recently-used end stays nearer to it.
   */
  lemma {:induction false} DropKeepsOrder(s: seq<Id>, ks: set<Id>, x: Id, y: Id)
    requires x in s && y in s && x !in ks && y !in ks
    ensures x in Drop(s, ks) && y in Drop(s, ks)
    ensures IndexOf(Drop(s, ks), x) < IndexOf(Drop(s, ks), y) <==> IndexOf(s, x) < IndexOf(s, y)
  {
    var r := Drop(s, ks);
    if s[0] in ks {
      DropKeepsOrder(s[1..], ks, x, y);
    } else {
      assert r[0] == s[0] && r[1..] == Drop(s[1..], ks);
      if x != s[0] && y != s[0] {
        DropKeepsOrder(s[1..], ks, x, y);
      }
    }
  }

  /** Corollary for a single key: unlinking `k` leaves the other keys in their relative order. */
  lemma WithoutKeepsOrder(s: seq<Id>, k: Id, x: Id, y: Id)
    requires x in s && y in s && x != k && y != k
    ensures x in Without(s, k) && y in Without(s, k)
    ensures IndexOf(Without(s, k), x) < IndexOf(Without(s, k), y) <==> IndexOf(s, x) < IndexOf(s, y)
  {
    DropKeepsOrder(s, {k}, x, y);
  }
}
