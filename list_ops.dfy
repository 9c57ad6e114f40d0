/**
 * The part of the behaviour of a .NET `List<T>` that the event bus relies on:
 * `Add` appends at the end, and `Remove(x)` looks the item up with `IndexOf`
 * (the first position whose element equals `x`) and, if it is there, deletes
 * that one position, shifting the rest down. For the subscription tokens of
 * the bus, equality is reference identity.
 */
module ListOps {

  /** No element occurs twice. */
  predicate NoDup<T(==)>(s: seq<T>)
  {
    forall i, j :: 0 <= i < j < |s| ==> s[i] != s[j]
  }

  /** `List<T>.IndexOf`: the position of the first occurrence of `x`, or -1. */
  function IndexOf<T(==)>(s: seq<T>, x: T): (i: int)
    ensures -1 <= i < |s|
    ensures i == -1 <==> x !in s
    ensures 0 <= i ==> s[i] == x
    ensures forall j :: 0 <= j < i ==> s[j] != x
  {
    if s == [] then -1
    else if s[0] == x then 0
    else
      var k := IndexOf(s[1..], x);
      assert s == [s[0]] + s[1..];
      if k < 0 then -1 else k + 1
  }

  /** `List<T>.Remove`: delete the first occurrence of `x`, if there is one. */
  function RemoveFirst<T(==)>(s: seq<T>, x: T): (r: seq<T>)
    ensures x !in s ==> r == s
    ensures x in s ==> |r| == |s| - 1
  {
    var i := IndexOf(s, x);
    if i < 0 then s else s[..i] + s[i + 1..]
  }

  /** An independent, element-by-element definition of removing the first occurrence. */
  function DeleteFirst<T(==)>(s: seq<T>, x: T): (r: seq<T>)
  {
    if s == [] then []
    else if s[0] == x then s[1..]
    else [s[0]] + DeleteFirst(s[1..], x)
  }

  /** Removing from a list whose head is not `x` keeps the head and removes
      from the tail. */
  lemma RemoveFirstCons<T>(s: seq<T>, x: T)
    requires s != [] && s[0] != x
    ensures RemoveFirst(s, x) == [s[0]] + RemoveFirst(s[1..], x)
  {
    var t := s[1..];
    var k := IndexOf(t, x);
    if k < 0 {
      assert IndexOf(s, x) == -1;
    } else {
      assert IndexOf(s, x) == k + 1;
      assert s[..k + 1] == [s[0]] + t[..k];
      assert s[k + 2..] == t[k + 1..];
    }
  }

  /** `RemoveFirst` (index lookup, then cut) agrees with the scan `DeleteFirst`. */
  lemma {:induction false} RemoveFirstIsDeleteFirst<T>(s: seq<T>, x: T)
    ensures RemoveFirst(s, x) == DeleteFirst(s, x)
  {
    if s == [] {
    } else if s[0] == x {
      assert IndexOf(s, x) == 0;
      assert s[..0] + s[1..] == s[1..];
    } else {
      RemoveFirstIsDeleteFirst(s[1..], x);
      RemoveFirstCons(s, x);
    }
  }

  /** Removing keeps the relative order of the other elements: what is left is
      a prefix of the list followed by the suffix after one occurrence of `x`. */
  lemma RemoveFirstKeepsOrder<T>(s: seq<T>, x: T)
    requires x in s
    ensures exists i :: 0 <= i < |s| && s[i] == x && x !in s[..i] &&
                        RemoveFirst(s, x) == s[..i] + s[i + 1..]
  {
    var i := IndexOf(s, x);
    assert x !in s[..i];
  }

  /** Removing takes exactly one copy of `x` out of the multiset of elements. */
  lemma RemoveFirstMultiset<T>(s: seq<T>, x: T)
    ensures multiset(RemoveFirst(s, x)) == multiset(s) - multiset{x}
  {
    var i := IndexOf(s, x);
    if i >= 0 {
      assert s == s[..i] + [x] + s[i + 1..];
      assert multiset(s) == multiset(s[..i]) + multiset{x} + multiset(s[i + 1..]);
    } else {
      assert multiset(s)[x] == 0;
    }
  }

  /** Members after a removal: everything that stays was there before, and
      every element other than `x` stays. */
  lemma RemoveFirstMembers<T>(s: seq<T>, x: T)
    ensures forall y :: y in RemoveFirst(s, x) ==> y in s
    ensures forall y :: y != x && y in s ==> y in RemoveFirst(s, x)
  {
    var i := IndexOf(s, x);
    if i >= 0 {
      assert s == s[..i] + [x] + s[i + 1..];
    }
  }

  /** On a list without duplicates, removing `x` leaves no copy of it behind
      and no duplicates. */
  lemma RemoveFirstNoDup<T>(s: seq<T>, x: T)
    requires NoDup(s)
    ensures x !in RemoveFirst(s, x)
    ensures NoDup(RemoveFirst(s, x))
  {
    var r := RemoveFirst(s, x);
    var i := IndexOf(s, x);
    if i >= 0 {
      forall a, b | 0 <= a < b < |r| ensures r[a] != r[b] {
        var a', b' := if a < i then a else a + 1, if b < i then b else b + 1;
        assert r[a] == s[a'] && r[b] == s[b'] && a' < b';
      }
      forall a | 0 <= a < |r| ensures r[a] != x {
        var a' := if a < i then a else a + 1;
        assert r[a] == s[a'] && a' != i;
      }
    }
  }

  /** Removing from a list without duplicates a second time changes nothing. */
  lemma RemoveFirstIdempotent<T>(s: seq<T>, x: T)
    requires NoDup(s)
    ensures RemoveFirst(RemoveFirst(s, x), x) == RemoveFirst(s, x)
  {
    RemoveFirstNoDup(s, x);
  }

  /** Removing an item that was just appended to a list it was not in
      gives back the list: `Add` followed by `Remove` is the identity. */
  lemma AppendThenRemove<T>(s: seq<T>, x: T)
    requires x !in s
    ensures RemoveFirst(s + [x], x) == s
  {
    assert IndexOf(s + [x], x) == |s|;
  }

  /** Appending an item that is not yet in a list without duplicates keeps it
      free of duplicates. */
  lemma AppendFreshNoDup<T>(s: seq<T>, x: T)
    requires NoDup(s) && x !in s
    ensures NoDup(s + [x])
  {
    var r := s + [x];
    forall i, j | 0 <= i < j < |r| ensures r[i] != r[j] {
      if j == |s| {
        assert r[i] == s[i];
      }
    }
  }
}
