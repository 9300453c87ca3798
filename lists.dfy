/** Python list operations the application relies on (`in`, `index`,
    `remove`), stated over Dafny sequences, and the Option type used for
    `dict.get` and `next(...)` lookups. */
module Lists {

  datatype Option<T> = None | Some(value: T) {
    function GetOr(default: T): T {
      match this
      case Some(v) => v
      case None => default
    }
  }

  function Min(a: int, b: int): int {
    if a <= b then a else b
  }

  /** No element occurs twice. */
  predicate NoDups<T(==)>(s: seq<T>) {
    forall i, j :: 0 <= i < j < |s| ==> s[i] != s[j]
  }

  /** Python's `list.index(x)`: the position of the first occurrence. */
  function IndexOf<T(==)>(s: seq<T>, x: T): (i: nat)
    requires x in s
    ensures i < |s| && s[i] == x && x !in s[..i]
  {
    if s[0] == x then 0 else 1 + IndexOf(s[1..], x)
  }

  /** Python's `list.remove(x)`: drops the first occurrence of `x`; the
      application only calls it after checking `x in s`, and the absent
      case is kept as the identity. */
  function RemoveFirst<T(==)>(s: seq<T>, x: T): (r: seq<T>)
    ensures x !in s ==> r == s
    ensures |r| == if x in s then |s| - 1 else |s|
  {
    if s == [] then []
    else if s[0] == x then s[1..]
    else [s[0]] + RemoveFirst(s[1..], x)
  }

  /** `remove` cuts out exactly the first occurrence: everything before it
      and everything after it stays, in order. */
  lemma {:induction false} RemoveFirstSplit<T>(s: seq<T>, x: T)
    requires x in s
    ensures RemoveFirst(s, x) == s[..IndexOf(s, x)] + s[IndexOf(s, x) + 1..]
  {
    if s[0] == x {
      assert s[..0] + s[1..] == s[1..];
    } else {
      assert x in s[1..];
      var j := IndexOf(s[1..], x);
      RemoveFirstSplit(s[1..], x);
      assert IndexOf(s, x) == 1 + j;
      assert s[..1 + j] == [s[0]] + s[1..][..j];
      assert s[1..][j + 1..] == s[j + 2..];
    }
  }

  /** `remove` takes away one copy of `x` and nothing else. */
  lemma {:induction false} RemoveFirstMultiset<T>(s: seq<T>, x: T)
    ensures multiset(RemoveFirst(s, x)) == multiset(s) - multiset{x}
  {
    if s != [] {
      assert s == [s[0]] + s[1..];
      if s[0] != x { RemoveFirstMultiset(s[1..], x); }
    }
  }

  /** Removing an element from a list without duplicates removes it
      entirely and keeps the list free of duplicates. */
  lemma RemoveFirstNoDups<T>(s: seq<T>, x: T)
    requires NoDups(s)
    ensures x !in RemoveFirst(s, x)
    ensures NoDups(RemoveFirst(s, x))
  {
    if x in s {
      var i := IndexOf(s, x);
      var r := RemoveFirst(s, x);
      RemoveFirstSplit(s, x);
      assert forall a | 0 <= a < |r| :: r[a] == s[if a < i then a else a + 1];
    }
  }

  /** Removing the element that was just appended gives back the list,
      provided it was absent before. */
  lemma RemoveFirstAppended<T>(s: seq<T>, x: T)
    requires x !in s
    ensures RemoveFirst(s + [x], x) == s
  {
    var t := s + [x];
    assert x in t && t[|s|] == x;
    var i := IndexOf(t, x);
    assert i == |s|;
    RemoveFirstSplit(t, x);
    assert t[..i] == s;
  }
}
