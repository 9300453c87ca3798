/** The recently applied themes: a most-recent-first list of theme names,
    bounded by `MaxRecent`, updated by `MainApp.update_recent`. */
module RecentThemes {
  import opened Lists

  const MaxRecent := 5

  /** The list after applying `name`: any earlier entry for `name` is
      removed, `name` goes to the front, and when the list then holds more
      than `MaxRecent` entries its last one is popped (only one). */
  function UpdatedRecent(recent: seq<string>, name: string): (r: seq<string>)
    ensures |r| > 0 && r[0] == name
    ensures r[1..] <= RemoveFirst(recent, name)
    ensures |r| == if |RemoveFirst(recent, name)| + 1 > MaxRecent
                   then |RemoveFirst(recent, name)|
                   else |RemoveFirst(recent, name)| + 1
  {
    var front := [name] + RemoveFirst(recent, name);
    if |front| > MaxRecent then front[..|front| - 1] else front
  }

  /** After the update `name` occurs exactly once, provided it occurred at
      most once before (a list the application wrote itself never holds a
      name twice). */
  lemma RecentNameOnce(recent: seq<string>, name: string)
    requires multiset(recent)[name] <= 1
    ensures multiset(UpdatedRecent(recent, name))[name] == 1
  {
    var rest := RemoveFirst(recent, name);
    var r := UpdatedRecent(recent, name);
    RemoveFirstMultiset(recent, name);
    assert name !in rest;
    assert name !in r[1..] by {
      assert r[1..] == rest[..|r| - 1];
    }
    assert r == [name] + r[1..];
  }

  /** The entries other than `name` keep their relative order: apart from
      the front, the new list is what was before and after the removed
      occurrence of `name`, possibly without its last element. */
  lemma RecentKeepsOrder(recent: seq<string>, name: string)
    requires name in recent
    ensures var i := IndexOf(recent, name);
            UpdatedRecent(recent, name)[1..] <= recent[..i] + recent[i + 1..]
  {
    RemoveFirstSplit(recent, name);
  }

  /** The bound and the absence of duplicates are preserved. */
  lemma RecentBounded(recent: seq<string>, name: string)
    requires |recent| <= MaxRecent && NoDups(recent)
    ensures |UpdatedRecent(recent, name)| <= MaxRecent
    ensures NoDups(UpdatedRecent(recent, name))
  {
    var rest := RemoveFirst(recent, name);
    var r := UpdatedRecent(recent, name);
    RemoveFirstNoDups(recent, name);
    assert r[1..] == rest[..|r| - 1];
    forall a, b | 0 <= a < b < |r| ensures r[a] != r[b] {
      assert r[b] == rest[b - 1];
      if a > 0 { assert r[a] == rest[a - 1]; }
    }
  }

  /** The trimming is a single `pop`: a list already longer than the bound
      (possible only for a hand-edited file) is not cut down to it. */
  lemma OverlongListIsNotTrimmed()
    ensures |UpdatedRecent(["a", "b", "c", "d", "e", "f", "g"], "h")| == 7
  {
    assert "h" !in ["a", "b", "c", "d", "e", "f", "g"];
  }

  /** The list after applying `names` one after the other. */
  function RecentAfter(recent: seq<string>, names: seq<string>): seq<string>
    decreases |names|
  {
    if names == [] then recent
    else UpdatedRecent(RecentAfter(recent, names[..|names| - 1]), names[|names| - 1])
  }

  /** Any sequence of applications keeps the list bounded and free of
      duplicates. */
  lemma {:induction false} RecentAfterBounded(recent: seq<string>, names: seq<string>)
    requires |recent| <= MaxRecent && NoDups(recent)
    ensures |RecentAfter(recent, names)| <= MaxRecent && NoDups(RecentAfter(recent, names))
  {
    if names != [] {
      RecentAfterBounded(recent, names[..|names| - 1]);
      RecentBounded(RecentAfter(recent, names[..|names| - 1]), names[|names| - 1]);
    }
  }

  /** `s` backwards. */
  function Reversed(s: seq<string>): (r: seq<string>)
    ensures |r| == |s|
  {
    if s == [] then [] else [s[|s| - 1]] + Reversed(s[..|s| - 1])
  }

  /** Applying distinct themes to an empty list leaves the last
      `MaxRecent` of them, most recent first. */
  lemma {:induction false} RecentAfterDistinct(names: seq<string>)
    requires NoDups(names)
    ensures RecentAfter([], names) == Reversed(names)[..Min(|names|, MaxRecent)]
  {
    if names != [] {
      var init, x := names[..|names| - 1], names[|names| - 1];
      assert NoDups(init) by {
        forall a, b | 0 <= a < b < |init| ensures init[a] != init[b] {
          assert init[a] == names[a] && init[b] == names[b];
        }
      }
      RecentAfterDistinct(init);
      var prev := RecentAfter([], init);
      assert x !in Reversed(init) by {
        ReversedMembers(init);
        forall a | 0 <= a < |init| ensures init[a] != x {
          assert init[a] == names[a];
        }
      }
      assert x !in prev;
      assert Reversed(names) == [x] + Reversed(init);
    }
  }

  /** Reversal keeps the elements. */
  lemma {:induction false} ReversedMembers(s: seq<string>)
    ensures forall y :: y in Reversed(s) <==> y in s
  {
    if s != [] {
      ReversedMembers(s[..|s| - 1]);
      assert s == s[..|s| - 1] + [s[|s| - 1]];
    }
  }

  /** Position `k` of the reversal holds the element `k` places from the end. */
  lemma {:induction false} ReversedIndex(s: seq<string>, k: int)
    requires 0 <= k < |s|
    ensures Reversed(s)[k] == s[|s| - 1 - k]
  {
    if k > 0 {
      ReversedIndex(s[..|s| - 1], k - 1);
    }
  }

  /** Applying six distinct themes leaves exactly five entries, the last
      applied first, and the first applied is gone. */
  lemma SixDistinctLeaveFive(names: seq<string>)
    requires |names| == 6 && NoDups(names)
    ensures |RecentAfter([], names)| == 5
    ensures RecentAfter([], names)[0] == names[5]
    ensures names[0] !in RecentAfter([], names)
  {
    RecentAfterDistinct(names);
    var r := RecentAfter([], names);
    forall k | 0 <= k < 5 ensures r[k] != names[0] {
      ReversedIndex(names, k);
    }
    ReversedIndex(names, 0);
  }
}
