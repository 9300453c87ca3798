/** The favourite themes: a list of `{name, category}` records, toggled by
    structural equality, looked up by name, and upgraded on load from the
    old flat list of names. */
module Favorites {
  import opened Lists

  /** One `{"name": ..., "category": ...}` record; equality is Python's dict
      equality on the two fields. */
  datatype Favorite = Favorite(name: string, category: string)

  /** The category older favourites files implicitly meant. */
  const LegacyCategory := "anime"

  /** `toggle_favorite`'s effect on the list: a present entry loses its
      first occurrence, an absent one is appended at the end. */
  function Toggled(favs: seq<Favorite>, e: Favorite): (r: seq<Favorite>)
    ensures e in favs ==> |r| == |favs| - 1 && multiset(r) == multiset(favs) - multiset{e}
    ensures e in favs ==> r == favs[..IndexOf(favs, e)] + favs[IndexOf(favs, e) + 1..]
    ensures e !in favs ==> r == favs + [e]
  {
    if e in favs then
      RemoveFirstMultiset(favs, e);
      RemoveFirstSplit(favs, e);
      RemoveFirst(favs, e)
    else favs + [e]
  }

  /** After a toggle the entry is present exactly when it was absent or
      present more than once. */
  lemma ToggledMembership(favs: seq<Favorite>, e: Favorite)
    ensures e in Toggled(favs, e) <==> multiset(favs)[e] != 1
  {
    var r := Toggled(favs, e);
    if e !in favs {
      assert r[|favs|] == e;
    } else {
      assert multiset(r)[e] == multiset(favs)[e] - 1;
      assert e in r <==> multiset(r)[e] > 0;
    }
  }

  /** Toggling an absent entry twice gives back exactly the original list. */
  lemma ToggleTwiceAbsent(favs: seq<Favorite>, e: Favorite)
    requires e !in favs
    ensures Toggled(Toggled(favs, e), e) == favs
  {
    assert e in favs + [e];
    RemoveFirstAppended(favs, e);
  }

  /** Toggling twice restores membership exactly when the entry does not
      occur twice; in particular it always does on a list without
      duplicates, which is all `toggle_favorite` itself ever produces. */
  lemma ToggleTwiceMembership(favs: seq<Favorite>, e: Favorite)
    ensures (e in Toggled(Toggled(favs, e), e) <==> e in favs) <==> multiset(favs)[e] != 2
  {
    var once := Toggled(favs, e);
    ToggledMembership(favs, e);
    ToggledMembership(once, e);
    if e in favs {
      assert multiset(once)[e] == multiset(favs)[e] - 1;
    } else {
      assert multiset(once) == multiset(favs) + multiset{e} by {
        assert once == favs + [e];
      }
    }
  }

  /** Toggling keeps a list free of duplicates. */
  lemma ToggledNoDups(favs: seq<Favorite>, e: Favorite)
    requires NoDups(favs)
    ensures NoDups(Toggled(favs, e))
  {
    if e in favs {
      RemoveFirstNoDups(favs, e);
    }
  }

  /** A list holding one entry twice, which only a hand-edited file or a
      legacy file naming a theme twice can produce: toggling it twice
      removes the entry altogether. */
  lemma DuplicateToggledTwiceDisappears(e: Favorite)
    ensures e !in Toggled(Toggled([e, e], e), e)
  {
    ToggleTwiceMembership([e, e], e);
    assert multiset([e, e])[e] == 2;
  }

  /** `next((f["category"] for f in favs if f["name"] == name), ...)`: the
      category of the first favourite with that name. */
  function FindCategory(favs: seq<Favorite>, name: string): (r: Option<string>)
    ensures r.None? <==> forall i | 0 <= i < |favs| :: favs[i].name != name
    ensures r.Some? ==> exists i | 0 <= i < |favs| ::
              favs[i].name == name && r.value == favs[i].category &&
              forall j | 0 <= j < i :: favs[j].name != name
  {
    if favs == [] then None
    else if favs[0].name == name then Some(favs[0].category)
    else
      var r := FindCategory(favs[1..], name);
      assert forall i | 1 <= i < |favs| :: favs[i] == favs[1..][i - 1];
      r
  }

  /** The favourites' names, in list order (`[f["name"] for f in favs]`). */
  function Names(favs: seq<Favorite>): (r: seq<string>)
    ensures |r| == |favs|
    ensures forall i | 0 <= i < |favs| :: r[i] == favs[i].name
  {
    if favs == [] then [] else [favs[0].name] + Names(favs[1..])
  }

  /** One element of the favourites file as JSON gives it back: a plain
      name (the old format) or a record. */
  datatype StoredItem = Plain(text: string) | Record(entry: Favorite)

  predicate AllPlain(data: seq<StoredItem>) {
    forall i | 0 <= i < |data| :: data[i].Plain?
  }

  predicate AllRecords(data: seq<StoredItem>) {
    forall i | 0 <= i < |data| :: data[i].Record?
  }

  /** What `save_data` writes for a favourites list. */
  function Stored(favs: seq<Favorite>): (data: seq<StoredItem>)
    ensures |data| == |favs| && AllRecords(data)
  {
    seq(|favs|, i requires 0 <= i < |favs| => Record(favs[i]))
  }

  /** The favourites `load_data` builds from the file's list: a non-empty
      list whose first element is a plain name is upgraded (every name
      becomes a record in `LegacyCategory`); any other list is taken as it
      is. `None` stands for a mixed list, whose Python result holds
      ill-formed records that this model does not represent. */
  function Migrated(data: seq<StoredItem>): (r: Option<seq<Favorite>>)
    ensures r.Some? <==> (if data != [] && data[0].Plain? then AllPlain(data) else AllRecords(data))
    ensures r.Some? && data != [] && data[0].Plain? ==>
              |r.value| == |data| &&
              forall i | 0 <= i < |data| :: r.value[i] == Favorite(data[i].text, LegacyCategory)
    ensures r.Some? && !(data != [] && data[0].Plain?) ==> Stored(r.value) == data
  {
    if data != [] && data[0].Plain? then
      if AllPlain(data) then Some(seq(|data|, i requires 0 <= i < |data| => Favorite(data[i].text, LegacyCategory)))
      else None
    else if AllRecords(data) then
      var favs := seq(|data|, i requires 0 <= i < |data| => data[i].entry);
      assert Stored(favs) == data;
      Some(favs)
    else None
  }

  /** Loading what was saved gives back the same favourites. */
  lemma MigratedStored(favs: seq<Favorite>)
    ensures Migrated(Stored(favs)) == Some(favs)
  {
    var data := Stored(favs);
    if data != [] {
      assert data[0].Record?;
    }
    var r := Migrated(data);
    assert Stored(r.value) == data;
    assert r.value == favs by {
      forall i | 0 <= i < |favs| ensures r.value[i] == favs[i] {
        assert Stored(r.value)[i] == Record(r.value[i]);
        assert data[i] == Record(favs[i]);
      }
    }
  }

  /** An upgraded legacy list keeps the names, in order. */
  lemma MigratedLegacyNames(data: seq<StoredItem>)
    requires data != [] && AllPlain(data)
    ensures Migrated(data).Some?
    ensures Names(Migrated(data).value) == seq(|data|, i requires 0 <= i < |data| => data[i].text)
    ensures forall i | 0 <= i < |data| :: Migrated(data).value[i].category == LegacyCategory
  {
    var names := Names(Migrated(data).value);
    assert forall i | 0 <= i < |data| :: names[i] == data[i].text;
  }

  /** The old file `["cool_theme"]` loads as one anime favourite. */
  lemma LegacyExample()
    ensures Migrated([Plain("cool_theme")]) == Some([Favorite("cool_theme", "anime")])
  {
    var data := [Plain("cool_theme")];
    assert AllPlain(data);
    var r := Migrated(data);
    assert |r.value| == 1 && r.value[0] == Favorite("cool_theme", "anime");
    assert r.value == [Favorite("cool_theme", "anime")];
  }
}
