/** The catalog of spawnable prefabs and its search filter
    (`EasySpawnerMenu.PrefabStates`, `EasySpawnerPlugin.prefabNames` and
    `RebuildPrefabDropdown`'s recomputation of `isSearched` and
    `SearchItems`). */
module CatalogFilter {
  import opened TextMatch
  import opened Seqs

  /** Per-prefab state, keyed by prefab name. */
  datatype PrefabState = PrefabState(localizedName: string, isFavourite: bool, isSearched: bool)

  type States = map<string, PrefabState>

  /** The catalog: the master list of prefab names in load order, the state
      dictionary, and the order in which that dictionary enumerates its keys. */
  datatype Catalog = Catalog(names: seq<string>, states: States, keyOrder: seq<string>)

  /** Every catalog name has a state (the dictionary lookups never fail). */
  predicate NamesHaveStates(names: seq<string>, states: States) {
    forall i | 0 <= i < |names| :: names[i] in states
  }

  /** The search test: the text occurs, ignoring case, in the prefab name or in
      its non-empty localized name. */
  predicate MatchesSearch(name: string, localizedName: string, text: string) {
    ContainsIgnoreCase(name, text) || (|localizedName| > 0 && ContainsIgnoreCase(localizedName, text))
  }

  /** The per-entry `isSearched` write, performed for every catalog name.
      The source runs it as a parallel loop; each write touches one entry, so
      it is modelled as a sequential pass. */
  function RecomputeSearched(names: seq<string>, states: States, text: string): (r: States)
    requires NamesHaveStates(names, states)
    ensures r.Keys == states.Keys
    ensures forall n | n in states && n in names ::
      r[n] == states[n].(isSearched := MatchesSearch(n, states[n].localizedName, text))
    ensures forall n | n in states && n !in names :: r[n] == states[n]
    decreases |names|
  {
    if |names| == 0 then states
    else
      var n := names[0];
      var next := states[n := states[n].(isSearched := MatchesSearch(n, states[n].localizedName, text))];
      RecomputeSearched(names[1..], next, text)
  }

  /** The result does not depend on the order (or repetition) in which the
      entries are visited, so the parallel loop of the source is safe. */
  lemma RecomputeOrderIrrelevant(names1: seq<string>, names2: seq<string>, states: States, text: string)
    requires NamesHaveStates(names1, states) && NamesHaveStates(names2, states)
    requires forall n :: n in names1 <==> n in names2
    ensures RecomputeSearched(names1, states, text) == RecomputeSearched(names2, states, text)
  {
    var r1, r2 := RecomputeSearched(names1, states, text), RecomputeSearched(names2, states, text);
    assert forall n | n in r1 :: r1[n] == r2[n];
  }

  /** An empty search text selects every catalog entry. */
  lemma EmptySearchMatchesAll(names: seq<string>, states: States)
    requires NamesHaveStates(names, states)
    ensures forall i | 0 <= i < |names| :: RecomputeSearched(names, states, "")[names[i]].isSearched
  {
    forall i | 0 <= i < |names|
      ensures MatchesSearch(names[i], states[names[i]].localizedName, "")
    {
      EmptyNeedleMatches(names[i]);
    }
  }

  predicate SearchedFavourite(states: States, n: string) {
    n in states && states[n].isSearched && states[n].isFavourite
  }

  predicate SearchedOther(states: States, n: string) {
    n in states && states[n].isSearched && !states[n].isFavourite
  }

  /** Whether a catalog name belongs in the result list. */
  predicate Listed(states: States, favouritesOnly: bool, n: string) {
    n in states && states[n].isSearched && (states[n].isFavourite || !favouritesOnly)
  }

  /** `SearchItems`: the searched favourites in catalog order, followed, unless
      only favourites are wanted, by the searched non-favourites in catalog
      order. */
  function BuildSearchItems(names: seq<string>, states: States, favouritesOnly: bool): (r: seq<string>)
    requires NamesHaveStates(names, states)
    ensures forall i | 0 <= i < |r| :: r[i] in states && states[r[i]].isSearched
    ensures forall i, j | 0 <= i < j < |r| :: states[r[j]].isFavourite ==> states[r[i]].isFavourite
    ensures favouritesOnly ==> forall i | 0 <= i < |r| :: states[r[i]].isFavourite
    ensures forall i | 0 <= i < |r| :: r[i] in names
    ensures forall i | 0 <= i < |names| :: Listed(states, favouritesOnly, names[i]) ==> names[i] in r
  {
    var favourites := Filter(names, n => SearchedFavourite(states, n));
    var others := if favouritesOnly then [] else Filter(names, n => SearchedOther(states, n));
    favourites + others
  }

  /** The result splits into a favourites block and a non-favourites block,
      each of which keeps catalog order. */
  lemma SearchItemsOrdered(names: seq<string>, states: States, favouritesOnly: bool)
    requires NamesHaveStates(names, states)
    ensures var r := BuildSearchItems(names, states, favouritesOnly);
      exists k | 0 <= k <= |r| ::
        && (forall i | 0 <= i < k :: states[r[i]].isFavourite)
        && (forall i | k <= i < |r| :: !states[r[i]].isFavourite)
        && IsSubsequence(r[..k], names)
        && IsSubsequence(r[k..], names)
  {
    var fav := n => SearchedFavourite(states, n);
    var oth := n => SearchedOther(states, n);
    var favourites := Filter(names, fav);
    var others: seq<string> := if favouritesOnly then [] else Filter(names, oth);
    var r := favourites + others;
    assert BuildSearchItems(names, states, favouritesOnly) == r;
    var k := |favourites|;
    assert r[..k] == favourites;
    assert r[k..] == others;
    FilterIsSubsequence(names, fav);
    FilterIsSubsequence(names, oth);
    forall i | 0 <= i < k
      ensures states[r[i]].isFavourite
    {
      assert fav(favourites[i]);
    }
    forall i | k <= i < |r|
      ensures !states[r[i]].isFavourite
    {
      assert oth(others[i - k]);
    }
    assert IsSubsequence(r[..k], names) && IsSubsequence(r[k..], names);
  }

  /** Every listed name occurs in the result exactly as often as it does in
      the catalog, and no other name occurs. */
  lemma SearchItemsMultiplicity(names: seq<string>, states: States, favouritesOnly: bool, n: string)
    requires NamesHaveStates(names, states)
    ensures var r := BuildSearchItems(names, states, favouritesOnly);
      multiset(r)[n] == if Listed(states, favouritesOnly, n) then multiset(names)[n] else 0
  {
    var fav := n => SearchedFavourite(states, n);
    var oth := n => SearchedOther(states, n);
    var favourites := Filter(names, fav);
    var others: seq<string> := if favouritesOnly then [] else Filter(names, oth);
    assert BuildSearchItems(names, states, favouritesOnly) == favourites + others;
    FilterMultiplicity(names, fav, n);
    FilterMultiplicity(names, oth, n);
    assert multiset(favourites + others) == multiset(favourites) + multiset(others);
  }

  /** `RebuildPrefabDropdown`'s catalog half: recompute the search flags, then
      rebuild `SearchItems`. */
  function Refilter(c: Catalog, text: string, favouritesOnly: bool): (r: (Catalog, seq<string>))
    requires NamesHaveStates(c.names, c.states)
    ensures r.0.names == c.names && r.0.keyOrder == c.keyOrder
    ensures r.0.states.Keys == c.states.Keys
    ensures NamesHaveStates(r.0.names, r.0.states)
    ensures forall n | n in c.states ::
      && r.0.states[n].localizedName == c.states[n].localizedName
      && r.0.states[n].isFavourite == c.states[n].isFavourite
    ensures forall n | n in c.names ::
      r.0.states[n].isSearched == MatchesSearch(n, c.states[n].localizedName, text)
    ensures forall i | 0 <= i < |r.1| :: r.1[i] in r.0.states
  {
    var states := RecomputeSearched(c.names, c.states, text);
    (c.(states := states), BuildSearchItems(c.names, states, favouritesOnly))
  }

  /** A name is listed after a refilter exactly when it is in the catalog, it
      matches the text, and it is a favourite or all entries are wanted. */
  lemma RefilterListing(c: Catalog, text: string, favouritesOnly: bool, n: string)
    requires NamesHaveStates(c.names, c.states)
    ensures var r := Refilter(c, text, favouritesOnly);
      n in r.1 <==>
        && n in c.names
        && MatchesSearch(n, c.states[n].localizedName, text)
        && (c.states[n].isFavourite || !favouritesOnly)
  {
    var r := Refilter(c, text, favouritesOnly);
    if n in c.names {
      var i :| 0 <= i < |c.names| && c.names[i] == n;
      assert Listed(r.0.states, favouritesOnly, c.names[i]) ==> c.names[i] in r.1;
    }
    if n in r.1 {
      var i :| 0 <= i < |r.1| && r.1[i] == n;
      assert r.1[i] in c.names;
    }
  }

  /** Refiltering twice with the same inputs gives the same catalog and the
      same result list as refiltering once. */
  lemma RefilterIdempotent(c: Catalog, text: string, favouritesOnly: bool)
    requires NamesHaveStates(c.names, c.states)
    ensures var once := Refilter(c, text, favouritesOnly);
      Refilter(once.0, text, favouritesOnly) == once
  {
    var once := Refilter(c, text, favouritesOnly);
    var twice := Refilter(once.0, text, favouritesOnly);
    assert forall n | n in once.0.states :: twice.0.states[n] == once.0.states[n];
    assert twice.0.states == once.0.states;
  }
}
