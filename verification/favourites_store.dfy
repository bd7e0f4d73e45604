/** The favourites file: `LoadFavourites` and `SaveFavourites` of the plugin,
    with the file modelled as its sequence of lines (`None` when the file does
    not exist). */
module FavouritesStore {
  import opened Wrappers
  import opened Seqs
  import opened CatalogFilter

  /** The dictionary's key enumeration lists every key exactly once. */
  predicate EnumeratesKeys(keyOrder: seq<string>, states: States) {
    && (forall i | 0 <= i < |keyOrder| :: keyOrder[i] in states)
    && (forall n | n in states :: n in keyOrder)
    && Distinct(keyOrder)
  }

  /** Reading the lines in order: a line naming a known prefab marks it
      favourite; any other line is skipped. */
  function LoadLines(lines: seq<string>, states: States): (r: States)
    ensures r.Keys == states.Keys
    ensures forall n | n in states ::
      r[n] == states[n].(isFavourite := states[n].isFavourite || n in lines)
    decreases |lines|
  {
    if |lines| == 0 then states
    else
      var name := lines[0];
      var next := if name in states then states[name := states[name].(isFavourite := true)] else states;
      LoadLines(lines[1..], next)
  }

  /** `LoadFavourites`: a missing file changes nothing. */
  function LoadFavourites(file: Option<seq<string>>, states: States): (r: States)
    ensures r.Keys == states.Keys
    ensures file.None? ==> r == states
    ensures forall n | n in states ::
      && r[n].localizedName == states[n].localizedName
      && r[n].isSearched == states[n].isSearched
      && (r[n].isFavourite <==> states[n].isFavourite || (file.Some? && n in file.value))
  {
    match file
    case None => states
    case Some(lines) => LoadLines(lines, states)
  }

  /** `SaveFavourites`: the favourite names, one per line, in the dictionary's
      enumeration order. */
  function SaveFavourites(states: States, keyOrder: seq<string>): (lines: seq<string>)
    requires forall i | 0 <= i < |keyOrder| :: keyOrder[i] in states
    ensures forall i | 0 <= i < |lines| :: lines[i] in states && states[lines[i]].isFavourite
    ensures forall i | 0 <= i < |keyOrder| :: states[keyOrder[i]].isFavourite ==> keyOrder[i] in lines
  {
    Filter(keyOrder, n => n in states && states[n].isFavourite)
  }

  /** With a proper key enumeration, the saved file lists each favourite
      exactly once, in enumeration order. */
  lemma SaveListsFavouritesOnce(states: States, keyOrder: seq<string>)
    requires EnumeratesKeys(keyOrder, states)
    ensures var lines := SaveFavourites(states, keyOrder);
      && IsSubsequence(lines, keyOrder)
      && (forall n :: n in lines <==> n in states && states[n].isFavourite)
      && (forall n | n in lines :: multiset(lines)[n] == 1)
  {
    var keep := n => n in states && states[n].isFavourite;
    var lines := SaveFavourites(states, keyOrder);
    FilterIsSubsequence(keyOrder, keep);
    forall n | n in lines
      ensures multiset(lines)[n] == 1
    {
      FilterMultiplicity(keyOrder, keep, n);
      DistinctMultiplicity(keyOrder, n);
    }
  }

  /** Every entry marked not favourite; nothing else changes. */
  function ClearFavourites(states: States): (r: States)
    ensures r.Keys == states.Keys
    ensures forall n | n in states :: r[n] == states[n].(isFavourite := false)
  {
    map n | n in states :: states[n].(isFavourite := false)
  }

  predicate IsLineBreak(c: char) {
    c == '\n' || c == '\r'
  }

  predicate NoLineBreak(s: string) {
    forall i | 0 <= i < |s| :: !IsLineBreak(s[i])
  }

  /** The terminators `WriteLine` may append (`Environment.NewLine`). */
  predicate IsNewLine(nl: string) {
    nl == "\n" || nl == "\r\n"
  }

  /** The file text `SaveFavourites` writes: each line followed by the
      terminator. */
  function WriteText(lines: seq<string>, nl: string): string {
    if |lines| == 0 then [] else lines[0] + nl + WriteText(lines[1..], nl)
  }

  /** One `ReadLine`: the text up to the first line break, and the text after
      that break; `"\r\n"` counts as one break. */
  function TakeLine(t: string): (r: (string, string))
    ensures |t| > 0 ==> |r.1| < |t|
    ensures NoLineBreak(r.0)
    decreases |t|
  {
    if |t| == 0 then ("", "")
    else if t[0] == '\n' then ("", t[1..])
    else if t[0] == '\r' then ("", if |t| > 1 && t[1] == '\n' then t[2..] else t[1..])
    else
      var rest := TakeLine(t[1..]);
      ([t[0]] + rest.0, rest.1)
  }

  /** The lines `LoadFavourites` reads from a file text until end of stream. */
  function ReadLines(t: string): (r: seq<string>)
    ensures forall i | 0 <= i < |r| :: NoLineBreak(r[i])
    decreases |t|
  {
    if |t| == 0 then []
    else
      var first := TakeLine(t);
      [first.0] + ReadLines(first.1)
  }

  /** Reading back a written line that holds no break gives that line and
      leaves the text after it. */
  lemma {:induction false} TakeWrittenLine(k: string, nl: string, rest: string)
    requires NoLineBreak(k) && IsNewLine(nl)
    ensures TakeLine(k + nl + rest) == (k, rest)
    decreases |k|
  {
    if |k| == 0 {
      assert k + nl + rest == nl + rest;
    } else {
      var t := k + nl + rest;
      assert t[0] == k[0] && !IsLineBreak(k[0]);
      assert t[1..] == k[1..] + nl + rest;
      assert NoLineBreak(k[1..]) by {
        forall i | 0 <= i < |k[1..]|
          ensures !IsLineBreak(k[1..][i])
        {
          assert k[1..][i] == k[i + 1];
        }
      }
      TakeWrittenLine(k[1..], nl, rest);
      assert [k[0]] + k[1..] == k;
    }
  }

  /** Written lines without breaks are read back as they were written. */
  lemma {:induction false} ReadWrittenLines(lines: seq<string>, nl: string)
    requires IsNewLine(nl)
    requires forall i | 0 <= i < |lines| :: NoLineBreak(lines[i])
    ensures ReadLines(WriteText(lines, nl)) == lines
    decreases |lines|
  {
    if |lines| > 0 {
      TakeWrittenLine(lines[0], nl, WriteText(lines[1..], nl));
      ReadWrittenLines(lines[1..], nl);
    }
  }

  /** A favourite whose name holds a line break is written on one line but
      read back as two, so it is not a favourite after reloading. */
  lemma LineBreakSplitsName()
    ensures ReadLines(WriteText(["a\nb"], "\n")) == ["a", "b"]
    ensures var states := map["a\nb" := PrefabState("", true, false)];
      var text := WriteText(SaveFavourites(states, ["a\nb"]), "\n");
      LoadFavourites(Some(ReadLines(text)), ClearFavourites(states)) != states
  {
    // the text is the same as that of the two names "a" and "b"
    assert WriteText(["a", "b"], "\n") == "a\nb\n" == WriteText(["a\nb"], "\n");
    ReadWrittenLines(["a", "b"], "\n");
    var states := map["a\nb" := PrefabState("", true, false)];
    assert SaveFavourites(states, ["a\nb"]) == ["a\nb"];
  }

  /** Saving, writing the file, reading it back and loading into a state with
      no favourites reproduces the saved state exactly, provided no prefab
      name holds a line break. */
  lemma SaveThenLoadRoundTrip(states: States, keyOrder: seq<string>, nl: string)
    requires EnumeratesKeys(keyOrder, states) && IsNewLine(nl)
    requires forall n | n in states :: NoLineBreak(n)
    ensures LoadFavourites(Some(ReadLines(WriteText(SaveFavourites(states, keyOrder), nl))), ClearFavourites(states)) == states
  {
    var lines := SaveFavourites(states, keyOrder);
    ReadWrittenLines(lines, nl);
    var r := LoadFavourites(Some(lines), ClearFavourites(states));
    forall n | n in states
      ensures r[n] == states[n]
    {
      if states[n].isFavourite {
        assert n in keyOrder;
        var i :| 0 <= i < |keyOrder| && keyOrder[i] == n;
        assert keyOrder[i] in lines;
      }
    }
  }

  /** Loading is idempotent: reading the same file twice is reading it once. */
  lemma LoadIdempotent(file: Option<seq<string>>, states: States)
    ensures LoadFavourites(file, LoadFavourites(file, states)) == LoadFavourites(file, states)
  {
    var once := LoadFavourites(file, states);
    var twice := LoadFavourites(file, once);
    assert forall n | n in once :: twice[n] == once[n];
  }
}
