/**
  Catalog normalisation, the module-level steps of project1_final.py that run
  once after the CSV is loaded: drop rows whose (track, artist, album) repeats,
  keeping the first; renumber the rows from 0; fill missing text with "";
  turn each track URI into an open.spotify.com link; and add the `m:ss`
  rendering of each duration.

  The table is a pandas DataFrame changed in place step by step, so it is a
  class here (`Frame`) whose methods are those steps; what they compute is
  specified by the functions `KeptPositions`, `Deduplicate` and `Normalized`,
  and the lemmas below state what the steps promise.
*/
module Catalog {
  import opened Wrappers
  import opened Strings

  /**
    One row after the rename and the column selection. A missing text cell
    (NaN) is `None`; `spotifyLink` holds the track URI until the links are
    derived, as the column does in the source.
  */
  datatype Row = Row(
    trackName: Option<string>,
    artistName: Option<string>,
    spotifyLink: string,
    album: Option<string>,
    duration: int)

  /** One row of the normalised table, with the added `formatted_duration` column. */
  datatype Item = Item(
    trackName: string,
    artistName: string,
    spotifyLink: string,
    album: string,
    duration: int,
    formattedDuration: string)

  /** The three columns `drop_duplicates` compares, as loaded (a missing cell equals a missing cell). */
  datatype Key = Key(trackName: Option<string>, artistName: Option<string>, album: Option<string>)

  function KeyOf(r: Row): Key
  {
    Key(r.trackName, r.artistName, r.album)
  }

  // ---------------------------------------------------------------------------
  // De-duplication
  // ---------------------------------------------------------------------------

  /** Row `i` is the first row of the table with its key. */
  predicate IsFirstOccurrence(rows: seq<Row>, i: nat)
    requires i < |rows|
  {
    forall j :: 0 <= j < i ==> KeyOf(rows[j]) != KeyOf(rows[i])
  }

  /** The positions `drop_duplicates(keep='first')` keeps: in range and in table order. */
  function KeptPositions(rows: seq<Row>): (kept: seq<nat>)
    ensures forall j :: 0 <= j < |kept| ==> kept[j] < |rows|
    ensures forall i, j :: 0 <= i < j < |kept| ==> kept[i] < kept[j]
    decreases |rows|
  {
    if |rows| == 0 then []
    else
      var n := |rows| - 1;
      KeptPositions(rows[..n]) + (if IsFirstOccurrence(rows, n) then [n] else [])
  }

  /** The elements of `s` at `positions`, in that order (pandas `iloc`). */
  function Select<T>(s: seq<T>, positions: seq<nat>): (r: seq<T>)
    requires forall j :: 0 <= j < |positions| ==> positions[j] < |s|
    ensures |r| == |positions|
    ensures forall j :: 0 <= j < |r| ==> r[j] == s[positions[j]]
  {
    seq(|positions|, j requires 0 <= j < |positions| => s[positions[j]])
  }

  /** The rows left by `drop_duplicates`. */
  function Deduplicate(rows: seq<Row>): seq<Row>
  {
    Select(rows, KeptPositions(rows))
  }

  /** The keys of all rows. */
  function KeysOf(rows: seq<Row>): set<Key>
  {
    set j | 0 <= j < |rows| :: KeyOf(rows[j])
  }

  /**
    One pass over the rows with the set of keys already seen: a row is kept
    exactly when its key has not been seen before.
  */
  method FirstOccurrenceScan(rows: seq<Row>) returns (kept: seq<nat>)
    ensures kept == KeptPositions(rows)
  {
    var seen: set<Key> := {};
    kept := [];
    var i := 0;
    while i < |rows|
      invariant i <= |rows|
      invariant seen == KeysOf(rows[..i])
      invariant kept == KeptPositions(rows[..i])
    {
      var key := KeyOf(rows[i]);
      var next := rows[..i + 1];
      assert next[..i] == rows[..i];
      assert key in seen <==> !IsFirstOccurrence(next, i) by {
        if key in seen {
          var j :| 0 <= j < i && KeyOf(rows[..i][j]) == key;
          assert KeyOf(next[j]) == KeyOf(next[i]);
        }
      }
      assert KeysOf(next) == KeysOf(rows[..i]) + {key} by {
        assert forall j :: 0 <= j < i ==> next[j] == rows[..i][j];
      }
      if key !in seen {
        kept := kept + [i];
        seen := seen + {key};
      }
      i := i + 1;
    }
    assert rows[..|rows|] == rows;
  }

  /** A row is kept exactly when it is the first row with its key. */
  lemma {:induction false} KeptPositionsAreFirstOccurrences(rows: seq<Row>)
    ensures forall i :: 0 <= i < |rows| ==> (i in KeptPositions(rows) <==> IsFirstOccurrence(rows, i))
    decreases |rows|
  {
    if |rows| > 0 {
      var n := |rows| - 1;
      var prefix := rows[..n];
      KeptPositionsAreFirstOccurrences(prefix);
      var before := KeptPositions(prefix);
      assert KeptPositions(rows) == before + (if IsFirstOccurrence(rows, n) then [n] else []);
      assert n !in before;
      forall i | 0 <= i < n
        ensures IsFirstOccurrence(prefix, i) == IsFirstOccurrence(rows, i)
      {
        assert forall j :: 0 <= j <= i ==> prefix[j] == rows[j];
      }
    }
  }

  /** The first row with the key of row `i`. */
  lemma {:induction false} FirstOccurrenceOf(rows: seq<Row>, i: nat) returns (f: nat)
    requires i < |rows|
    ensures f <= i && IsFirstOccurrence(rows, f) && KeyOf(rows[f]) == KeyOf(rows[i])
    decreases i
  {
    if IsFirstOccurrence(rows, i) {
      f := i;
    } else {
      var j :| 0 <= j < i && KeyOf(rows[j]) == KeyOf(rows[i]);
      f := FirstOccurrenceOf(rows, j);
    }
  }

  /**
    `drop_duplicates` keeps, in their original order, exactly the rows that are
    the first of their key: afterwards no two rows share a key, and no key of
    the loaded table is lost.
  */
  lemma DeduplicateSpec(rows: seq<Row>)
    ensures var d := Deduplicate(rows);
      && (forall i, j :: 0 <= i < j < |d| ==> KeyOf(d[i]) != KeyOf(d[j]))
      && KeysOf(d) == KeysOf(rows)
  {
    var kept, d := KeptPositions(rows), Deduplicate(rows);
    KeptPositionsAreFirstOccurrences(rows);
    forall i, j | 0 <= i < j < |d| ensures KeyOf(d[i]) != KeyOf(d[j]) {
      assert kept[j] in kept;
    }
    forall key | key in KeysOf(rows) ensures key in KeysOf(d) {
      var i :| 0 <= i < |rows| && KeyOf(rows[i]) == key;
      var f := FirstOccurrenceOf(rows, i);
      var p :| 0 <= p < |kept| && kept[p] == f;
      assert KeyOf(d[p]) == key;
    }
  }

  // ---------------------------------------------------------------------------
  // Missing text, links and durations
  // ---------------------------------------------------------------------------

  /** The row's text cells with `fillna("")` applied. */
  function FillRow(r: Row): Row
  {
    r.(trackName := Some(r.trackName.GetOr("")),
       artistName := Some(r.artistName.GetOr("")),
       album := Some(r.album.GetOr("")))
  }

  /** No text cell of the row is missing. */
  predicate Filled(r: Row)
  {
    r.trackName.Some? && r.artistName.Some? && r.album.Some?
  }

  const SpotifyTrackUrl := "https://open.spotify.com/track/"

  /** The link built from a track URI: the base URL followed by the text after the URI's last `:`. */
  function SpotifyLink(uri: string): string
  {
    SpotifyTrackUrl + LastSegment(uri, ':')
  }

  /**
    The link is the base URL followed by a track id that holds no `:`, ends
    the URI, and is either the whole URI or follows a `:` in it.
  */
  lemma SpotifyLinkSpec(uri: string)
    ensures var link := SpotifyLink(uri);
      && |link| >= |SpotifyTrackUrl| && link[..|SpotifyTrackUrl|] == SpotifyTrackUrl
      && var id := link[|SpotifyTrackUrl|..];
      && ':' !in id
      && |id| <= |uri| && uri[|uri| - |id|..] == id
      && (|id| == |uri| || uri[|uri| - |id| - 1] == ':')
      && (':' !in uri ==> id == uri)
  {
    LastSegmentSpec(uri, ':');
    assert SpotifyLink(uri)[|SpotifyTrackUrl|..] == LastSegment(uri, ':');
  }

  /** A URI whose last `:` is followed by `id` links to `id`. */
  lemma SpotifyLinkAfterColon(front: string, id: string)
    requires ':' !in id
    ensures SpotifyLink(front + [':'] + id) == SpotifyTrackUrl + id
  {
    SplitAround(front, id, ':');
    SplitWithoutSep(id, ':');
  }

  lemma SpotifyLinkExample()
    ensures SpotifyLink("spotify:track:abc123") == "https://open.spotify.com/track/abc123"
  {
    assert "spotify:track:abc123" == "spotify:track" + [':'] + "abc123";
    SpotifyLinkAfterColon("spotify:track", "abc123");
  }

  /**
    The `m:ss` rendering of a duration in milliseconds: whole minutes by floor
    division, then the whole seconds left over, padded to two digits.
  */
  function FormatDuration(ms: int): string
  {
    IntToString(ms / 60000) + ":" + TwoDigits((ms % 60000) / 1000)
  }

  /**
    The rendering is minutes, `:`, and two digits of seconds, and reading it
    back gives the duration to the second: seconds is in 0..59 and the
    duration lies within the second the text names. For a non-negative
    duration the minutes are non-negative and the text starts with a digit.
  */
  lemma FormatDurationSpec(ms: int)
    ensures var s := FormatDuration(ms);
      && |s| >= 4 && s[|s| - 3] == ':'
      && IsIntLiteral(s[..|s| - 3]) && AllDigits(s[|s| - 2..])
      && var minutes, seconds := ParseInt(s[..|s| - 3]), ParseNat(s[|s| - 2..]);
      && seconds < 60
      && minutes * 60000 + seconds * 1000 <= ms < minutes * 60000 + seconds * 1000 + 1000
      && (ms >= 0 ==> minutes >= 0 && IsDigit(s[0]))
  {
    var m, sec := ms / 60000, (ms % 60000) / 1000;
    var s := FormatDuration(ms);
    var head := IntToString(m);
    assert s == head + [':'] + TwoDigits(sec);
    assert s[..|s| - 3] == head;
    assert s[|s| - 2..] == TwoDigits(sec);
    IntToStringRoundTrip(m);
    TwoDigitsSpec(sec);
  }

  lemma FormatDurationExamples()
    ensures FormatDuration(225000) == "3:45"
    ensures FormatDuration(59000) == "0:59"
  {
  }

  /** One finished row: text filled, link derived, duration formatted. */
  function Finish(r: Row): Item
  {
    Item(r.trackName.GetOr(""), r.artistName.GetOr(""), SpotifyLink(r.spotifyLink),
         r.album.GetOr(""), r.duration, FormatDuration(r.duration))
  }

  /** The normalised table: the de-duplicated rows, each finished. */
  function Normalized(raw: seq<Row>): seq<Item>
  {
    var d := Deduplicate(raw);
    seq(|d|, j requires 0 <= j < |d| => Finish(d[j]))
  }

  /**
    Row `j` of the normalised table comes from the `j`-th first occurrence of
    the loaded table: its duration is that row's, its text is that row's with
    missing cells read as "", and its link and formatted duration are derived
    from that row's URI and duration.
  */
  lemma NormalizedRows(raw: seq<Row>)
    ensures var table, kept := Normalized(raw), KeptPositions(raw);
      && |table| == |kept|
      && forall j :: 0 <= j < |table| ==>
        && IsFirstOccurrence(raw, kept[j])
        && table[j].trackName == raw[kept[j]].trackName.GetOr("")
        && table[j].artistName == raw[kept[j]].artistName.GetOr("")
        && table[j].album == raw[kept[j]].album.GetOr("")
        && table[j].duration == raw[kept[j]].duration
        && table[j].spotifyLink == SpotifyLink(raw[kept[j]].spotifyLink)
        && table[j].formattedDuration == FormatDuration(raw[kept[j]].duration)
  {
    var kept := KeptPositions(raw);
    KeptPositionsAreFirstOccurrences(raw);
    forall j | 0 <= j < |kept| ensures IsFirstOccurrence(raw, kept[j]) {
      assert kept[j] in kept;
    }
  }

  /** No loaded text cell is the empty string (read_csv reads an empty field as missing). */
  predicate NoEmptyText(raw: seq<Row>)
  {
    forall i :: 0 <= i < |raw| ==>
      raw[i].trackName != Some("") && raw[i].artistName != Some("") && raw[i].album != Some("")
  }

  /**
    When no loaded text cell is the empty string, the filled (track, artist,
    album) triples of the normalised table are pairwise distinct.
  */
  lemma NormalizedTriplesDistinct(raw: seq<Row>)
    requires NoEmptyText(raw)
    ensures var table := Normalized(raw);
      forall i, j :: 0 <= i < j < |table| ==>
        (table[i].trackName, table[i].artistName, table[i].album) != (table[j].trackName, table[j].artistName, table[j].album)
  {
    var d, kept := Deduplicate(raw), KeptPositions(raw);
    DeduplicateSpec(raw);
    forall i, j | 0 <= i < j < |d|
      ensures (d[i].trackName.GetOr(""), d[i].artistName.GetOr(""), d[i].album.GetOr(""))
           != (d[j].trackName.GetOr(""), d[j].artistName.GetOr(""), d[j].album.GetOr(""))
    {
      assert d[i] == raw[kept[i]] && d[j] == raw[kept[j]];
      assert KeyOf(d[i]) != KeyOf(d[j]);
    }
  }

  /**
    De-duplication compares the cells before the fill, so a missing cell and
    an empty one are different keys that the fill then makes equal: both rows
    survive with the same triple.
  */
  lemma FillAfterDeduplicateKeepsBoth()
    ensures var raw := [Row(None, Some("a"), "u", Some("b"), 0), Row(Some(""), Some("a"), "u", Some("b"), 0)];
      var table := Normalized(raw);
      && |table| == 2
      && (table[0].trackName, table[0].artistName, table[0].album) == (table[1].trackName, table[1].artistName, table[1].album)
  {
    var raw := [Row(None, Some("a"), "u", Some("b"), 0), Row(Some(""), Some("a"), "u", Some("b"), 0)];
    assert raw[..1][..0] == [];
    assert IsFirstOccurrence(raw[..1], 0);
    assert raw[..1] == [raw[0]];
    assert IsFirstOccurrence(raw, 1);
    assert KeptPositions(raw) == [0, 1];
  }

  // ---------------------------------------------------------------------------
  // The table, changed in place
  // ---------------------------------------------------------------------------

  /** The positions 0..n-1: pandas' default index. */
  function Range(n: nat): (r: seq<nat>)
    ensures |r| == n && forall i :: 0 <= i < n ==> r[i] == i
  {
    seq(n, i requires 0 <= i < n => i as nat)
  }

  /** The DataFrame the script normalises in place: its rows and its index labels. */
  class Frame {
    var rows: seq<Row>
    var index: seq<nat>

    ghost predicate Valid()
      reads this
    {
      |index| == |rows|
    }

    /** The table as loaded, with the default index. */
    constructor (raw: seq<Row>)
      ensures Valid() && rows == raw && index == Range(|raw|)
    {
      rows := raw;
      index := Range(|raw|);
    }

    /** `drop_duplicates(subset=[track, artist, album], inplace=True)`: index labels stay with their rows. */
    method DropDuplicates()
      requires Valid()
      modifies this
      ensures Valid()
      ensures rows == Deduplicate(old(rows))
      ensures index == Select(old(index), KeptPositions(old(rows)))
    {
      var kept := FirstOccurrenceScan(rows);
      rows, index := Select(rows, kept), Select(index, kept);
    }

    /** `reset_index(drop=True, inplace=True)`: the rows are renumbered 0..n-1. */
    method ResetIndex()
      requires Valid()
      modifies this
      ensures Valid() && rows == old(rows) && index == Range(|rows|)
    {
      index := Range(|rows|);
    }

    /** `fillna("")` on the track, artist and album columns: afterwards no text cell is missing. */
    method FillMissingText()
      requires Valid()
      modifies this
      ensures Valid() && index == old(index)
      ensures rows == seq(|old(rows)|, i requires 0 <= i < |old(rows)| => FillRow(old(rows)[i]))
      ensures forall i :: 0 <= i < |rows| ==> Filled(rows[i])
    {
      var rs := rows;
      rows := seq(|rs|, i requires 0 <= i < |rs| => FillRow(rs[i]));
    }

    /** The URI column replaced by the links derived from it. */
    method ConvertLinks()
      requires Valid()
      modifies this
      ensures Valid() && index == old(index)
      ensures rows == seq(|old(rows)|, i requires 0 <= i < |old(rows)| =>
                            old(rows)[i].(spotifyLink := SpotifyLink(old(rows)[i].spotifyLink)))
    {
      var rs := rows;
      rows := seq(|rs|, i requires 0 <= i < |rs| => rs[i].(spotifyLink := SpotifyLink(rs[i].spotifyLink)));
    }

    /** The rows with the `formatted_duration` column added. */
    function Table(): (table: seq<Item>)
      reads this
      requires forall i :: 0 <= i < |rows| ==> Filled(rows[i])
      ensures |table| == |rows|
      ensures forall i :: 0 <= i < |rows| ==> table[i] == ToItem(rows[i])
    {
      var rs := rows;
      seq(|rs|, i requires 0 <= i < |rs| => ToItem(rs[i]))
    }
  }

  /** The document the TF-IDF vectorizer is fitted on for one row: track name, artist name and album, separated by single spaces. */
  function CombinedText(item: Item): string
  {
    item.trackName + " " + item.artistName + " " + item.album
  }

  /**
    The space-separated pieces of a row's document are those of its track
    name, then of its artist name, then of its album: no piece runs across
    two fields.
  */
  lemma CombinedTextWords(item: Item)
    ensures Split(CombinedText(item), ' ') ==
      Split(item.trackName, ' ') + Split(item.artistName, ' ') + Split(item.album, ' ')
  {
    var t, a, b := item.trackName, item.artistName, item.album;
    SplitAround(t, a, ' ');
    assert t + " " + a == t + [' '] + a;
    assert CombinedText(item) == (t + [' '] + a) + [' '] + b;
    SplitAround(t + [' '] + a, b, ' ');
  }

  /** A filled row with its `formatted_duration` column added. */
  function ToItem(r: Row): Item
    requires Filled(r)
  {
    Item(r.trackName.value, r.artistName.value, r.spotifyLink, r.album.value, r.duration, FormatDuration(r.duration))
  }

  /** The normalisation steps, in the script's order, on a freshly loaded table. */
  method Normalize(raw: seq<Row>) returns (table: seq<Item>)
    ensures table == Normalized(raw)
  {
    var df := new Frame(raw);
    df.DropDuplicates();
    df.ResetIndex();
    df.FillMissingText();
    df.ConvertLinks();
    table := df.Table();
    assert |table| == |Normalized(raw)|;
    assert forall j :: 0 <= j < |table| ==> table[j] == Normalized(raw)[j];
  }
}
