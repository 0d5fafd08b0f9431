/**
  `get_recommendations` and the search guard in front of it: the typed text
  is matched against every track, artist and album name by a fuzzy matcher;
  with no match the search ends empty; otherwise a "did you mean" hint names
  the top match when it differs from the text beyond letter case, the match
  texts are joined into one query, every row is scored against the query,
  and the k best rows are returned, best first.

  The fuzzy matcher (rapidfuzz `process.extract(..., limit=5,
  score_cutoff=70)`), the vector scoring (the fitted TF-IDF `transform`
  followed by `cosine_similarity`) and numpy's `argsort` are library code,
  so they are parameters: `extract`, `similarity` and `argsort`.
*/
module Recommender {
  import opened Wrappers
  import opened Strings
  import opened Catalog
  import opened Ranking

  /** One result of `process.extract`: the matched choice, its score and its position among the choices. */
  datatype Match = Match(choice: string, score: int, position: nat)

  /** One returned row: the five columns `get_recommendations` selects, in the order it lists them. */
  datatype Shown = Shown(trackName: string, artistName: string, album: string, formattedDuration: string, spotifyLink: string)

  /** The outcome of `get_recommendations`: nothing close, or the chosen rows with the hint and the query. */
  datatype Recommendation =
    | NoCloseMatches
    | Recommended(hint: Option<string>, query: string, positions: seq<nat>, rows: seq<Shown>)

  /** A table row restricted to the returned columns. */
  function Show(item: Item): Shown
  {
    Shown(item.trackName, item.artistName, item.album, item.formattedDuration, item.spotifyLink)
  }

  /** Every row restricted to the returned columns, in order. */
  function ShowAll(items: seq<Item>): (shown: seq<Shown>)
    ensures |shown| == |items|
    ensures forall j :: 0 <= j < |items| ==> shown[j] == Show(items[j])
  {
    seq(|items|, j requires 0 <= j < |items| => Show(items[j]))
  }

  /** What query resolution decides before any scoring. */
  datatype Resolution = NoMatch | Resolved(hint: Option<string>, query: string)

  /** The choices handed to the matcher: every track name, then every artist name, then every album. */
  function CandidatePool(table: seq<Item>): (pool: seq<string>)
    ensures |pool| == 3 * |table|
    ensures forall p :: 0 <= p < |table| ==> pool[p] == table[p].trackName
    ensures forall p :: |table| <= p < 2 * |table| ==> pool[p] == table[p - |table|].artistName
    ensures forall p :: 2 * |table| <= p < 3 * |table| ==> pool[p] == table[p - 2 * |table|].album
  {
    seq(|table|, i requires 0 <= i < |table| => table[i].trackName)
    + seq(|table|, i requires 0 <= i < |table| => table[i].artistName)
    + seq(|table|, i requires 0 <= i < |table| => table[i].album)
  }

  /** Row `i` contributes the candidates at `i`, `n + i` and `2n + i`, and every name of the table is a candidate. */
  lemma CandidatePoolRows(table: seq<Item>, i: nat)
    requires i < |table|
    ensures var pool, n := CandidatePool(table), |table|;
      && pool[i] == table[i].trackName
      && pool[n + i] == table[i].artistName
      && pool[2 * n + i] == table[i].album
      && table[i].trackName in pool && table[i].artistName in pool && table[i].album in pool
  {
    var pool, n := CandidatePool(table), |table|;
    assert pool[i] == table[i].trackName;
    assert pool[n + i] == table[n + i - n].artistName;
    assert pool[2 * n + i] == table[2 * n + i - 2 * n].album;
  }

  /** The texts of the matches, in the order returned. */
  function Choices(matches: seq<Match>): (texts: seq<string>)
    ensures |texts| == |matches|
    ensures forall i :: 0 <= i < |matches| ==> texts[i] == matches[i].choice
  {
    seq(|matches|, i requires 0 <= i < |matches| => matches[i].choice)
  }

  /**
    Query resolution: no match ends the search; otherwise the top match is
    the first one returned, it is offered as a hint when the lower-cased text
    differs from the lower-cased top match, and the query is the match texts
    joined with single spaces.
  */
  function Resolve(input: string, matches: seq<Match>): Resolution
  {
    if |matches| == 0 then NoMatch
    else
      var top := matches[0].choice;
      var hint := if Lower(input) != Lower(top) then Some(top) else None;
      Resolved(hint, Join(Choices(matches), ' '))
  }

  /**
    Resolution fails exactly when there is no match. Otherwise the hint names
    the first match and appears exactly when the text and the first match
    differ other than in letter case (never for the exact text), and the
    words of the query are the words of the matches, in the order returned.
  */
  lemma ResolveSpec(input: string, matches: seq<Match>)
    ensures var res := Resolve(input, matches);
      && (res.NoMatch? <==> matches == [])
      && (res.Resolved? ==>
        && (res.hint.Some? <==> Lower(input) != Lower(matches[0].choice))
        && (res.hint.Some? ==> res.hint.value == matches[0].choice)
        && (input == matches[0].choice ==> res.hint.None?)
        && Split(res.query, ' ') == SplitEach(Choices(matches), ' '))
  {
    if matches != [] {
      SplitJoin(Choices(matches), ' ');
    }
  }

  /**
    When no match text holds a space, splitting the query at spaces gives
    back the match texts themselves, in the order returned.
  */
  lemma ResolvedQueryWords(input: string, matches: seq<Match>)
    requires matches != []
    ensures var res := Resolve(input, matches);
      && res.Resolved?
      && ((forall i :: 0 <= i < |matches| ==> ' ' !in matches[i].choice) ==> Split(res.query, ' ') == Choices(matches))
  {
    var texts := Choices(matches);
    if forall i :: 0 <= i < |matches| ==> ' ' !in matches[i].choice {
      SplitJoinWithoutSep(texts, ' ');
    }
  }

  /** What the matcher promises: at most 5 matches, each scoring at least 70, each a choice at its position. */
  predicate WellFormedMatches(matches: seq<Match>, pool: seq<string>)
  {
    && |matches| <= 5
    && forall i :: 0 <= i < |matches| ==>
      && matches[i].score >= 70
      && matches[i].position < |pool|
      && pool[matches[i].position] == matches[i].choice
  }

  /** When the matcher returns choices from the pool, the hint is a track, artist or album name of the table. */
  lemma HintIsCatalogName(input: string, table: seq<Item>, matches: seq<Match>)
    requires WellFormedMatches(matches, CandidatePool(table))
    ensures var res := Resolve(input, matches);
      res.Resolved? && res.hint.Some? ==>
        exists i :: 0 <= i < |table| &&
          res.hint.value in {table[i].trackName, table[i].artistName, table[i].album}
  {
    var res := Resolve(input, matches);
    if res.Resolved? && res.hint.Some? {
      var n, p := |table|, matches[0].position;
      if p < n {
        assert res.hint.value == table[p].trackName;
      } else if p < 2 * n {
        assert res.hint.value == table[p - n].artistName;
      } else {
        assert res.hint.value == table[p - 2 * n].album;
      }
    }
  }

  /**
    `get_recommendations(user_input, ..., num_recommendations=k)`. With no
    match the result is empty; otherwise the rows are those at
    `argsort(similarity(query))[-k:][::-1]`, in that order, each restricted
    to the track, artist, album, formatted duration and link columns.
  */
  function GetRecommendations(
    input: string,
    table: seq<Item>,
    k: nat,
    extract: (string, seq<string>) -> seq<Match>,
    similarity: string -> seq<int>,
    argsort: seq<int> -> seq<nat>): (r: Recommendation)
    requires forall q :: |similarity(q)| == |table|
    requires forall scores :: IsAscendingArgsort(scores, argsort(scores))
    ensures r.NoCloseMatches? <==> extract(input, CandidatePool(table)) == []
    ensures r.Recommended? ==> Resolve(input, extract(input, CandidatePool(table))) == Resolved(r.hint, r.query)
    ensures r.Recommended? && k > 0 ==> IsTopSelection(similarity(r.query), k, r.positions)
    ensures r.Recommended? ==>
      && |r.rows| == |r.positions|
      && forall j :: 0 <= j < |r.rows| ==> r.positions[j] < |table| && r.rows[j] == Show(table[r.positions[j]])
  {
    match Resolve(input, extract(input, CandidatePool(table)))
    case NoMatch => NoCloseMatches
    case Resolved(hint, query) =>
      var scores := similarity(query);
      var perm := argsort(scores);
      var positions := TopIndices(perm, k);
      TopIndicesAt(perm, k);
      assert IsReversedTail(perm, positions);
      ReversedTailOrdered(scores, perm, positions);
      if k > 0 then
        TopIndicesSelectsTopK(scores, perm, k);
        Recommended(hint, query, positions, ShowAll(Select(table, positions)))
      else
        Recommended(hint, query, positions, ShowAll(Select(table, positions)))
  }

  /**
    With no match, neither the scoring nor the argsort is consulted: the
    result is empty whatever they are.
  */
  lemma NoMatchSkipsRanking(
    input: string, table: seq<Item>, k: nat,
    extract: (string, seq<string>) -> seq<Match>,
    similarity1: string -> seq<int>, argsort1: seq<int> -> seq<nat>,
    similarity2: string -> seq<int>, argsort2: seq<int> -> seq<nat>)
    requires forall q :: |similarity1(q)| == |table| && |similarity2(q)| == |table|
    requires forall scores :: IsAscendingArgsort(scores, argsort1(scores)) && IsAscendingArgsort(scores, argsort2(scores))
    requires extract(input, CandidatePool(table)) == []
    ensures GetRecommendations(input, table, k, extract, similarity1, argsort1) == NoCloseMatches
    ensures GetRecommendations(input, table, k, extract, similarity2, argsort2) == NoCloseMatches
  {
  }

  /** The app always asks for ten recommendations. */
  const NumRecommendations: nat := 10

  /**
    The search button: the typed text is stripped of surrounding whitespace
    and blank text never reaches `get_recommendations`.
  */
  function Search(
    typed: string,
    table: seq<Item>,
    extract: (string, seq<string>) -> seq<Match>,
    similarity: string -> seq<int>,
    argsort: seq<int> -> seq<nat>): (r: Option<Recommendation>)
    requires forall q :: |similarity(q)| == |table|
    requires forall scores :: IsAscendingArgsort(scores, argsort(scores))
  {
    var input := Strip(typed);
    if input == [] then None
    else Some(GetRecommendations(input, table, NumRecommendations, extract, similarity, argsort))
  }

  /**
    A search runs exactly when the typed text is not blank; it is run on text
    that neither starts nor ends with whitespace, and when it finds matches it
    returns min(10, n) rows, the ten best by similarity to the query.
  */
  lemma SearchSpec(
    typed: string,
    table: seq<Item>,
    extract: (string, seq<string>) -> seq<Match>,
    similarity: string -> seq<int>,
    argsort: seq<int> -> seq<nat>)
    requires forall q :: |similarity(q)| == |table|
    requires forall scores :: IsAscendingArgsort(scores, argsort(scores))
    ensures var r := Search(typed, table, extract, similarity, argsort);
      && (r.None? <==> IsBlank(typed))
      && (r.Some? ==>
        var input := Strip(typed);
        && input != [] && !IsSpace(input[0]) && !IsSpace(input[|input| - 1])
        && r.value == GetRecommendations(input, table, NumRecommendations, extract, similarity, argsort)
        && (r.value.Recommended? ==>
          && |r.value.rows| == Min(NumRecommendations, |table|)
          && IsTopSelection(similarity(r.value.query), NumRecommendations, r.value.positions)))
  {
    StripSpec(typed);
  }
}
