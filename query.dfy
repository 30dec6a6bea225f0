/**
 * Query resolution: the typed movie name is checked, matched to a known
 * title by a fuzzy matcher, located in the table, and the 30 best-ranked
 * rows of that movie's similarity row are turned into result entries.
 */
module Query {
  import opened Wrappers
  import opened Table
  import opened Ranking

  const InvalidNameMessage: string := "Please enter a valid movie name."
  const NoMatchMessage: string := "No close match found for your movie. Please try another movie."
  /** The overview shown when the table has no `overview` column. */
  const NotAvailable: string := "Not available"

  /** One row of the result table: movie name, genre and overview, each
      copied as a cell (so a missing value stays missing). */
  datatype Recommendation = Recommendation(movieName: Cell, genre: Cell, overview: Cell)

  /** What one run of the script shows for the typed name: nothing, one of
      the two messages, or the table of recommendations. */
  datatype Outcome = Silent | Message(text: string) | Recommendations(rows: seq<Recommendation>)

  /** The characters Python's `str.strip()` removes (`str.isspace()`). */
  predicate IsSpace(c: char) {
    var n := c as int;
    n == 0x20 || 0x09 <= n <= 0x0D || 0x1C <= n <= 0x1F || n == 0x85 || n == 0xA0
    || n == 0x1680 || 0x2000 <= n <= 0x200A || n == 0x2028 || n == 0x2029
    || n == 0x202F || n == 0x205F || n == 0x3000
  }

  /** `s.lstrip()`. */
  function StripLeft(s: string): (r: string)
    ensures |r| <= |s| && r == s[|s| - |r|..]
    ensures forall k :: 0 <= k < |s| - |r| ==> IsSpace(s[k])
    ensures r == [] || !IsSpace(r[0])
  {
    if s != [] && IsSpace(s[0]) then
      var r := StripLeft(s[1..]);
      assert s[1..][|s| - 1 - |r|..] == s[|s| - |r|..];
      r
    else s
  }

  /** `s.rstrip()`. */
  function StripRight(s: string): (r: string)
    ensures |r| <= |s| && r == s[..|r|]
    ensures forall k :: |r| <= k < |s| ==> IsSpace(s[k])
    ensures r == [] || !IsSpace(r[|r| - 1])
  {
    if s != [] && IsSpace(s[|s| - 1]) then StripRight(s[..|s| - 1]) else s
  }

  /** `s.strip()`: empty exactly when `s` is made of whitespace only. */
  function Strip(s: string): (r: string)
    ensures r == [] <==> forall k :: 0 <= k < |s| ==> IsSpace(s[k])
    ensures r != [] ==> !IsSpace(r[0]) && !IsSpace(r[|r| - 1])
  {
    var l := StripLeft(s);
    StripRight(l)
  }

  /** `titles.dropna().tolist()`: the present titles, in table order. */
  function NonMissingTitles(titles: Column): (r: seq<string>)
    ensures |r| <= |titles|
    ensures forall t :: t in r <==> Some(t) in titles
  {
    if titles == [] then []
    else
      assert titles == [titles[0]] + titles[1..];
      (match titles[0] case Some(t) => [t] case None => []) + NonMissingTitles(titles[1..])
  }

  /** `movies_data[movies_data.title == t].index[0]`: the first row whose
      title is `t` (the table keeps its default 0, 1, 2, ... row labels). */
  function FirstIndexOf(titles: Column, t: string): (r: nat)
    requires Some(t) in titles
    ensures r < |titles| && titles[r] == Some(t)
    ensures forall j :: 0 <= j < r ==> titles[j] != Some(t)
  {
    if titles[0] == Some(t) then 0
    else
      assert Some(t) in titles[1..] by { assert titles == [titles[0]] + titles[1..]; }
      1 + FirstIndexOf(titles[1..], t)
  }

  /** The fuzzy matcher may rank candidates as it likes, but only ever
      proposes titles from the list it is given. */
  ghost predicate MatcherSound(matcher: (string, seq<string>) -> seq<string>, titles: seq<string>) {
    forall q, c :: c in matcher(q, titles) ==> c in titles
  }

  /** A similarity matrix with one row of `n` scores per movie. */
  ghost predicate IsSquare(similarity: seq<seq<real>>, n: nat) {
    |similarity| == n && forall i :: 0 <= i < n ==> |similarity[i]| == n
  }

  /** The result entry for row `j`: its title and genre, and its overview
      when the table has that column. */
  function EntryFor(cols: map<string, Column>, n: nat, j: nat): (e: Recommendation)
    requires WellFormed(cols, n) && j < n
    ensures e.movieName == cols["title"][j] && e.genre == cols["genres"][j]
    ensures "overview" in cols ==> e.overview == cols["overview"][j]
    ensures "overview" !in cols ==> e.overview == Some(NotAvailable)
  {
    Recommendation(cols["title"][j], cols["genres"][j],
                   if "overview" in cols then cols["overview"][j] else Some(NotAvailable))
  }

  /** The result entries for the selected ranked pairs, in ranked order. */
  function Entries(cols: map<string, Column>, n: nat, shown: seq<Scored>): (r: seq<Recommendation>)
    requires WellFormed(cols, n)
    requires forall k :: 0 <= k < |shown| ==> shown[k].index < n
    ensures |r| == |shown|
    ensures forall k :: 0 <= k < |shown| ==>
      r[k].movieName == cols["title"][shown[k].index] && r[k].genre == cols["genres"][shown[k].index]
  {
    seq(|shown|, k requires 0 <= k < |shown| => EntryFor(cols, n, shown[k].index))
  }

  /** The candidates the matcher proposes for the typed name. */
  function Candidates(cols: map<string, Column>, name: string, matcher: (string, seq<string>) -> seq<string>): (r: seq<string>)
    requires "title" in cols
    ensures MatcherSound(matcher, NonMissingTitles(cols["title"])) ==>
      forall c :: c in r ==> Some(c) in cols["title"]
  {
    matcher(name, NonMissingTitles(cols["title"]))
  }

  /** The row of the movie the name resolves to: the first row titled with
      the matcher's first candidate. */
  function MatchedRow(cols: map<string, Column>, name: string, matcher: (string, seq<string>) -> seq<string>): (q: nat)
    requires "title" in cols
    requires MatcherSound(matcher, NonMissingTitles(cols["title"]))
    requires Candidates(cols, name, matcher) != []
    ensures q < |cols["title"]| && cols["title"][q] == Some(Candidates(cols, name, matcher)[0])
  {
    var c := Candidates(cols, name, matcher)[0];
    assert c in NonMissingTitles(cols["title"]);
    FirstIndexOf(cols["title"], c)
  }

  /** The result rows for the movie at row `q`: the entries of the first 30
      pairs of its ranked similarity row, as many as there are movies up to 30. */
  function RankedRows(cols: map<string, Column>, n: nat, similarity: seq<seq<real>>, q: nat): (rows: seq<Recommendation>)
    requires WellFormed(cols, n) && IsSquare(similarity, n) && q < n
    ensures 0 < |rows| == (if n < TopCount then n else TopCount)
    ensures "overview" !in cols ==> forall k :: 0 <= k < |rows| ==> rows[k].overview == Some(NotAvailable)
    ensures NoMissing(cols["genres"]) ==> forall k :: 0 <= k < |rows| ==> rows[k].genre.Some?
  {
    TopIndicesInRange(similarity[q]);
    Entries(cols, n, Top(Ranked(similarity[q])))
  }

  /** The whole query path of the script for one typed name. */
  function Resolve(cols: map<string, Column>, n: nat, similarity: seq<seq<real>>, name: string,
                   matcher: (string, seq<string>) -> seq<string>): (r: Outcome)
    requires WellFormed(cols, n) && IsSquare(similarity, n)
    requires MatcherSound(matcher, NonMissingTitles(cols["title"]))
    ensures r == Silent <==> name == ""
    ensures r == Message(InvalidNameMessage) <==>
      name != "" && forall k :: 0 <= k < |name| ==> IsSpace(name[k])
    ensures r == Message(NoMatchMessage) <==>
      Strip(name) != "" && Candidates(cols, name, matcher) == []
    ensures r.Recommendations? <==> Strip(name) != "" && Candidates(cols, name, matcher) != []
    ensures r.Recommendations? ==> 0 < |r.rows| == (if n < TopCount then n else TopCount)
    ensures r.Recommendations? && "overview" !in cols ==>
      forall k :: 0 <= k < |r.rows| ==> r.rows[k].overview == Some(NotAvailable)
  {
    if name == "" then Silent
    else if Strip(name) == "" then Message(InvalidNameMessage)
    else if Candidates(cols, name, matcher) == [] then Message(NoMatchMessage)
    else
      Recommendations(RankedRows(cols, n, similarity, MatchedRow(cols, name, matcher)))
  }

  /** Every shown entry belongs to a distinct movie row, and the entries
      appear in descending similarity to the matched movie, the first one
      carrying a maximal similarity. */
  lemma ResolvedRowsRanked(cols: map<string, Column>, n: nat, similarity: seq<seq<real>>, name: string,
                           matcher: (string, seq<string>) -> seq<string>)
    requires WellFormed(cols, n) && IsSquare(similarity, n)
    requires MatcherSound(matcher, NonMissingTitles(cols["title"]))
    requires Strip(name) != "" && Candidates(cols, name, matcher) != []
    ensures var q := MatchedRow(cols, name, matcher);
      var rows := Resolve(cols, n, similarity, name, matcher).rows;
      var shown := Top(Ranked(similarity[q]));
        && |shown| == |rows|
        && Ordered(shown)
        && (forall k, l :: 0 <= k < l < |shown| ==> shown[k].index != shown[l].index)
        && (forall k :: 0 <= k < |shown| ==> shown[k].index < n && shown[k].score == similarity[q][shown[k].index])
        && (forall k :: 0 <= k < |shown| ==> rows[k] == EntryFor(cols, n, shown[k].index))
        && (forall j :: 0 <= j < n ==> similarity[q][j] <= shown[0].score)
  {
    var q := MatchedRow(cols, name, matcher);
    var row := similarity[q];
    TopRanked(row);
    var shown := Top(Ranked(row));
    var rows := RankedRows(cols, n, similarity, q);
    assert Resolve(cols, n, similarity, name, matcher).rows == rows;
    assert rows == Entries(cols, n, shown);
  }

  /** When the matched movie is strictly more similar to itself than to any
      other movie, the first entry shown is the matched movie itself. */
  lemma ResolvedFirstIsMatch(cols: map<string, Column>, n: nat, similarity: seq<seq<real>>, name: string,
                             matcher: (string, seq<string>) -> seq<string>)
    requires WellFormed(cols, n) && IsSquare(similarity, n)
    requires MatcherSound(matcher, NonMissingTitles(cols["title"]))
    requires Strip(name) != "" && Candidates(cols, name, matcher) != []
    requires var q := MatchedRow(cols, name, matcher);
      forall j :: 0 <= j < n && j != q ==> similarity[q][j] < similarity[q][q]
    ensures Resolve(cols, n, similarity, name, matcher).rows[0].movieName
      == Some(Candidates(cols, name, matcher)[0])
  {
    var q := MatchedRow(cols, name, matcher);
    FirstIsQueried(similarity[q], q);
    RankedEntries(similarity[q]);
    var rows := RankedRows(cols, n, similarity, q);
    assert Resolve(cols, n, similarity, name, matcher).rows == rows;
    assert rows[0] == EntryFor(cols, n, Ranked(similarity[q])[0].index);
  }

  /** On the table as the script queries it, after the fill of the feature
      columns, every shown genre is present: a missing genre is shown as "". */
  lemma ResolveOnFilledTable(cols: map<string, Column>, n: nat, similarity: seq<seq<real>>, name: string,
                             matcher: (string, seq<string>) -> seq<string>)
    requires WellFormed(cols, n) && IsSquare(similarity, n)
    requires MatcherSound(matcher, NonMissingTitles(cols["title"]))
    ensures WellFormed(FillFeatureColumns(cols), n)
    ensures FillFeatureColumns(cols)["title"] == cols["title"]
    ensures var r := Resolve(FillFeatureColumns(cols), n, similarity, name, matcher);
      r.Recommendations? ==> forall k :: 0 <= k < |r.rows| ==> r.rows[k].genre.Some?
  {
    var filled := FillFeatureColumns(cols);
    assert "genres" in SelectedFeatures;
    assert NoMissing(filled["genres"]);
    if Resolve(filled, n, similarity, name, matcher).Recommendations? {
      var q := MatchedRow(filled, name, matcher);
      assert Resolve(filled, n, similarity, name, matcher).rows == RankedRows(filled, n, similarity, q);
    }
  }
}
