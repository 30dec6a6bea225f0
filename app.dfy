/**
 * The script's table of movies as a mutable object: the feature columns are
 * filled in place, then queries are answered against it.
 */
module App {
  import opened Wrappers
  import opened Table
  import opened Features
  import opened Ranking
  import opened Query

  class MovieFrame {
    /** The table's columns by name. */
    var columns: map<string, Column>
    /** The number of movies (rows). */
    const size: nat

    ghost predicate Valid()
      reads this
    {
      WellFormed(columns, size)
    }

    /** The table as loaded from the dataset. */
    constructor (columns: map<string, Column>, size: nat)
      requires WellFormed(columns, size)
      ensures Valid() && this.columns == columns && this.size == size
    {
      this.columns := columns;
      this.size := size;
    }

    /** The loop over the five feature names replacing each feature column by
        its `fillna('')`; afterwards the combined feature column holds every
        movie's composite string. */
    method FillFeatures()
      requires Valid()
      modifies this
      ensures Valid()
      ensures columns == FillFeatureColumns(old(columns))
      ensures forall f :: f in SelectedFeatures ==> NoMissing(columns[f])
      ensures forall i :: 0 <= i < size ==>
        CombinedColumn(columns, size)[i] == Some(Composite(RowOf(old(columns), size, i)))
    {
      var i := 0;
      while i < |SelectedFeatures|
        invariant 0 <= i <= |SelectedFeatures|
        invariant columns.Keys == old(columns).Keys
        invariant forall k :: k in columns ==>
          columns[k] == if k in SelectedFeatures[..i] then FillNa(old(columns)[k]) else old(columns)[k]
      {
        var feature := SelectedFeatures[i];
        columns := columns[feature := FillNa(columns[feature])];
        i := i + 1;
      }
      assert SelectedFeatures[..i] == SelectedFeatures;
      CombinedAfterFill(old(columns), size);
    }

    /** The loop appending one result row per selected ranked pair: the
        movie's title and genre, and its overview, or "Not available" when
        the table has no overview column. */
    method CollectRows(shown: seq<Scored>) returns (rows: seq<Recommendation>)
      requires Valid()
      requires forall k :: 0 <= k < |shown| ==> shown[k].index < size
      ensures rows == Entries(columns, size, shown)
    {
      rows := [];
      var i := 0;
      while i < |shown|
        invariant 0 <= i <= |shown|
        invariant |rows| == i
        invariant forall k :: 0 <= k < i ==> rows[k] == EntryFor(columns, size, shown[k].index)
      {
        var index := shown[i].index;
        var title := columns["title"][index];
        var genre := columns["genres"][index];
        var overview := if "overview" in columns then columns["overview"][index] else Some(NotAvailable);
        rows := rows + [Recommendation(title, genre, overview)];
        i := i + 1;
      }
    }

    /** One run of the query path, as the script executes it: validation,
        matching, lookup, the in-place ranking, and the loop that builds the
        30 result rows. */
    method Recommend(similarity: seq<seq<real>>, name: string, matcher: (string, seq<string>) -> seq<string>)
      returns (out: Outcome)
      requires Valid() && IsSquare(similarity, size)
      requires MatcherSound(matcher, NonMissingTitles(columns["title"]))
      requires forall f :: f in SelectedFeatures ==> NoMissing(columns[f])
      ensures out == Resolve(columns, size, similarity, name, matcher)
      ensures out.Recommendations? ==> forall k :: 0 <= k < |out.rows| ==> out.rows[k].genre.Some?
    {
      assert "genres" in SelectedFeatures;
      if name == "" {
        return Silent;
      }
      if Strip(name) == "" {
        return Message(InvalidNameMessage);
      }
      var found := matcher(name, NonMissingTitles(columns["title"]));
      if found == [] {
        return Message(NoMatchMessage);
      }
      var q := FirstIndexOf(columns["title"], found[0]);
      var ranked := RankBySimilarity(similarity[q]);
      RankedEntries(similarity[q]);
      var shown := if |ranked| < TopCount then ranked else ranked[..TopCount];
      assert q == MatchedRow(columns, name, matcher);
      assert shown == Top(Ranked(similarity[q]));
      var rows := CollectRows(shown);
      assert rows == RankedRows(columns, size, similarity, q);
      out := Recommendations(rows);
    }
  }
}
