/**
 * The feature combiner: the five text fields of every movie, with missing
 * values filled by the empty string, joined by single spaces into one
 * composite string that the vectoriser is given.
 */
module Features {
  import opened Wrappers
  import opened Table

  /** The five feature fields of one movie, as read (each possibly missing). */
  datatype FeatureRow = FeatureRow(genres: Cell, keywords: Cell, tagline: Cell, cast: Cell, director: Cell)

  /** The feature fields of row `i` of the table. */
  function RowOf(cols: map<string, Column>, n: nat, i: nat): FeatureRow
    requires WellFormed(cols, n) && i < n
  {
    FeatureRow(cols["genres"][i], cols["keywords"][i], cols["tagline"][i], cols["cast"][i], cols["director"][i])
  }

  /** The filled fields of a row, in the order they are combined. */
  function Fields(f: FeatureRow): seq<string> {
    [FillCell(f.genres), FillCell(f.keywords), FillCell(f.tagline), FillCell(f.cast), FillCell(f.director)]
  }

  /** Sum of the lengths of `parts`. */
  function TotalLength(parts: seq<string>): nat {
    if parts == [] then 0 else |parts[0]| + TotalLength(parts[1..])
  }

  /** `sep.join(parts)`: the parts in order with `sep` between neighbours. */
  function Join(sep: string, parts: seq<string>): string {
    if |parts| == 0 then ""
    else if |parts| == 1 then parts[0]
    else parts[0] + sep + Join(sep, parts[1..])
  }

  /** The composite feature string of one movie: genres, keywords, tagline,
      cast and director, each missing one taken as "", separated by one space. */
  function Composite(f: FeatureRow): (s: string)
    ensures |s| == |FillCell(f.genres)| + |FillCell(f.keywords)| + |FillCell(f.tagline)|
                   + |FillCell(f.cast)| + |FillCell(f.director)| + 4
    ensures f == FeatureRow(None, None, None, None, None) ==> s == "    "
  {
    FillCell(f.genres) + " " + FillCell(f.keywords) + " " + FillCell(f.tagline) + " "
      + FillCell(f.cast) + " " + FillCell(f.director)
  }

  /** A join of k parts is as long as the parts plus k - 1 separators. */
  lemma {:induction false} JoinLength(sep: string, parts: seq<string>)
    requires |parts| > 0
    ensures |Join(sep, parts)| == TotalLength(parts) + (|parts| - 1) * |sep|
  {
    if |parts| > 1 {
      JoinLength(sep, parts[1..]);
    }
  }

  /** The composite string is exactly the space-join of the five filled fields,
      so it is 4 characters longer than the fields together. */
  lemma CompositeIsJoin(f: FeatureRow)
    ensures Composite(f) == Join(" ", Fields(f))
    ensures |Composite(f)| == TotalLength(Fields(f)) + 4
  {
    var p := Fields(f);
    assert p[1..][1..][1..][1..] == [p[4]];
    assert Join(" ", p[1..][1..][1..]) == p[3] + " " + p[4];
    assert Join(" ", p[1..][1..]) == p[2] + " " + p[3] + " " + p[4];
    JoinLength(" ", p);
  }

  /** The column `combined_features`: the pandas sum of the five feature
      columns with " " between them, row by row (a missing cell anywhere in
      a row makes that row's sum missing). */
  function CombinedColumn(cols: map<string, Column>, n: nat): (r: Column)
    requires WellFormed(cols, n)
    ensures |r| == n
  {
    seq(n, i requires 0 <= i < n =>
      Plus(Plus(Plus(Plus(Plus(Plus(Plus(Plus(cols["genres"][i], Some(" ")), cols["keywords"][i]), Some(" ")),
        cols["tagline"][i]), Some(" ")), cols["cast"][i]), Some(" ")), cols["director"][i]))
  }

  /** Filling the five feature columns before summing them makes every
      combined cell present, and equal to the movie's composite string. */
  lemma CombinedAfterFill(cols: map<string, Column>, n: nat)
    requires WellFormed(cols, n)
    ensures WellFormed(FillFeatureColumns(cols), n)
    ensures forall i :: 0 <= i < n ==>
      CombinedColumn(FillFeatureColumns(cols), n)[i] == Some(Composite(RowOf(cols, n, i)))
  {
  }

  /** Without the fill, a movie with any missing feature field gets a
      missing combined value. */
  lemma CombinedWithoutFill(cols: map<string, Column>, n: nat, i: nat)
    requires WellFormed(cols, n) && i < n
    ensures CombinedColumn(cols, n)[i].None? <==>
      exists f :: f in SelectedFeatures && cols[f][i].None?
  {
  }
}
