/**
 * The in-memory movie table as the script sees it: named columns of cells,
 * each cell either a string or missing (NaN), all columns of one length.
 */
module Table {
  import opened Wrappers

  /** One cell of the table; `None` is a missing value. */
  type Cell = Option<string>

  /** One column of the table, one cell per movie (row). */
  type Column = seq<Cell>

  /** The five text columns combined into the feature string, in this order. */
  const SelectedFeatures: seq<string> := ["genres", "keywords", "tagline", "cast", "director"]

  /** The table the script needs: a title column and the five feature columns,
      every column holding exactly `n` cells. */
  ghost predicate WellFormed(cols: map<string, Column>, n: nat) {
    && "title" in cols
    && (forall f :: f in SelectedFeatures ==> f in cols)
    && (forall k :: k in cols ==> |cols[k]| == n)
  }

  /** `fillna('')` on one cell: a missing value becomes the empty string. */
  function FillCell(c: Cell): (r: string)
    ensures c.Some? ==> r == c.value
    ensures c.None? ==> r == ""
  {
    c.GetOr("")
  }

  /** `fillna('')` on a whole column. */
  function FillNa(c: Column): (r: Column)
    ensures |r| == |c|
    ensures forall i :: 0 <= i < |c| ==> r[i] == Some(FillCell(c[i]))
    ensures forall i :: 0 <= i < |c| && c[i].Some? ==> r[i] == c[i]
  {
    seq(|c|, i requires 0 <= i < |c| => Some(FillCell(c[i])))
  }

  /** A column with no missing value. */
  ghost predicate NoMissing(c: Column) {
    forall i :: 0 <= i < |c| ==> c[i].Some?
  }

  /** The five feature columns of `cols` filled, every other column untouched:
      the table after the fill loop over `SelectedFeatures`. */
  function FillFeatureColumns(cols: map<string, Column>): (r: map<string, Column>)
    ensures r.Keys == cols.Keys
    ensures forall f :: f in SelectedFeatures && f in cols ==> r[f] == FillNa(cols[f]) && NoMissing(r[f])
    ensures forall k :: k in cols && k !in SelectedFeatures ==> r[k] == cols[k]
  {
    map k | k in cols :: if k in SelectedFeatures then FillNa(cols[k]) else cols[k]
  }

  /** Pandas string `+` on two cells: a missing operand gives a missing result. */
  function Plus(a: Cell, b: Cell): (r: Cell)
    ensures r.Some? <==> a.Some? && b.Some?
    ensures r.Some? ==> r.value == a.value + b.value
  {
    match (a, b)
    case (Some(x), Some(y)) => Some(x + y)
    case _ => None
  }
}
