/**
 * The recommendation ranker: the similarity row of the queried movie is
 * paired with row positions, sorted by score, highest first, with a stable
 * sort (so equal scores keep ascending position), and cut to its first 30
 * entries.
 */
module Ranking {

  /** A row position paired with its similarity score (one `enumerate` pair). */
  datatype Scored = Scored(index: nat, score: real)

  /** How many entries of the ranked list are shown. */
  const TopCount: nat := 30

  /** `list(enumerate(row))`. */
  function Enumerate(row: seq<real>): (r: seq<Scored>)
    ensures |r| == |row|
    ensures forall j :: 0 <= j < |row| ==> r[j].index == j && r[j].score == row[j]
    ensures IndicesAscending(r)
  {
    seq(|row|, j requires 0 <= j < |row| => Scored(j, row[j]))
  }

  /** `p` may stand before `q` in the ranked list: a higher score, or an
      equal score at a lower position. */
  predicate Precedes(p: Scored, q: Scored) {
    p.score >= q.score && (p.score == q.score ==> p.index < q.index)
  }

  /** Scores never increase along `s`, and entries with equal scores are in
      strictly ascending position order. */
  ghost predicate Ordered(s: seq<Scored>) {
    forall k, l :: 0 <= k < l < |s| ==> Precedes(s[k], s[l])
  }

  /** Positions strictly ascending along `s`, as `enumerate` produces them. */
  ghost predicate IndicesAscending(s: seq<Scored>) {
    forall k, l :: 0 <= k < l < |s| ==> s[k].index < s[l].index
  }

  /** One insertion step of the stable descending sort: `x` goes after every
      element whose score is at least its own, before the first smaller one. */
  function InsertByScore(s: seq<Scored>, x: Scored): (r: seq<Scored>)
    ensures multiset(r) == multiset(s) + multiset{x}
  {
    if s == [] then [x]
    else if s[0].score >= x.score then
      assert s == [s[0]] + s[1..];
      [s[0]] + InsertByScore(s[1..], x)
    else [x] + s
  }

  /** `sorted(s, key=score, reverse=True)`, as a stable insertion sort that
      takes the elements of `s` from left to right. */
  function SortByScoreDescending(s: seq<Scored>): (r: seq<Scored>)
    ensures multiset(r) == multiset(s)
  {
    if s == [] then []
    else
      assert s == s[..|s| - 1] + [s[|s| - 1]];
      InsertByScore(SortByScoreDescending(s[..|s| - 1]), s[|s| - 1])
  }

  /** The ranked list of a similarity row. */
  function Ranked(row: seq<real>): (r: seq<Scored>)
    ensures Ordered(r)
    ensures multiset(r) == multiset(Enumerate(row))
  {
    SortIsOrdered(Enumerate(row));
    SortByScoreDescending(Enumerate(row))
  }

  /** `ranked[:30]`. */
  function Top(ranked: seq<Scored>): (r: seq<Scored>)
    ensures |r| == if |ranked| < TopCount then |ranked| else TopCount
    ensures r <= ranked
  {
    if |ranked| < TopCount then ranked else ranked[..TopCount]
  }

  /** Inserting an element whose position is above every position already in
      an ordered list keeps the list ordered. */
  lemma {:induction false} InsertKeepsOrder(s: seq<Scored>, x: Scored)
    requires Ordered(s)
    requires forall k :: 0 <= k < |s| ==> s[k].index < x.index
    ensures Ordered(InsertByScore(s, x))
  {
    if s != [] && s[0].score >= x.score {
      var t := s[1..];
      InsertKeepsOrder(t, x);
      var r := InsertByScore(t, x);
      assert multiset(r) == multiset(t) + multiset{x};
      forall l | 0 <= l < |r| ensures Precedes(s[0], r[l]) {
        assert r[l] in multiset(r);
        if r[l] == x {
        } else {
          assert r[l] in multiset(t);
          var m :| 0 <= m < |t| && t[m] == r[l];
          assert s[m + 1] == r[l];
        }
      }
      assert InsertByScore(s, x) == [s[0]] + r;
    } else if s != [] {
      forall k, l | 0 <= k < l < |s| + 1 ensures Precedes(([x] + s)[k], ([x] + s)[l]) {
        if k > 0 {
          assert Precedes(s[k - 1], s[l - 1]);
        } else {
          assert Precedes(s[0], s[l - 1]) || l == 1;
        }
      }
    }
  }

  /** The stable sort of a list taken in ascending position order is ordered:
      non-increasing scores, and ties in ascending position. */
  lemma {:induction false} SortIsOrdered(s: seq<Scored>)
    requires IndicesAscending(s)
    ensures Ordered(SortByScoreDescending(s))
  {
    if s != [] {
      var init := s[..|s| - 1];
      var x := s[|s| - 1];
      SortIsOrdered(init);
      var sorted := SortByScoreDescending(init);
      forall k | 0 <= k < |sorted| ensures sorted[k].index < x.index {
        assert sorted[k] in multiset(init);
        var m :| 0 <= m < |init| && init[m] == sorted[k];
      }
      InsertKeepsOrder(sorted, x);
    }
  }

  /** The head of an ordered list precedes each of its other elements. */
  lemma HeadPrecedes(s: seq<Scored>, y: Scored)
    requires Ordered(s) && y in multiset(s)
    ensures y == s[0] || Precedes(s[0], y)
  {
  }

  /** Dropping the head of an ordered list leaves an ordered list of the
      remaining elements. */
  lemma OrderedTail(s: seq<Scored>)
    requires Ordered(s) && s != []
    ensures Ordered(s[1..])
    ensures multiset(s[1..]) == multiset(s) - multiset{s[0]}
  {
    assert s == [s[0]] + s[1..];
    forall k, l | 0 <= k < l < |s| - 1 ensures Precedes(s[1..][k], s[1..][l]) {
      assert Precedes(s[k + 1], s[l + 1]);
    }
  }

  /** Two ordered lists with the same elements are equal: the order leaves no
      choice, so the ranking is deterministic. */
  lemma {:induction false} OrderedPermutationUnique(a: seq<Scored>, b: seq<Scored>)
    requires multiset(a) == multiset(b)
    requires Ordered(a) && Ordered(b)
    ensures a == b
  {
    if a != [] {
      assert |b| == |a| by { assert |multiset(a)| == |multiset(b)|; }
      HeadPrecedes(a, b[0]);
      HeadPrecedes(b, a[0]);
      assert a[0] == b[0];
      OrderedTail(a);
      OrderedTail(b);
      OrderedPermutationUnique(a[1..], b[1..]);
      assert a == [a[0]] + a[1..] && b == [b[0]] + b[1..];
    }
  }

  /** The ranked list holds every position of the row exactly once, each with
      its own score, in descending score order with ties by ascending position. */
  lemma RankedEntries(row: seq<real>)
    ensures Ordered(Ranked(row))
    ensures multiset(Ranked(row)) == multiset(Enumerate(row))
    ensures |Ranked(row)| == |row|
    ensures forall k :: 0 <= k < |row| ==>
      Ranked(row)[k].index < |row| && Ranked(row)[k].score == row[Ranked(row)[k].index]
    ensures forall j :: 0 <= j < |row| ==> Scored(j, row[j]) in Ranked(row)
    ensures forall k, l :: 0 <= k < l < |row| ==> Ranked(row)[k].index != Ranked(row)[l].index
  {
    var e := Enumerate(row);
    var r := Ranked(row);
    SortIsOrdered(e);
    assert |r| == |row| by { assert |multiset(r)| == |multiset(e)|; }
    forall k | 0 <= k < |row| ensures r[k].index < |row| && r[k].score == row[r[k].index] {
      assert r[k] in multiset(e);
    }
    forall j | 0 <= j < |row| ensures Scored(j, row[j]) in r {
      assert e[j] in multiset(r);
    }
    forall k, l | 0 <= k < l < |row| ensures r[k].index != r[l].index {
      assert Precedes(r[k], r[l]);
    }
  }

  /** The selection has min(30, N) entries, each naming a position of the row. */
  lemma TopIndicesInRange(row: seq<real>)
    ensures |Top(Ranked(row))| == if |row| < TopCount then |row| else TopCount
    ensures forall k :: 0 <= k < |Top(Ranked(row))| ==> Top(Ranked(row))[k].index < |row|
  {
    RankedEntries(row);
    var r := Ranked(row);
    forall k | 0 <= k < |Top(r)| ensures Top(r)[k].index < |row| {
      assert Top(r)[k] == r[k];
    }
  }

  /** The selection is ordered, names distinct positions of the row each with
      its own score, and starts with a maximal score. */
  lemma TopRanked(row: seq<real>)
    requires |row| > 0
    ensures var shown := Top(Ranked(row));
      && 0 < |shown|
      && Ordered(shown)
      && (forall k, l :: 0 <= k < l < |shown| ==> shown[k].index != shown[l].index)
      && (forall k :: 0 <= k < |shown| ==> shown[k].index < |row| && shown[k].score == row[shown[k].index])
      && (forall j :: 0 <= j < |row| ==> row[j] <= shown[0].score)
  {
    RankedEntries(row);
    TopFirstIsMaximal(row);
    var r := Ranked(row);
    var shown := Top(r);
    assert forall k :: 0 <= k < |shown| ==> shown[k] == r[k];
  }

  /** The first shown entry carries a maximal score of the row. */
  lemma TopFirstIsMaximal(row: seq<real>)
    requires |row| > 0
    ensures |Top(Ranked(row))| > 0
    ensures forall j :: 0 <= j < |row| ==> row[j] <= Top(Ranked(row))[0].score
  {
    RankedEntries(row);
    var r := Ranked(row);
    forall j | 0 <= j < |row| ensures row[j] <= r[0].score {
      var k :| 0 <= k < |r| && r[k] == Scored(j, row[j]);
      assert k == 0 || Precedes(r[0], r[k]);
    }
  }

  /** The entry at position `q` of the row is ranked first exactly when its
      score is a maximum of the row and every earlier position scores
      strictly less; a strict maximum is therefore always first. */
  lemma FirstIsQueried(row: seq<real>, q: nat)
    requires q < |row|
    ensures Ranked(row)[0].index == q <==>
      (forall j :: 0 <= j < |row| ==> row[j] <= row[q]) && (forall j :: 0 <= j < q ==> row[j] < row[q])
  {
    RankedEntries(row);
    var r := Ranked(row);
    var k :| 0 <= k < |r| && r[k] == Scored(q, row[q]);
    assert k == 0 || Precedes(r[0], r[k]);
    if r[0].index == q {
      forall j | 0 <= j < |row| ensures row[j] <= row[q] && (j < q ==> row[j] < row[q]) {
        var m :| 0 <= m < |r| && r[m] == Scored(j, row[j]);
        assert m == 0 || Precedes(r[0], r[m]);
      }
    }
  }

  /** Putting `x` between the elements scoring at least its own and those
      scoring less keeps an ordered list ordered, when `x` has the highest
      position. */
  lemma InsertionPointOrdered(rest: seq<Scored>, x: Scored, j: nat)
    requires Ordered(rest) && j <= |rest|
    requires forall k :: 0 <= k < |rest| ==> rest[k].index < x.index
    requires j > 0 ==> rest[j - 1].score >= x.score
    requires forall l :: j <= l < |rest| ==> rest[l].score < x.score
    ensures Ordered(rest[..j] + [x] + rest[j..])
  {
  }

  /** Moving one element to another place keeps the same elements. */
  lemma MovedElementPermutes(rest: seq<Scored>, x: Scored, tail: seq<Scored>, j: nat)
    requires j <= |rest|
    ensures multiset(rest[..j] + [x] + rest[j..] + tail) == multiset(rest + [x] + tail)
  {
    assert rest == rest[..j] + rest[j..];
  }

  /** What one insertion pass achieves: `after` is `before` with the element
      at `i` moved down to `j`, past exactly the prefix elements scoring less,
      so it holds the same elements and its first i + 1 are ordered. */
  lemma InsertionStep(before: seq<Scored>, after: seq<Scored>, i: nat, j: nat)
    requires |after| == |before| && j <= i < |before|
    requires Ordered(before[..i])
    requires forall k :: 0 <= k < i ==> before[k].index < before[i].index
    requires forall k :: 0 <= k < j ==> after[k] == before[k]
    requires after[j] == before[i]
    requires forall k :: j < k <= i ==> after[k] == before[k - 1]
    requires after[i + 1..] == before[i + 1..]
    requires forall l :: j <= l < i ==> before[l].score < before[i].score
    requires j > 0 ==> before[j - 1].score >= before[i].score
    ensures multiset(after) == multiset(before)
    ensures Ordered(after[..i + 1])
    ensures forall k :: 0 <= k <= i ==> after[k].index <= before[i].index
  {
    var rest, x, tail := before[..i], before[i], before[i + 1..];
    InsertionPointOrdered(rest, x, j);
    assert after[..i + 1] == rest[..j] + [x] + rest[j..];
    assert after == rest[..j] + [x] + rest[j..] + tail;
    assert before == rest + [x] + tail;
    MovedElementPermutes(rest, x, tail, j);
  }

  /** One pass of the insertion sort: the element at `i` is swapped leftwards
      past every element of the ordered prefix `a[..i]` with a smaller score. */
  method InsertAt(a: array<Scored>, i: nat)
    requires i < a.Length
    requires Ordered(a[..i])
    requires forall k :: 0 <= k < i ==> a[k].index < a[i].index
    modifies a
    ensures multiset(a[..]) == old(multiset(a[..]))
    ensures a[i + 1..] == old(a[i + 1..])
    ensures Ordered(a[..i + 1])
    ensures forall k :: 0 <= k <= i ==> a[k].index <= old(a[i].index)
  {
    ghost var before := a[..];
    var j := i;
    while j > 0 && a[j - 1].score < a[j].score
      invariant 0 <= j <= i
      invariant forall k :: 0 <= k < j ==> a[k] == before[k]
      invariant a[j] == before[i]
      invariant forall k :: j < k <= i ==> a[k] == before[k - 1]
      invariant forall k :: i < k < a.Length ==> a[k] == before[k]
      invariant forall l :: j <= l < i ==> before[l].score < before[i].score
    {
      a[j - 1], a[j] := a[j], a[j - 1];
      j := j - 1;
    }
    assert a[i + 1..] == before[i + 1..];
    InsertionStep(before, a[..], i, j);
  }

  /** The ranker as the script runs it: `enumerate` into an array, then a
      stable insertion sort in place by descending score. */
  method RankBySimilarity(row: seq<real>) returns (ranked: seq<Scored>)
    ensures ranked == Ranked(row)
    ensures Ordered(ranked) && multiset(ranked) == multiset(Enumerate(row))
  {
    ghost var e := Enumerate(row);
    var a := new Scored[|row|](j requires 0 <= j < |row| => Scored(j, row[j]));
    assert a[..] == e;
    var i := 0;
    while i < a.Length
      invariant 0 <= i <= a.Length
      invariant multiset(a[..]) == multiset(e)
      invariant Ordered(a[..i])
      invariant a[i..] == e[i..]
      invariant forall k :: 0 <= k < i ==> a[k].index < i
    {
      assert a[i] == e[i];
      InsertAt(a, i);
      i := i + 1;
    }
    ranked := a[..];
    assert ranked == a[..a.Length];
    RankedEntries(row);
    OrderedPermutationUnique(ranked, Ranked(row));
  }
}
