/**
 * Ranking of one row of the similarity matrix: pair every catalog position
 * with its score, sort the pairs stably by descending score, drop the first
 * pair and keep the next `topN` positions.
 *
 * Scores are treated as opaque, totally ordered values; their computation
 * (TF-IDF and cosine similarity) is not part of this model.
 */
module Ranking {
  import opened Wrappers

  /** A catalog position paired with its similarity score. */
  datatype Candidate = Candidate(pos: nat, score: real)

  /** Every position of `row` paired with its own score, in position order. */
  function Enumerate(row: seq<real>): (ps: seq<Candidate>)
    ensures |ps| == |row|
    ensures forall i :: 0 <= i < |row| ==> ps[i] == Candidate(i, row[i])
  {
    seq(|row|, i requires 0 <= i < |row| => Candidate(i, row[i]))
  }

  /** Places `c` before the first element whose score does not exceed its own. */
  function Insert(c: Candidate, s: seq<Candidate>): (r: seq<Candidate>)
    ensures multiset(r) == multiset(s) + multiset{c}
    ensures |r| == |s| + 1
  {
    if s == [] || c.score >= s[0].score then [c] + s
    else
      assert s == [s[0]] + s[1..];
      [s[0]] + Insert(c, s[1..])
  }

  /** Stable sort by descending score (insertion sort from the back). */
  function SortDesc(s: seq<Candidate>): (r: seq<Candidate>)
    ensures multiset(r) == multiset(s)
    ensures |r| == |s|
  {
    if s == [] then []
    else
      assert s == [s[0]] + s[1..];
      Insert(s[0], SortDesc(s[1..]))
  }

  /** `a` ranks strictly before `b`: a higher score, or an equal score and an earlier position. */
  predicate Before(a: Candidate, b: Candidate)
  {
    a.score > b.score || (a.score == b.score && a.pos < b.pos)
  }

  /** Every earlier element ranks strictly before every later one. */
  predicate RankedOrder(s: seq<Candidate>)
  {
    forall i, j :: 0 <= i < j < |s| ==> Before(s[i], s[j])
  }

  /** Positions strictly increase along `s`, as they do in Enumerate's output. */
  predicate AscendingPositions(s: seq<Candidate>)
  {
    forall i, j :: 0 <= i < j < |s| ==> s[i].pos < s[j].pos
  }

  lemma {:induction false} InsertRanked(c: Candidate, s: seq<Candidate>)
    requires RankedOrder(s)
    requires forall d :: d in s ==> c.pos < d.pos
    ensures RankedOrder(Insert(c, s))
  {
    if s != [] && c.score < s[0].score {
      var tail := s[1..];
      assert RankedOrder(tail);
      InsertRanked(c, tail);
      var r := Insert(c, s);
      assert r == [s[0]] + Insert(c, tail);
      forall k | 1 <= k < |r| ensures Before(r[0], r[k]) {
        var d := r[k];
        assert d in multiset(Insert(c, tail));
        assert d == c || d in multiset(tail);
        if d != c {
          var m :| 0 <= m < |tail| && tail[m] == d;
          assert s[m + 1] == d;
        }
      }
    } else if s != [] {
      var r := Insert(c, s);
      assert r == [c] + s;
      forall k | 1 <= k < |r| ensures Before(r[0], r[k]) {
        assert r[k] == s[k - 1];
        assert s[k - 1] in s;
        if k > 1 {
          assert Before(s[0], s[k - 1]);
        }
      }
    }
  }

  /**
   * On input whose positions ascend, the sort orders by descending score and
   * breaks ties by ascending position: earlier rows win ties.
   */
  lemma {:induction false} SortDescRanked(s: seq<Candidate>)
    requires AscendingPositions(s)
    ensures RankedOrder(SortDesc(s))
  {
    if s != [] {
      var tail := s[1..];
      assert AscendingPositions(tail);
      SortDescRanked(tail);
      forall d | d in SortDesc(tail) ensures s[0].pos < d.pos {
        assert d in multiset(SortDesc(tail));
        var m :| 0 <= m < |tail| && tail[m] == d;
        assert s[m + 1] == d;
      }
      InsertRanked(s[0], SortDesc(tail));
    }
  }

  /**
   * The sorted candidate list for one row: a permutation of all positions,
   * each with its own score, ordered by descending score with ties in
   * ascending position order.
   */
  function Ranked(row: seq<real>): (r: seq<Candidate>)
    ensures |r| == |row|
    ensures multiset(r) == multiset(Enumerate(row))
    ensures RankedOrder(r)
    ensures ScoredFrom(row, r)
    ensures forall p :: 0 <= p < |row| ==> Candidate(p, row[p]) in r
  {
    var e := Enumerate(row);
    SortDescRanked(e);
    var r := SortDesc(e);
    assert forall k :: 0 <= k < |r| ==> r[k] in multiset(e);
    assert forall p :: 0 <= p < |row| ==> e[p] in multiset(r);
    r
  }

  /** Two lists in ranked order with the same elements are equal. */
  lemma {:induction false} RankedOrderUnique(s: seq<Candidate>, t: seq<Candidate>)
    requires RankedOrder(s) && RankedOrder(t)
    requires multiset(s) == multiset(t)
    ensures s == t
  {
    if s != [] {
      assert s[0] in multiset(t);
      assert t != [];
      assert t[0] in multiset(s);
      assert s[0] == t[0];
      assert s == [s[0]] + s[1..];
      assert t == [t[0]] + t[1..];
      assert multiset(s) == multiset{s[0]} + multiset(s[1..]);
      assert multiset(t) == multiset{t[0]} + multiset(t[1..]);
      forall x ensures multiset(s[1..])[x] == multiset(t[1..])[x] {
        assert multiset(s)[x] == multiset(t)[x];
      }
      assert multiset(s[1..]) == multiset(t[1..]);
      RankedOrderUnique(s[1..], t[1..]);
    }
  }

  /**
   * Ranked(row) is the only permutation of the enumerated row in ranked
   * order: whatever stable descending sort produced it, the result is this.
   */
  lemma RankedUnique(row: seq<real>, t: seq<Candidate>)
    requires multiset(t) == multiset(Enumerate(row))
    requires RankedOrder(t)
    ensures t == Ranked(row)
  {
    RankedOrderUnique(t, Ranked(row));
  }

  /** The first ranked position holds the row's maximum, and no earlier position does. */
  lemma FirstRankedIsFirstMaximum(row: seq<real>)
    requires |row| >= 1
    ensures var p := Ranked(row)[0].pos;
      (forall j :: 0 <= j < |row| ==> row[j] <= row[p]) &&
      (forall j :: 0 <= j < p ==> row[j] < row[p])
  {
    var r := Ranked(row);
    var p := r[0].pos;
    forall j | 0 <= j < |row| && j != p
      ensures row[j] <= row[p] && (j < p ==> row[j] < row[p])
    {
      assert Candidate(j, row[j]) in r;
      var k :| 0 <= k < |r| && r[k] == Candidate(j, row[j]);
      assert k != 0;
      assert Before(r[0], r[k]);
    }
  }

  /** Every candidate of `s` is a position of `row` carrying its own score. */
  predicate ScoredFrom(row: seq<real>, s: seq<Candidate>)
  {
    forall k :: 0 <= k < |s| ==> s[k].pos < |row| && s[k].score == row[s[k].pos]
  }

  /**
   * The positions of a ranked, scored list are in range, distinct, and have
   * non-increasing scores, equal scores in ascending position order.
   */
  lemma RankedPositionsOrdered(row: seq<real>, s: seq<Candidate>)
    requires RankedOrder(s) && ScoredFrom(row, s)
    ensures var ps := Positions(s);
      && (forall k :: 0 <= k < |ps| ==> ps[k] < |row|)
      && (forall i, j :: 0 <= i < j < |ps| ==> ps[i] != ps[j])
      && (forall i, j :: 0 <= i < j < |ps| ==>
            row[ps[i]] > row[ps[j]] || (row[ps[i]] == row[ps[j]] && ps[i] < ps[j]))
  {
    var ps := Positions(s);
    forall i, j | 0 <= i < j < |ps|
      ensures row[ps[i]] > row[ps[j]] || (row[ps[i]] == row[ps[j]] && ps[i] < ps[j])
    {
      assert Before(s[i], s[j]);
    }
  }

  /** Python's `s[lo:hi]` for non-negative bounds. */
  function Slice<T>(s: seq<T>, lo: nat, hi: nat): (r: seq<T>)
    ensures |r| == if Min(lo, |s|) <= Min(hi, |s|) then Min(hi, |s|) - Min(lo, |s|) else 0
    ensures forall k :: 0 <= k < |r| ==> r[k] == s[lo + k]
  {
    var a := Min(lo, |s|);
    var b := Min(hi, |s|);
    if a <= b then s[a..b] else []
  }

  /** The ranked list with its first entry removed, cut to `topN` entries. */
  function TopSimilar(row: seq<real>, topN: nat): (r: seq<Candidate>)
    ensures |r| == if |row| == 0 then 0 else Min(topN, |row| - 1)
    ensures forall k :: 0 <= k < |r| ==> r[k] == Ranked(row)[k + 1]
    ensures RankedOrder(r) && ScoredFrom(row, r)
  {
    Slice(Ranked(row), 1, topN + 1)
  }

  /** The catalog positions of a list of candidates, in order. */
  function Positions(s: seq<Candidate>): (ps: seq<nat>)
    ensures |ps| == |s|
    ensures forall k :: 0 <= k < |s| ==> ps[k] == s[k].pos
  {
    seq(|s|, k requires 0 <= k < |s| => s[k].pos)
  }

  /**
   * The recommended positions for one score row: the ranked positions after
   * the first one, cut to `topN`. There are min(topN, n - 1) of them (none for
   * an empty row), distinct and in range, the first ranked position never
   * among them, their scores non-increasing along the list and equal scores
   * in ascending position order.
   */
  function RecommendedPositions(row: seq<real>, topN: nat): (ps: seq<nat>)
    ensures |ps| == if |row| == 0 then 0 else Min(topN, |row| - 1)
    ensures |ps| == 0 <==> topN == 0 || |row| <= 1
    ensures forall k :: 0 <= k < |ps| ==> ps[k] == Ranked(row)[k + 1].pos
    ensures forall k :: 0 <= k < |ps| ==> ps[k] < |row|
    ensures forall i, j :: 0 <= i < j < |ps| ==> ps[i] != ps[j]
    ensures |row| >= 1 ==> Ranked(row)[0].pos !in ps
    ensures forall i, j :: 0 <= i < j < |ps| ==>
      row[ps[i]] > row[ps[j]] || (row[ps[i]] == row[ps[j]] && ps[i] < ps[j])
  {
    var r := Ranked(row);
    var top := TopSimilar(row, topN);
    assert RankedOrder(top) && ScoredFrom(row, top);
    RankedPositionsOrdered(row, top);
    forall k | 0 <= k < |top| ensures top[k].pos != r[0].pos {
      assert Before(r[0], r[k + 1]);
    }
    Positions(top)
  }
}
