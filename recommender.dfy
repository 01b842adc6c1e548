/**
 * Content-based recommendation for one product name: look the name up,
 * take that product's row of the item-by-item similarity matrix, rank it,
 * and return the display columns of the recommended rows in rank order.
 */
module Recommender {
  import opened Wrappers
  import opened Catalog
  import opened Ranking

  /** What a recommendation request yields. */
  datatype Outcome = NotFound | Recommended(rows: seq<Details>) {

    /** The data frame handed back to the caller: empty when the name was not found. */
    function Frame(): (f: seq<Details>)
      ensures NotFound? ==> f == []
      ensures Recommended? ==> f == rows
    {
      if NotFound? then [] else rows
    }
  }

  /** `sim` is an n-by-n matrix: one score row per catalog row, one score per catalog row. */
  predicate SquareMatrix(sim: seq<seq<real>>, n: nat)
  {
    |sim| == n && forall i :: 0 <= i < n ==> |sim[i]| == n
  }

  /**
   * The recommendation as the code computes it. An unknown name yields
   * NotFound before any ranking. Otherwise the first row carrying the name
   * selects the score row, and the k-th returned record is the catalog row
   * ranked at place k + 1 of that score row (place 0 being dropped).
   */
  function Recommend(catalog: seq<Item>, sim: seq<seq<real>>, q: string, topN: nat): (o: Outcome)
    requires SquareMatrix(sim, |catalog|)
    ensures o.NotFound? <==> Some(q) !in Names(catalog)
    ensures o.Recommended? ==>
      var row := sim[FirstIndex(Names(catalog), q)];
      && |o.rows| == Min(topN, |catalog| - 1)
      && forall k :: 0 <= k < |o.rows| ==> o.rows[k] == Project(catalog[Ranked(row)[k + 1].pos])
    ensures |o.Frame()| == 0 <==> Some(q) !in Names(catalog) || topN == 0 || |catalog| == 1
  {
    var names := Names(catalog);
    if Some(q) !in names then NotFound
    else
      var qi := FirstIndex(names, q);
      Recommended(Rows(catalog, RecommendedPositions(sim[qi], topN)))
  }

  /**
   * The query row is not excluded by identity: whatever ranks first is
   * dropped. When the query's own score is the row maximum (as a cosine
   * self-similarity is), the query position is returned only if an earlier
   * position ties that maximum, and with a large enough `topN` it then is.
   */
  lemma QueryExcludedOnlyWithoutEarlierTie(row: seq<real>, qi: nat, topN: nat)
    requires qi < |row|
    requires forall j :: 0 <= j < |row| ==> row[j] <= row[qi]
    ensures qi in RecommendedPositions(row, topN) ==>
      exists j :: 0 <= j < qi && row[j] == row[qi]
    ensures (exists j :: 0 <= j < qi && row[j] == row[qi]) && topN + 1 >= |row| ==>
      qi in RecommendedPositions(row, topN)
  {
    var r := Ranked(row);
    var ps := RecommendedPositions(row, topN);
    FirstRankedIsFirstMaximum(row);
    var p := r[0].pos;
    if qi in ps {
      assert p != qi;
      assert row[p] == row[qi];
      assert p < qi;
    }
    if (exists j :: 0 <= j < qi && row[j] == row[qi]) && topN + 1 >= |row| {
      var j :| 0 <= j < qi && row[j] == row[qi];
      assert p <= j;
      assert Candidate(qi, row[qi]) in r;
      var k :| 0 <= k < |r| && r[k] == Candidate(qi, row[qi]);
      assert k != 0;
      assert ps[k - 1] == qi;
    }
  }

  /** A two-row catalog whose second row has empty tags, so its similarity row is all zero. */
  function EmptyTagsCatalog(): seq<Item>
  {
    [ Item(Some("A"), "red shoe", 3, "Acme", "a.png", 4.5),
      Item(Some("B"), "", 1, "Acme", "b.png", 3.0) ]
  }

  /** Asking for "B" in EmptyTagsCatalog returns "B" itself and drops "A". */
  lemma QueryRecommendedToItself()
    ensures Recommend(EmptyTagsCatalog(), [[1.0, 0.0], [0.0, 0.0]], "B", 10)
      == Recommended([Project(EmptyTagsCatalog()[1])])
  {
    var catalog := EmptyTagsCatalog();
    var names := Names(catalog);
    assert names == [Some("A"), Some("B")];
    assert FirstIndex(names, "B") == 1;
    var row := [0.0, 0.0];
    var expected := [Candidate(0, 0.0), Candidate(1, 0.0)];
    assert Enumerate(row) == expected;
    RankedUnique(row, expected);
    var ps := RecommendedPositions(row, 10);
    assert |ps| == 1 && ps[0] == 1;
    assert ps == [1];
    assert Rows(catalog, ps) == [Project(catalog[1])];
  }

  /** The candidates of `s` other than the one at position `p`, in order. */
  function Without(s: seq<Candidate>, p: nat): (r: seq<Candidate>)
    ensures forall c :: c in r <==> c in s && c.pos != p
  {
    if s == [] then []
    else if s[0].pos == p then Without(s[1..], p)
    else
      assert s == [s[0]] + s[1..];
      [s[0]] + Without(s[1..], p)
  }

  /** When only `s[k]` sits at position `p`, removing `p` removes exactly `s[k]`. */
  lemma {:induction false} WithoutOne(s: seq<Candidate>, p: nat, k: nat)
    requires k < |s| && s[k].pos == p
    requires forall i :: 0 <= i < |s| && i != k ==> s[i].pos != p
    ensures Without(s, p) == s[..k] + s[k + 1..]
  {
    if k == 0 {
      WithoutNone(s[1..], p);
    } else {
      WithoutOne(s[1..], p, k - 1);
      assert s[1..][..k - 1] + s[1..][k..] == s[1..k] + s[k + 1..];
      assert [s[0]] + s[1..k] == s[..k];
    }
  }

  lemma {:induction false} WithoutNone(s: seq<Candidate>, p: nat)
    requires forall i :: 0 <= i < |s| ==> s[i].pos != p
    ensures Without(s, p) == s
  {
    if s != [] {
      WithoutNone(s[1..], p);
    }
  }

  /**
   * The evidently intended selection: remove the query position by identity,
   * then keep the first `topN` of what remains.
   */
  function RecommendedPositionsExcludingSelf(row: seq<real>, qi: nat, topN: nat): (ps: seq<nat>)
    ensures |ps| == Min(topN, |Without(Ranked(row), qi)|)
    ensures forall k :: 0 <= k < |ps| ==> ps[k] == Without(Ranked(row), qi)[k].pos
  {
    var rest := Without(Ranked(row), qi);
    Positions(rest[..Min(topN, |rest|)])
  }

  /**
   * The corrected selection never returns the query position, returns
   * min(topN, n - 1) positions in range, in ranked order, and every other
   * position it leaves out ranks after every position it returns: it keeps
   * the best-ranked positions other than the query.
   */
  lemma ExcludingSelfSpec(row: seq<real>, qi: nat, topN: nat)
    requires qi < |row|
    ensures var ps := RecommendedPositionsExcludingSelf(row, qi, topN);
      && qi !in ps
      && |ps| == Min(topN, |row| - 1)
      && (forall k :: 0 <= k < |ps| ==> ps[k] < |row|)
      && (forall i, j :: 0 <= i < j < |ps| ==>
            row[ps[i]] > row[ps[j]] || (row[ps[i]] == row[ps[j]] && ps[i] < ps[j]))
      && (forall p, k :: 0 <= p < |row| && p != qi && p !in ps && 0 <= k < |ps| ==>
            Before(Candidate(ps[k], row[ps[k]]), Candidate(p, row[p])))
  {
    var r := Ranked(row);
    var k := RankOf(row, qi);
    WithoutOne(r, qi, k);
    var rest := Without(r, qi);
    assert |rest| == |row| - 1;
    RemoveAtKeepsRanking(row, r, k);
    var kept := rest[..Min(topN, |rest|)];
    assert RankedOrder(kept) && ScoredFrom(row, kept);
    RankedPositionsOrdered(row, kept);
    var ps := Positions(kept);
    forall m | 0 <= m < |ps| ensures ps[m] != qi {
      assert kept[m] in rest;
    }
    forall p, m | 0 <= p < |row| && p != qi && p !in ps && 0 <= m < |ps|
      ensures Before(Candidate(ps[m], row[ps[m]]), Candidate(p, row[p]))
    {
      assert Candidate(p, row[p]) in r;
      PrefixRanksFirst(row, rest, |kept|, m, Candidate(p, row[p]));
    }
  }

  /**
   * In a ranked list, a candidate outside the first `len` positions ranks
   * after every candidate inside them.
   */
  lemma PrefixRanksFirst(row: seq<real>, s: seq<Candidate>, len: nat, m: nat, c: Candidate)
    requires RankedOrder(s) && ScoredFrom(row, s)
    requires m < len <= |s|
    requires c in s && c.pos !in Positions(s[..len])
    ensures Before(s[m], c)
  {
    var j :| 0 <= j < |s| && s[j] == c;
    assert j >= len;
  }

  /** The place of position `p` in the ranking; no other place holds `p`. */
  lemma RankOf(row: seq<real>, p: nat) returns (k: nat)
    requires p < |row|
    ensures k < |Ranked(row)| && Ranked(row)[k] == Candidate(p, row[p])
    ensures forall i :: 0 <= i < |Ranked(row)| && i != k ==> Ranked(row)[i].pos != p
  {
    var r := Ranked(row);
    assert Candidate(p, row[p]) in r;
    k :| 0 <= k < |r| && r[k] == Candidate(p, row[p]);
    forall i | 0 <= i < |r| && i != k ensures r[i].pos != p {
      if i < k { assert Before(r[i], r[k]); } else { assert Before(r[k], r[i]); }
    }
  }

  /** Removing one element of a ranked, scored list keeps it ranked and scored. */
  lemma RemoveAtKeepsRanking(row: seq<real>, s: seq<Candidate>, k: nat)
    requires k < |s| && RankedOrder(s) && ScoredFrom(row, s)
    ensures RankedOrder(s[..k] + s[k + 1..]) && ScoredFrom(row, s[..k] + s[k + 1..])
  {
    var t := s[..k] + s[k + 1..];
    forall i | 0 <= i < |t| ensures t[i] == s[if i < k then i else i + 1] {
    }
    forall i, j | 0 <= i < j < |t| ensures Before(t[i], t[j]) {
      assert Before(s[if i < k then i else i + 1], s[if j < k then j else j + 1]);
    }
  }

  /**
   * Where the query's own score is a maximum and no earlier position ties
   * it, the code as written and the corrected selection agree.
   */
  lemma ExcludingSelfAgrees(row: seq<real>, qi: nat, topN: nat)
    requires qi < |row|
    requires forall j :: 0 <= j < |row| ==> row[j] <= row[qi]
    requires forall j :: 0 <= j < qi ==> row[j] < row[qi]
    ensures RecommendedPositionsExcludingSelf(row, qi, topN) == RecommendedPositions(row, topN)
  {
    var r := Ranked(row);
    FirstRankedIsFirstMaximum(row);
    var p := r[0].pos;
    assert row[p] == row[qi];
    assert p == qi;
    forall i | 0 < i < |r| ensures r[i].pos != qi {
      assert Before(r[0], r[i]);
    }
    WithoutOne(r, qi, 0);
  }

  /**
   * Recommendation with the query row removed by identity. The result never
   * contains the query's own record position.
   */
  function RecommendExcludingSelf(catalog: seq<Item>, sim: seq<seq<real>>, q: string, topN: nat): (o: Outcome)
    requires SquareMatrix(sim, |catalog|)
    ensures o.NotFound? <==> Some(q) !in Names(catalog)
    ensures o.Recommended? ==>
      var qi := FirstIndex(Names(catalog), q);
      var ps := RecommendedPositionsExcludingSelf(sim[qi], qi, topN);
      && qi !in ps
      && |o.rows| == |ps| == Min(topN, |catalog| - 1)
      && forall k :: 0 <= k < |ps| ==> o.rows[k] == Project(catalog[ps[k]])
  {
    var names := Names(catalog);
    if Some(q) !in names then NotFound
    else
      var qi := FirstIndex(names, q);
      ExcludingSelfSpec(sim[qi], qi, topN);
      Recommended(Rows(catalog, RecommendedPositionsExcludingSelf(sim[qi], qi, topN)))
  }
}
