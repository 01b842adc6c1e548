/**
 * The product table: its rows, lookup of a row by name, the list of names
 * offered for selection, and the projection of rows onto the display columns.
 */
module Catalog {
  import opened Wrappers

  /** One row of the product table. `name` is None where the cell is missing. */
  datatype Item = Item(
    name: Option<string>,
    tags: string,
    reviewCount: int,
    brand: string,
    imageUrl: string,
    rating: real)

  /** The five columns returned to the caller, in the order they are selected. */
  datatype Details = Details(
    name: Option<string>,
    reviewCount: int,
    brand: string,
    imageUrl: string,
    rating: real)

  /** The `Name` column. */
  function Names(catalog: seq<Item>): (names: seq<Option<string>>)
    ensures |names| == |catalog|
    ensures forall i :: 0 <= i < |catalog| ==> names[i] == catalog[i].name
  {
    seq(|catalog|, i requires 0 <= i < |catalog| => catalog[i].name)
  }

  predicate NoDuplicates<T(==)>(s: seq<T>)
  {
    forall i, j :: 0 <= i < j < |s| ==> s[i] != s[j]
  }

  /**
   * The position of the first row carrying name `q`: the first entry of the
   * index of the rows whose name equals `q`.
   */
  function FirstIndex(names: seq<Option<string>>, q: string): (i: nat)
    requires Some(q) in names
    ensures i < |names| && names[i] == Some(q)
    ensures forall j :: 0 <= j < i ==> names[j] != Some(q)
  {
    if names[0] == Some(q) then 0 else 1 + FirstIndex(names[1..], q)
  }

  /** Appending a row does not move the first occurrence of a name already present. */
  lemma FirstIndexAppend(names: seq<Option<string>>, e: Option<string>, q: string)
    requires Some(q) in names
    ensures Some(q) in names + [e]
    ensures FirstIndex(names + [e], q) == FirstIndex(names, q)
  {
    var i := FirstIndex(names, q);
    assert (names + [e])[i] == Some(q);
    var k := FirstIndex(names + [e], q);
    assert (names + [e])[k] == names[k];
  }

  /**
   * The selectable options: the `Name` column with missing cells dropped and
   * repeated names removed, each name kept where it is first seen.
   */
  function Options(names: seq<Option<string>>): (r: seq<string>)
    ensures |r| <= |names|
    ensures forall x :: x in r ==> Some(x) in names
  {
    if names == [] then []
    else
      var rest := Options(names[..|names| - 1]);
      match names[|names| - 1]
      case None => rest
      case Some(x) => if x in rest then rest else rest + [x]
  }

  /** The options are exactly the names present, once each, in first-seen order. */
  lemma {:induction false} OptionsSpec(names: seq<Option<string>>)
    ensures NoDuplicates(Options(names))
    ensures forall x :: x in Options(names) <==> Some(x) in names
    ensures forall i, j :: 0 <= i < j < |Options(names)| ==>
      FirstIndex(names, Options(names)[i]) < FirstIndex(names, Options(names)[j])
  {
    if names != [] {
      var init := names[..|names| - 1];
      var e := names[|names| - 1];
      assert names == init + [e];
      OptionsSpec(init);
      var rest := Options(init);
      forall x | Some(x) in init
        ensures FirstIndex(names, x) == FirstIndex(init, x)
      {
        FirstIndexAppend(init, e, x);
      }
      var r := Options(names);
      match e
      case None =>
        assert r == rest;
        forall x ensures x in r <==> Some(x) in names {
          assert Some(x) in names <==> Some(x) in init || Some(x) == e;
        }
      case Some(x) =>
        forall y ensures y in r <==> Some(y) in names {
          assert Some(y) in names <==> Some(y) in init || Some(y) == e;
        }
        if x !in rest {
          assert r == rest + [x];
          assert Some(x) !in init;
          assert FirstIndex(names, x) == |init| by {
            assert names[|init|] == Some(x);
          }
          forall i | 0 <= i < |rest| ensures FirstIndex(names, r[i]) < FirstIndex(names, x) {
            assert r[i] == rest[i] && rest[i] in rest;
          }
        }
    }
  }

  /** `s` lists names present in `names`, strictly ordered by first occurrence. */
  ghost predicate FirstSeenOrdered(names: seq<Option<string>>, s: seq<string>)
  {
    && (forall x :: x in s ==> Some(x) in names)
    && (forall i, j :: 0 <= i < j < |s| ==> FirstIndex(names, s[i]) < FirstIndex(names, s[j]))
  }

  /**
   * The properties of OptionsSpec characterise the option list: any list
   * holding exactly the names present, in first-seen order, is Options(names).
   */
  lemma OptionsUnique(names: seq<Option<string>>, t: seq<string>)
    requires forall x :: x in t <==> Some(x) in names
    requires forall i, j :: 0 <= i < j < |t| ==> FirstIndex(names, t[i]) < FirstIndex(names, t[j])
    ensures t == Options(names)
  {
    OptionsSpec(names);
    SameByFirstIndex(names, Options(names), t);
  }

  lemma FirstSeenHead(names: seq<Option<string>>, s: seq<string>, x: string)
    requires FirstSeenOrdered(names, s)
    requires x in s && x != s[0]
    ensures Some(x) in names && Some(s[0]) in names
    ensures FirstIndex(names, s[0]) < FirstIndex(names, x)
  {
    var m :| 0 <= m < |s| && s[m] == x;
    assert s[0] in s;
  }

  lemma FirstSeenTail(names: seq<Option<string>>, s: seq<string>, x: string)
    requires FirstSeenOrdered(names, s) && s != []
    ensures FirstSeenOrdered(names, s[1..])
    ensures x in s[1..] <==> x in s && x != s[0]
  {
    if x in s[1..] {
      var m :| 1 <= m < |s| && s[m] == x;
      assert s[0] in s;
      assert FirstIndex(names, s[0]) < FirstIndex(names, s[m]);
    }
    if x in s && x != s[0] {
      var m :| 0 <= m < |s| && s[m] == x;
      assert s[1..][m - 1] == x;
    }
    forall y | y in s[1..] ensures Some(y) in names {
      assert y in s;
    }
  }

  /** Two first-seen-ordered lists with the same elements are equal. */
  lemma {:induction false} SameByFirstIndex(names: seq<Option<string>>, s: seq<string>, t: seq<string>)
    requires FirstSeenOrdered(names, s) && FirstSeenOrdered(names, t)
    requires forall x :: x in s <==> x in t
    ensures s == t
  {
    if s != [] {
      assert s[0] in s;
      assert t[0] in t;
      if s[0] != t[0] {
        FirstSeenHead(names, s, t[0]);
        FirstSeenHead(names, t, s[0]);
        assert false;
      }
      forall x ensures x in s[1..] <==> x in t[1..] {
        FirstSeenTail(names, s, x);
        FirstSeenTail(names, t, x);
      }
      SameByFirstIndex(names, s[1..], t[1..]);
    }
  }

  /**
   * The display columns of one row: name, review count, brand, image and
   * rating carried over unchanged; the tags are not returned.
   */
  function Project(item: Item): (d: Details)
    ensures d.name == item.name && d.reviewCount == item.reviewCount && d.brand == item.brand
    ensures d.imageUrl == item.imageUrl && d.rating == item.rating
  {
    Details(item.name, item.reviewCount, item.brand, item.imageUrl, item.rating)
  }

  /**
   * Positional selection of rows followed by the column selection: one
   * display record per requested position, in the order requested.
   */
  function Rows(catalog: seq<Item>, idx: seq<nat>): (rows: seq<Details>)
    requires forall k :: 0 <= k < |idx| ==> idx[k] < |catalog|
    ensures |rows| == |idx|
    ensures forall k :: 0 <= k < |idx| ==> rows[k] == Project(catalog[idx[k]])
  {
    if idx == [] then [] else [Project(catalog[idx[0]])] + Rows(catalog, idx[1..])
  }
}
