/**
 * The board's data: a site (one card) and a column (one pipeline stage),
 * and the lookups and filters over them that the page and the columns share.
 */
module Kanban {

  datatype Option<T> = None | Some(value: T)

  /** A card on the board. `comments` and `documents` are JavaScript numbers, here integers. */
  datatype Site = Site(
    id: string,
    address: string,
    secondaryAddress: string,
    description: string,
    tags: seq<string>,
    date: string,
    comments: int,
    documents: int,
    isExpanded: bool,
    isSelected: bool)

  /** A stage of the pipeline. `count` is stored, not derived: each operation sets it itself. */
  datatype Column = Column(
    id: string,
    name: string,
    color: string,
    borderColor: string,
    count: int,
    sites: seq<Site>,
    isSelected: bool)

  /** `sites.findIndex(site => site.id === id)`: the first match, or -1. */
  function SiteIndex(sites: seq<Site>, id: string): (r: int)
    ensures -1 <= r < |sites|
    ensures r >= 0 ==> sites[r].id == id && forall k :: 0 <= k < r ==> sites[k].id != id
    ensures r == -1 <==> forall k :: 0 <= k < |sites| ==> sites[k].id != id
  {
    if sites == [] then -1
    else if sites[0].id == id then 0
    else
      var k := SiteIndex(sites[1..], id);
      if k == -1 then -1 else k + 1
  }

  /** `columns.findIndex(col => col.id === id)`: the first match, or -1. */
  function ColumnIndex(cols: seq<Column>, id: string): (r: int)
    ensures -1 <= r < |cols|
    ensures r >= 0 ==> cols[r].id == id && forall k :: 0 <= k < r ==> cols[k].id != id
    ensures r == -1 <==> forall k :: 0 <= k < |cols| ==> cols[k].id != id
  {
    if cols == [] then -1
    else if cols[0].id == id then 0
    else
      var k := ColumnIndex(cols[1..], id);
      if k == -1 then -1 else k + 1
  }

  /** `sites.filter(site => site.id !== id)`. */
  function SitesWithout(sites: seq<Site>, id: string): (r: seq<Site>)
    ensures forall k :: 0 <= k < |r| ==> r[k].id != id
    ensures |r| <= |sites|
  {
    if sites == [] then []
    else if sites[0].id == id then SitesWithout(sites[1..], id)
    else [sites[0]] + SitesWithout(sites[1..], id)
  }

  /** The filter only drops sites: it keeps every site whose id differs and invents none. */
  lemma {:induction false} SitesWithoutKeeps(sites: seq<Site>, id: string)
    ensures multiset(SitesWithout(sites, id)) <= multiset(sites)
    ensures forall s :: s in sites && s.id != id ==> s in SitesWithout(sites, id)
  {
    if sites != [] {
      var rest := sites[1..];
      SitesWithoutKeeps(rest, id);
      assert sites == [sites[0]] + rest;
      assert multiset(sites) == multiset{sites[0]} + multiset(rest);
      if sites[0].id == id {
        assert SitesWithout(sites, id) == SitesWithout(rest, id);
      } else {
        assert SitesWithout(sites, id) == [sites[0]] + SitesWithout(rest, id);
        assert multiset(SitesWithout(sites, id)) == multiset{sites[0]} + multiset(SitesWithout(rest, id));
      }
    }
  }

  /** The filter distributes over concatenation: the surviving sites keep their order. */
  lemma {:induction false} SitesWithoutAppend(a: seq<Site>, b: seq<Site>, id: string)
    ensures SitesWithout(a + b, id) == SitesWithout(a, id) + SitesWithout(b, id)
  {
    if a == [] {
      assert a + b == b;
    } else {
      var rest := a[1..];
      assert (a + b)[0] == a[0];
      assert (a + b)[1..] == rest + b;
      SitesWithoutAppend(rest, b, id);
      var kept := if a[0].id == id then [] else [a[0]];
      calc {
        SitesWithout(a + b, id);
        kept + SitesWithout(rest + b, id);
        kept + (SitesWithout(rest, id) + SitesWithout(b, id));
        (kept + SitesWithout(rest, id)) + SitesWithout(b, id);
        SitesWithout(a, id) + SitesWithout(b, id);
      }
    }
  }

  lemma {:induction false} SitesWithoutAbsent(sites: seq<Site>, id: string)
    requires forall k :: 0 <= k < |sites| ==> sites[k].id != id
    ensures SitesWithout(sites, id) == sites
  {
    if sites != [] {
      SitesWithoutAbsent(sites[1..], id);
    }
  }

  /** When one site alone carries the id, the filter removes exactly that site. */
  lemma SitesWithoutUnique(sites: seq<Site>, id: string, j: int)
    requires 0 <= j < |sites| && sites[j].id == id
    requires forall k :: 0 <= k < |sites| && k != j ==> sites[k].id != id
    ensures SitesWithout(sites, id) == sites[..j] + sites[j + 1..]
  {
    var before, after := sites[..j], sites[j + 1..];
    assert sites == before + ([sites[j]] + after);
    SitesWithoutAppend(before, [sites[j]] + after, id);
    SitesWithoutAppend([sites[j]], after, id);
    assert SitesWithout([sites[j]], id) == [] by {
      assert [sites[j]][1..] == [];
    }
    SitesWithoutAbsent(before, id);
    SitesWithoutAbsent(after, id);
    calc {
      SitesWithout(sites, id);
      SitesWithout(before, id) + SitesWithout([sites[j]] + after, id);
      before + ([] + after);
      { assert [] + after == after; }
      before + after;
    }
  }

  /** Every column's stored count equals the length of its site list. */
  predicate CountsMatch(cols: seq<Column>) {
    forall i :: 0 <= i < |cols| ==> cols[i].count == |cols[i].sites|
  }

  /** Every site on the board, column by column, left to right. */
  function AllSites(cols: seq<Column>): seq<Site> {
    if cols == [] then [] else cols[0].sites + AllSites(cols[1..])
  }

  /** Replacing one column changes the board's sites by exactly that column's sites. */
  lemma {:induction false} AllSitesUpdate(cols: seq<Column>, i: int, c: Column)
    requires 0 <= i < |cols|
    ensures multiset(AllSites(cols[i := c])) + multiset(cols[i].sites)
         == multiset(AllSites(cols)) + multiset(c.sites)
  {
    if i == 0 {
      assert cols[i := c][1..] == cols[1..];
    } else {
      AllSitesUpdate(cols[1..], i - 1, c);
      assert cols[i := c][1..] == cols[1..][i - 1 := c];
      assert AllSites(cols[i := c]) == cols[0].sites + AllSites(cols[1..][i - 1 := c]);
      assert AllSites(cols) == cols[0].sites + AllSites(cols[1..]);
      calc {
        multiset(AllSites(cols[i := c])) + multiset(cols[i].sites);
        multiset(cols[0].sites) + (multiset(AllSites(cols[1..][i - 1 := c])) + multiset(cols[1..][i - 1].sites));
        multiset(cols[0].sites) + (multiset(AllSites(cols[1..])) + multiset(c.sites));
        multiset(AllSites(cols)) + multiset(c.sites);
      }
    }
  }
}
