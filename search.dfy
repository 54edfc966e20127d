/**
 * The stage/site text search: it walks the unfiltered board left to right,
 * each column's stage name before its sites, and collects the hits in that
 * order together with the set of highlight keys.
 */
module Search {
  import opened Strings
  import opened Kanban

  datatype SearchResult =
    | StageHit(id: string, matchText: string)
    | SiteHit(id: string, columnId: string, siteId: string, matchText: string)

  /** The key the cards and columns look up to decide whether they are highlighted. */
  function HighlightKey(hit: SearchResult): string {
    match hit
    case StageHit(id, _) => "stage-" + id
    case SiteHit(_, _, siteId, _) => "site-" + siteId
  }

  /** The highlight keys of a list of hits. */
  function Keys(hits: seq<SearchResult>): set<string>
    decreases |hits|
  {
    if hits == [] then {} else Keys(hits[..|hits| - 1]) + {HighlightKey(hits[|hits| - 1])}
  }

  lemma KeysAppend(hits: seq<SearchResult>, hit: SearchResult)
    ensures Keys(hits + [hit]) == Keys(hits) + {HighlightKey(hit)}
  {
    assert (hits + [hit])[..|hits|] == hits;
  }

  /** Every hit's key is in the highlight set. */
  lemma {:induction false} KeyOfHit(hits: seq<SearchResult>, k: int)
    requires 0 <= k < |hits|
    ensures HighlightKey(hits[k]) in Keys(hits)
    decreases |hits|
  {
    var n := |hits| - 1;
    if k < n {
      KeyOfHit(hits[..n], k);
    }
  }

  /** Every key in the highlight set is the key of some hit. */
  lemma {:induction false} HitOfKey(hits: seq<SearchResult>, key: string) returns (k: int)
    requires key in Keys(hits)
    ensures 0 <= k < |hits| && HighlightKey(hits[k]) == key
    decreases |hits|
  {
    var n := |hits| - 1;
    if key == HighlightKey(hits[n]) {
      k := n;
    } else {
      k := HitOfKey(hits[..n], key);
    }
  }

  /** The highlight set is exactly the prefixed ids of the hits. */
  lemma KeysExactly(hits: seq<SearchResult>, key: string)
    ensures key in Keys(hits) <==> exists k :: 0 <= k < |hits| && HighlightKey(hits[k]) == key
  {
    if key in Keys(hits) {
      var k := HitOfKey(hits, key);
    }
    if exists k :: 0 <= k < |hits| && HighlightKey(hits[k]) == key {
      var k :| 0 <= k < |hits| && HighlightKey(hits[k]) == key;
      KeyOfHit(hits, k);
    }
  }

  /** The text searched for: the term lowercased, then trimmed. */
  function Needle(term: string): string {
    Trim(Lower(term))
  }

  /** The search is skipped exactly when the trimmed term is empty, and then the needle is empty too. */
  lemma BlankIffEmptyNeedle(term: string)
    ensures IsBlank(term) <==> Needle(term) == []
  {
    TrimEmptyIffBlank(Lower(term));
    forall i | 0 <= i < |term|
      ensures IsSpace(term[i]) <==> IsSpace(Lower(term)[i])
    {
      LowerKeepsSpace(term[i]);
    }
  }

  lemma LowerKeepsSpace(c: char)
    ensures IsSpace(LowerChar(c)) <==> IsSpace(c)
  {
    if IsUpper(c) {
      assert !IsSpace(c) && 'a' <= LowerChar(c) <= 'z';
    }
  }

  predicate Matches(text: string, needle: string) {
    Contains(Lower(text), needle)
  }

  function StageHits(column: Column, needle: string): seq<SearchResult> {
    if Matches(column.name, needle) then [StageHit(column.id, column.name)] else []
  }

  /** The hit one site contributes: itself when its lowercased address contains the needle. */
  function SiteHitOf(columnId: string, site: Site, needle: string): seq<SearchResult> {
    if Matches(site.address, needle) then [SiteHit(site.id, columnId, site.id, site.address)] else []
  }

  function SiteHits(columnId: string, sites: seq<Site>, needle: string): seq<SearchResult>
    decreases |sites|
  {
    if sites == [] then []
    else SiteHits(columnId, sites[..|sites| - 1], needle) + SiteHitOf(columnId, sites[|sites| - 1], needle)
  }

  function ColumnHits(column: Column, needle: string): seq<SearchResult> {
    StageHits(column, needle) + SiteHits(column.id, column.sites, needle)
  }

  /** The hits of the whole board, in traversal order. */
  function BoardHits(cols: seq<Column>, needle: string): seq<SearchResult>
    decreases |cols|
  {
    if cols == [] then []
    else BoardHits(cols[..|cols| - 1], needle) + ColumnHits(cols[|cols| - 1], needle)
  }

  /** `executeSearch`: empty results for a blank term, otherwise every hit in board order. */
  method RunSearch(cols: seq<Column>, term: string) returns (results: seq<SearchResult>, highlighted: set<string>)
    ensures IsBlank(term) ==> results == [] && highlighted == {}
    ensures !IsBlank(term) ==> results == BoardHits(cols, Needle(term))
    ensures highlighted == Keys(results)
  {
    results, highlighted := [], {};
    if IsBlank(term) {
      return;
    }
    var needle := Needle(term);
    var i := 0;
    while i < |cols|
      invariant 0 <= i <= |cols|
      invariant results == BoardHits(cols[..i], needle)
      invariant highlighted == Keys(results)
    {
      results, highlighted := SearchColumn(cols[i], needle, results, highlighted);
      BoardHitsStep(cols, i, needle);
      i := i + 1;
    }
    assert cols[..|cols|] == cols;
  }

  /** One more column scanned: its hits go after the hits so far. */
  lemma BoardHitsStep(cols: seq<Column>, i: int, needle: string)
    requires 0 <= i < |cols|
    ensures BoardHits(cols[..i + 1], needle) == BoardHits(cols[..i], needle) + ColumnHits(cols[i], needle)
  {
    assert cols[..i + 1][..i] == cols[..i];
  }

  /**
   * The per-column callback of the search: the stage name first, then each
   * site address in order, each hit pushed onto the results and its key added.
   */
  method SearchColumn(column: Column, needle: string, results0: seq<SearchResult>, highlighted0: set<string>)
    returns (results: seq<SearchResult>, highlighted: set<string>)
    requires highlighted0 == Keys(results0)
    ensures results == results0 + ColumnHits(column, needle)
    ensures highlighted == Keys(results)
  {
    results, highlighted := results0, highlighted0;
    if Matches(column.name, needle) {
      KeysAppend(results, StageHit(column.id, column.name));
      results := results + [StageHit(column.id, column.name)];
      highlighted := highlighted + {"stage-" + column.id};
    }
    ghost var before := results;
    var j := 0;
    assert column.sites[..0] == [];
    while j < |column.sites|
      invariant 0 <= j <= |column.sites|
      invariant results == before + SiteHits(column.id, column.sites[..j], needle)
      invariant highlighted == Keys(results)
    {
      ghost var hitsSoFar := SiteHits(column.id, column.sites[..j], needle);
      results, highlighted := ScanSite(column.id, column.sites[j], needle, results, highlighted);
      SiteHitsStep(column.id, column.sites, j, needle);
      AppendAssoc(before, hitsSoFar, SiteHitOf(column.id, column.sites[j], needle));
      j := j + 1;
    }
    assert column.sites[..|column.sites|] == column.sites;
    AppendAssoc(results0, StageHits(column, needle), SiteHits(column.id, column.sites, needle));
  }

  /** One site of the per-column callback: push its hit, if any, and add its key. */
  method ScanSite(columnId: string, site: Site, needle: string, results0: seq<SearchResult>, highlighted0: set<string>)
    returns (results: seq<SearchResult>, highlighted: set<string>)
    requires highlighted0 == Keys(results0)
    ensures results == results0 + SiteHitOf(columnId, site, needle)
    ensures highlighted == Keys(results)
  {
    results, highlighted := results0, highlighted0;
    if Matches(site.address, needle) {
      var hit := SiteHit(site.id, columnId, site.id, site.address);
      KeysAppend(results, hit);
      results := results + [hit];
      highlighted := highlighted + {"site-" + site.id};
    } else {
      assert results == results0 + [];
    }
  }

  lemma AppendAssoc(a: seq<SearchResult>, b: seq<SearchResult>, c: seq<SearchResult>)
    ensures (a + b) + c == a + (b + c)
  {
  }

  /** One more site scanned: its hit, if any, goes after the hits so far. */
  lemma SiteHitsStep(columnId: string, sites: seq<Site>, j: int, needle: string)
    requires 0 <= j < |sites|
    ensures SiteHits(columnId, sites[..j + 1], needle)
         == SiteHits(columnId, sites[..j], needle) + SiteHitOf(columnId, sites[j], needle)
  {
    assert sites[..j + 1][..j] == sites[..j];
  }

  /** Hits of two boards side by side are the hits of the left one, then of the right one. */
  lemma {:induction false} BoardHitsAppend(a: seq<Column>, b: seq<Column>, needle: string)
    ensures BoardHits(a + b, needle) == BoardHits(a, needle) + BoardHits(b, needle)
    decreases |b|
  {
    if b == [] {
      assert a + b == a;
    } else {
      var front, last := b[..|b| - 1], b[|b| - 1];
      assert (a + b)[..|a + b| - 1] == a + front;
      assert (a + b)[|a + b| - 1] == last;
      BoardHitsAppend(a, front, needle);
      calc {
        BoardHits(a + b, needle);
        BoardHits(a + front, needle) + ColumnHits(last, needle);
        (BoardHits(a, needle) + BoardHits(front, needle)) + ColumnHits(last, needle);
        { AppendAssoc(BoardHits(a, needle), BoardHits(front, needle), ColumnHits(last, needle)); }
        BoardHits(a, needle) + (BoardHits(front, needle) + ColumnHits(last, needle));
        BoardHits(a, needle) + BoardHits(b, needle);
      }
    }
  }

  /** Results follow the board: the columns before `i`, then column `i`'s own hits, then the rest. */
  lemma BoardHitsAt(cols: seq<Column>, i: int, needle: string)
    requires 0 <= i < |cols|
    ensures BoardHits(cols, needle)
         == BoardHits(cols[..i], needle) + ColumnHits(cols[i], needle) + BoardHits(cols[i + 1..], needle)
  {
    assert cols == cols[..i] + [cols[i]] + cols[i + 1..];
    BoardHitsAppend(cols[..i] + [cols[i]], cols[i + 1..], needle);
    BoardHitsAppend(cols[..i], [cols[i]], needle);
    assert BoardHits([cols[i]], needle) == ColumnHits(cols[i], needle) by {
      assert [cols[i]][..0] == [];
    }
  }

  /** A site hit of this column is a site of it whose address contains the needle. */
  lemma {:induction false} SiteHitsSound(columnId: string, sites: seq<Site>, needle: string, k: int)
    requires 0 <= k < |SiteHits(columnId, sites, needle)|
    ensures var hit := SiteHits(columnId, sites, needle)[k];
            hit.SiteHit? && hit.columnId == columnId && hit.id == hit.siteId &&
            exists j :: 0 <= j < |sites| && sites[j].id == hit.siteId && sites[j].address == hit.matchText
                        && Matches(sites[j].address, needle)
    decreases |sites|
  {
    var front := sites[..|sites| - 1];
    if k < |SiteHits(columnId, front, needle)| {
      SiteHitsSound(columnId, front, needle, k);
      var j :| 0 <= j < |front| && front[j].id == SiteHits(columnId, front, needle)[k].siteId
               && front[j].address == SiteHits(columnId, front, needle)[k].matchText
               && Matches(front[j].address, needle);
      assert sites[j] == front[j];
    } else {
      assert sites[|sites| - 1].address == SiteHits(columnId, sites, needle)[k].matchText;
    }
  }

  /** Every site of this column whose address contains the needle is reported. */
  lemma {:induction false} SiteHitsComplete(columnId: string, sites: seq<Site>, needle: string, j: int)
    requires 0 <= j < |sites| && Matches(sites[j].address, needle)
    ensures SiteHit(sites[j].id, columnId, sites[j].id, sites[j].address) in SiteHits(columnId, sites, needle)
    decreases |sites|
  {
    if j < |sites| - 1 {
      SiteHitsComplete(columnId, sites[..|sites| - 1], needle, j);
    }
  }

  /** A stage matches exactly when its lowercased name contains the needle, and it is reported. */
  lemma StageHitComplete(cols: seq<Column>, i: int, needle: string)
    requires 0 <= i < |cols| && Matches(cols[i].name, needle)
    ensures StageHit(cols[i].id, cols[i].name) in BoardHits(cols, needle)
  {
    BoardHitsAt(cols, i, needle);
  }

  /** A site of any column whose lowercased address contains the needle is reported, with its column. */
  lemma SiteHitComplete(cols: seq<Column>, i: int, j: int, needle: string)
    requires 0 <= i < |cols| && 0 <= j < |cols[i].sites| && Matches(cols[i].sites[j].address, needle)
    ensures SiteHit(cols[i].sites[j].id, cols[i].id, cols[i].sites[j].id, cols[i].sites[j].address)
            in BoardHits(cols, needle)
  {
    BoardHitsAt(cols, i, needle);
    SiteHitsComplete(cols[i].id, cols[i].sites, needle, j);
  }

  /** A hit names a stage or a site of the board that matches the needle. */
  predicate HitOnBoard(cols: seq<Column>, needle: string, hit: SearchResult) {
    match hit
    case StageHit(id, text) =>
      exists i :: 0 <= i < |cols| && cols[i].id == id && cols[i].name == text && Matches(text, needle)
    case SiteHit(id, columnId, siteId, text) =>
      id == siteId &&
      exists i, j :: 0 <= i < |cols| && 0 <= j < |cols[i].sites| && cols[i].id == columnId
                     && cols[i].sites[j].id == siteId && cols[i].sites[j].address == text
                     && Matches(text, needle)
  }

  /** A hit on some columns is still a hit once more columns follow them. */
  lemma HitOnLongerBoard(cols: seq<Column>, n: int, needle: string, hit: SearchResult)
    requires 0 <= n <= |cols| && HitOnBoard(cols[..n], needle, hit)
    ensures HitOnBoard(cols, needle, hit)
  {
    var front := cols[..n];
    match hit
    case StageHit(id, text) =>
      var i :| 0 <= i < |front| && front[i].id == id && front[i].name == text && Matches(text, needle);
      assert cols[i] == front[i];
    case SiteHit(id, columnId, siteId, text) =>
      var i, j :| 0 <= i < |front| && 0 <= j < |front[i].sites| && front[i].id == columnId
                  && front[i].sites[j].id == siteId && front[i].sites[j].address == text
                  && Matches(text, needle);
      assert cols[i] == front[i];
  }

  /** The hits of one column name that column or one of its sites. */
  lemma ColumnHitOnBoard(cols: seq<Column>, i: int, needle: string, k: int)
    requires 0 <= i < |cols| && 0 <= k < |ColumnHits(cols[i], needle)|
    ensures HitOnBoard(cols, needle, ColumnHits(cols[i], needle)[k])
  {
    var column := cols[i];
    var stage := StageHits(column, needle);
    if k >= |stage| {
      var k' := k - |stage|;
      SiteHitsSound(column.id, column.sites, needle, k');
      assert ColumnHits(column, needle)[k] == SiteHits(column.id, column.sites, needle)[k'];
    }
  }

  /** Every reported hit names a stage or a site of the board that matches the needle. */
  lemma {:induction false} BoardHitsSound(cols: seq<Column>, needle: string, k: int)
    requires 0 <= k < |BoardHits(cols, needle)|
    ensures HitOnBoard(cols, needle, BoardHits(cols, needle)[k])
    decreases |cols|
  {
    var n := |cols| - 1;
    var front := cols[..n];
    var hits := BoardHits(cols, needle);
    assert hits == BoardHits(front, needle) + ColumnHits(cols[n], needle);
    if k < |BoardHits(front, needle)| {
      BoardHitsSound(front, needle, k);
      assert hits[k] == BoardHits(front, needle)[k];
      HitOnLongerBoard(cols, n, needle, hits[k]);
    } else {
      var k' := k - |BoardHits(front, needle)|;
      assert hits[k] == ColumnHits(cols[n], needle)[k'];
      ColumnHitOnBoard(cols, n, needle, k');
    }
  }
}
