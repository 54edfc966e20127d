/**
 * The kanban page: the board of columns it owns and every handler that
 * changes it, the tag-filtered view it renders, and the search state.
 */
module Board {
  import opened Strings
  import opened Lists
  import opened Kanban
  import opened ColumnOps
  import opened Search
  import opened Header

  // ---------------------------------------------------------------- selection

  /** `sites.every(site => site.isSelected)`: true for a column without sites. */
  predicate EverySelected(sites: seq<Site>) {
    forall j :: 0 <= j < |sites| ==> sites[j].isSelected
  }

  function SitesSelected(sites: seq<Site>, checked: bool): (r: seq<Site>)
    ensures |r| == |sites|
    ensures forall j :: 0 <= j < |r| ==> r[j] == sites[j].(isSelected := checked)
  {
    seq(|sites|, j requires 0 <= j < |sites| => sites[j].(isSelected := checked))
  }

  /** "Select all": every column and every site takes the flag; nothing else changes. */
  function SelectedAll(cols: seq<Column>, checked: bool): (r: seq<Column>)
    ensures |r| == |cols|
    ensures forall i :: 0 <= i < |r| ==>
              r[i] == cols[i].(isSelected := checked, sites := r[i].sites) && |r[i].sites| == |cols[i].sites|
    ensures forall i, j :: 0 <= i < |r| && 0 <= j < |r[i].sites| ==>
              r[i].sites[j] == cols[i].sites[j].(isSelected := checked)
  {
    seq(|cols|, i requires 0 <= i < |cols| =>
      cols[i].(isSelected := checked, sites := SitesSelected(cols[i].sites, checked)))
  }

  /** After "select all", every flag on the board has the chosen value and the counts are as they were. */
  lemma SelectAllSetsEveryFlag(cols: seq<Column>, checked: bool)
    requires CountsMatch(cols)
    ensures var r := SelectedAll(cols, checked);
            CountsMatch(r) &&
            (forall i :: 0 <= i < |r| ==> r[i].isSelected == checked) &&
            (forall i, j :: 0 <= i < |r| && 0 <= j < |r[i].sites| ==> r[i].sites[j].isSelected == checked)
  {
  }

  function SitesChecked(sites: seq<Site>, siteId: string, checked: bool): (r: seq<Site>)
    ensures |r| == |sites|
    ensures forall j :: 0 <= j < |r| && sites[j].id == siteId ==> r[j] == sites[j].(isSelected := checked)
    ensures forall j :: 0 <= j < |r| && sites[j].id != siteId ==> r[j] == sites[j]
  {
    seq(|sites|, j requires 0 <= j < |sites| =>
      if sites[j].id == siteId then sites[j].(isSelected := checked) else sites[j])
  }

  /**
   * A site's checkbox: the matching sites of the matching column take the
   * flag, and that column's own flag becomes "every site is selected".
   */
  function SiteChecked(cols: seq<Column>, columnId: string, siteId: string, checked: bool): (r: seq<Column>)
    ensures |r| == |cols|
    ensures forall i :: 0 <= i < |r| && cols[i].id != columnId ==> r[i] == cols[i]
    ensures forall i :: 0 <= i < |r| && cols[i].id == columnId ==>
              && r[i] == cols[i].(sites := r[i].sites, isSelected := EverySelected(r[i].sites))
              && r[i].sites == SitesChecked(cols[i].sites, siteId, checked)
  {
    seq(|cols|, i requires 0 <= i < |cols| =>
      if cols[i].id == columnId then
        var sites := SitesChecked(cols[i].sites, siteId, checked);
        cols[i].(sites := sites, isSelected := EverySelected(sites))
      else cols[i])
  }

  /** Unchecking a site of a column always clears the column's flag. */
  lemma UncheckClearsColumnFlag(cols: seq<Column>, i: int, siteId: string)
    requires 0 <= i < |cols| && SiteIndex(cols[i].sites, siteId) >= 0
    ensures !SiteChecked(cols, cols[i].id, siteId, false)[i].isSelected
  {
    var j := SiteIndex(cols[i].sites, siteId);
    assert !SiteChecked(cols, cols[i].id, siteId, false)[i].sites[j].isSelected;
  }

  /** Checking the only unchecked site of a column sets the column's flag. */
  lemma CheckLastSetsColumnFlag(cols: seq<Column>, i: int, siteId: string)
    requires 0 <= i < |cols|
    requires forall j :: 0 <= j < |cols[i].sites| && cols[i].sites[j].id != siteId ==> cols[i].sites[j].isSelected
    ensures SiteChecked(cols, cols[i].id, siteId, true)[i].isSelected
  {
  }

  /** The flag follows `every`, so a column without sites reads as selected. */
  lemma EmptyColumnReadsSelected(cols: seq<Column>, i: int, siteId: string, checked: bool)
    requires 0 <= i < |cols| && cols[i].sites == []
    ensures SiteChecked(cols, cols[i].id, siteId, checked)[i].isSelected
  {
  }

  // ---------------------------------------------------------------- stages

  /** The empty stage "Add New Stage" appends; its id carries the click's timestamp. */
  function NewStage(now: nat): (c: Column)
    ensures c.sites == [] && c.count == 0 && !c.isSelected && c.name == "New Stage"
  {
    Column("new-stage-" + Decimal(now), "New Stage", "gray.50", "gray.200", 0, [], false)
  }

  /** Stages added at different instants get different ids. */
  lemma NewStageIdsDiffer(now1: nat, now2: nat)
    requires now1 != now2
    ensures NewStage(now1).id != NewStage(now2).id
  {
    var p := "new-stage-";
    if NewStage(now1).id == NewStage(now2).id {
      assert Decimal(now1) == NewStage(now1).id[|p|..];
      assert Decimal(now2) == NewStage(now2).id[|p|..];
      DecimalInjective(now1, now2);
    }
  }

  // ---------------------------------------------------------------- tag filter

  /** `siteTag.toLowerCase().includes(selectedTag.toLowerCase())`. */
  predicate TagMatches(siteTag: string, selectedTag: string) {
    Contains(Lower(siteTag), Lower(selectedTag))
  }

  /** Some selected tag is contained in some tag of the site. */
  predicate HasSelectedTag(site: Site, selectedTags: seq<string>) {
    exists t, st :: t in selectedTags && st in site.tags && TagMatches(st, t)
  }

  /** `sites.filter(...)` with the tag test. */
  function SitesWithTags(sites: seq<Site>, selectedTags: seq<string>): (r: seq<Site>)
    ensures |r| <= |sites|
  {
    if sites == [] then []
    else if HasSelectedTag(sites[0], selectedTags) then [sites[0]] + SitesWithTags(sites[1..], selectedTags)
    else SitesWithTags(sites[1..], selectedTags)
  }

  /** The filter keeps exactly the matching sites: none is lost and none invented. */
  lemma {:induction false} SitesWithTagsKeeps(sites: seq<Site>, selectedTags: seq<string>)
    ensures multiset(SitesWithTags(sites, selectedTags)) <= multiset(sites)
    ensures forall s :: s in SitesWithTags(sites, selectedTags) <==> s in sites && HasSelectedTag(s, selectedTags)
  {
    if sites != [] {
      var rest := sites[1..];
      SitesWithTagsKeeps(rest, selectedTags);
      assert sites == [sites[0]] + rest;
      assert multiset(sites) == multiset{sites[0]} + multiset(rest);
      if HasSelectedTag(sites[0], selectedTags) {
        assert SitesWithTags(sites, selectedTags) == [sites[0]] + SitesWithTags(rest, selectedTags);
        assert multiset(SitesWithTags(sites, selectedTags)) == multiset{sites[0]} + multiset(SitesWithTags(rest, selectedTags));
      } else {
        assert SitesWithTags(sites, selectedTags) == SitesWithTags(rest, selectedTags);
      }
    }
  }

  /** The filter distributes over concatenation, so the kept sites stay in board order. */
  lemma {:induction false} SitesWithTagsAppend(a: seq<Site>, b: seq<Site>, selectedTags: seq<string>)
    ensures SitesWithTags(a + b, selectedTags) == SitesWithTags(a, selectedTags) + SitesWithTags(b, selectedTags)
  {
    if a == [] {
      assert a + b == b;
    } else {
      var rest := a[1..];
      assert (a + b)[0] == a[0];
      assert (a + b)[1..] == rest + b;
      SitesWithTagsAppend(rest, b, selectedTags);
      var kept := if HasSelectedTag(a[0], selectedTags) then [a[0]] else [];
      calc {
        SitesWithTags(a + b, selectedTags);
        kept + SitesWithTags(rest + b, selectedTags);
        kept + (SitesWithTags(rest, selectedTags) + SitesWithTags(b, selectedTags));
        (kept + SitesWithTags(rest, selectedTags)) + SitesWithTags(b, selectedTags);
        SitesWithTags(a, selectedTags) + SitesWithTags(b, selectedTags);
      }
    }
  }

  lemma {:induction false} SitesWithTagsIdempotent(sites: seq<Site>, selectedTags: seq<string>)
    ensures SitesWithTags(SitesWithTags(sites, selectedTags), selectedTags) == SitesWithTags(sites, selectedTags)
  {
    if sites != [] {
      SitesWithTagsIdempotent(sites[1..], selectedTags);
    }
  }

  /**
   * The view the page renders: with no tag selected, the board itself;
   * otherwise each column keeps its matching sites and counts them.
   */
  function FilteredColumns(cols: seq<Column>, selectedTags: seq<string>): (r: seq<Column>)
    ensures |r| == |cols|
    ensures |selectedTags| == 0 ==> r == cols
    ensures |selectedTags| > 0 ==> CountsMatch(r)
    ensures forall i :: 0 <= i < |r| ==>
              r[i] == cols[i].(sites := r[i].sites, count := r[i].count)
              && r[i].sites == if |selectedTags| == 0 then cols[i].sites else SitesWithTags(cols[i].sites, selectedTags)
  {
    if |selectedTags| == 0 then cols
    else
      seq(|cols|, i requires 0 <= i < |cols| =>
        var sites := SitesWithTags(cols[i].sites, selectedTags);
        cols[i].(sites := sites, count := |sites|))
  }

  /** Filtering the view again with the same tags changes nothing. */
  lemma FilterIdempotent(cols: seq<Column>, selectedTags: seq<string>)
    ensures FilteredColumns(FilteredColumns(cols, selectedTags), selectedTags) == FilteredColumns(cols, selectedTags)
  {
    var once := FilteredColumns(cols, selectedTags);
    var twice := FilteredColumns(once, selectedTags);
    forall i | 0 <= i < |cols|
      ensures twice[i] == once[i]
    {
      SitesWithTagsIdempotent(cols[i].sites, selectedTags);
    }
  }

  // ---------------------------------------------------------------- moving a site

  /** A site move does something: distinct columns that both exist, and the site is in the source. */
  predicate MoveApplies(cols: seq<Column>, siteId: string, fromId: string, toId: string) {
    && fromId != toId
    && ColumnIndex(cols, fromId) >= 0
    && ColumnIndex(cols, toId) >= 0
    && SiteIndex(cols[ColumnIndex(cols, fromId)].sites, siteId) >= 0
  }

  /**
   * A site dragged to another column: every site with that id leaves the
   * source (as a delete would), the first of them is appended to the target,
   * both counts are recomputed, and nothing else changes. Any failed lookup
   * leaves the board as it was.
   */
  function MovedSite(cols: seq<Column>, siteId: string, fromId: string, toId: string): (r: seq<Column>)
    ensures |r| == |cols|
    ensures !MoveApplies(cols, siteId, fromId, toId) ==> r == cols
    ensures MoveApplies(cols, siteId, fromId, toId) ==>
              var fi, ti := ColumnIndex(cols, fromId), ColumnIndex(cols, toId);
              var site := cols[fi].sites[SiteIndex(cols[fi].sites, siteId)];
              && fi != ti
              && (forall k :: 0 <= k < |r| && k != fi && k != ti ==> r[k] == cols[k])
              && r[fi] == DeleteSite(cols[fi], siteId)
              && r[ti] == cols[ti].(sites := cols[ti].sites + [site], count := |cols[ti].sites| + 1)
  {
    if !MoveApplies(cols, siteId, fromId, toId) then cols
    else
      var fi, ti := ColumnIndex(cols, fromId), ColumnIndex(cols, toId);
      var site := cols[fi].sites[SiteIndex(cols[fi].sites, siteId)];
      var source := DeleteSite(cols[fi], siteId);
      var target := cols[ti].(sites := cols[ti].sites + [site], count := |cols[ti].sites| + 1);
      cols[fi := source][ti := target]
  }

  /**
   * A move keeps every column in its place under its id, and recomputes no
   * column's selection flag, not even when the moved site is unselected.
   */
  lemma MoveSiteKeepsIdsAndFlags(cols: seq<Column>, siteId: string, fromId: string, toId: string)
    ensures var r := MovedSite(cols, siteId, fromId, toId);
            forall k :: 0 <= k < |r| ==> r[k].id == cols[k].id && r[k].isSelected == cols[k].isSelected
  {
    if MoveApplies(cols, siteId, fromId, toId) {
      var fi := ColumnIndex(cols, fromId);
      var source := DeleteSite(cols[fi], siteId);
      assert source.id == cols[fi].id && source.isSelected == cols[fi].isSelected;
    }
  }

  /** A move keeps every column's count equal to its length. */
  lemma MoveSiteKeepsCounts(cols: seq<Column>, siteId: string, fromId: string, toId: string)
    requires CountsMatch(cols)
    ensures CountsMatch(MovedSite(cols, siteId, fromId, toId))
  {
  }

  /** No site but the first with this id carries it. */
  predicate UniqueSiteId(sites: seq<Site>, id: string) {
    forall k :: 0 <= k < |sites| && sites[k].id == id ==> k == SiteIndex(sites, id)
  }

  lemma MultisetCancel(a: multiset<Site>, b: multiset<Site>, c: multiset<Site>)
    requires a + c == b + c
    ensures a == b
  {
    forall e
      ensures a[e] == b[e]
    {
      assert (a + c)[e] == (b + c)[e];
    }
  }

  /** Taking a site out of one column and appending it to another keeps the board's sites. */
  lemma {:induction false} TransferKeepsSites(cols: seq<Column>, fi: int, ti: int, source: Column, target: Column, x: Site)
    requires 0 <= fi < |cols| && 0 <= ti < |cols| && fi != ti
    requires multiset(cols[fi].sites) == multiset(source.sites) + multiset{x}
    requires target.sites == cols[ti].sites + [x]
    ensures multiset(AllSites(cols[fi := source][ti := target])) == multiset(AllSites(cols))
  {
    var mid := cols[fi := source];
    AllSitesUpdate(cols, fi, source);
    AllSitesUpdate(mid, ti, target);
    assert mid[ti] == cols[ti];
    var all, before, after := multiset(AllSites(cols)), multiset(AllSites(mid)), multiset(AllSites(mid[ti := target]));
    var src, tgt, one := multiset(source.sites), multiset(cols[ti].sites), multiset{x};
    assert multiset(target.sites) == tgt + one;
    assert before + (src + one) == all + src;
    assert (before + one) + src == all + src;
    MultisetCancel(before + one, all, src);
    assert after + tgt == before + (tgt + one);
    assert after + tgt == (before + one) + tgt;
    MultisetCancel(after, before + one, tgt);
  }

  /**
   * Exactly-once ownership: when a single site of the source column carries
   * the id, the board holds the same sites after the move, and the site now
   * sits last in the target and nowhere in the source.
   */
  lemma MoveSiteKeepsEverySite(cols: seq<Column>, siteId: string, fromId: string, toId: string)
    requires MoveApplies(cols, siteId, fromId, toId)
    requires UniqueSiteId(cols[ColumnIndex(cols, fromId)].sites, siteId)
    ensures var r := MovedSite(cols, siteId, fromId, toId);
            var ti := ColumnIndex(cols, toId);
            && multiset(AllSites(r)) == multiset(AllSites(cols))
            && r[ti].sites[|r[ti].sites| - 1].id == siteId
            && SiteIndex(r[ColumnIndex(cols, fromId)].sites, siteId) == -1
  {
    var fi, ti := ColumnIndex(cols, fromId), ColumnIndex(cols, toId);
    var j := SiteIndex(cols[fi].sites, siteId);
    var site := cols[fi].sites[j];
    var source := DeleteSite(cols[fi], siteId);
    var target := cols[ti].(sites := cols[ti].sites + [site], count := |cols[ti].sites| + 1);
    var r := MovedSite(cols, siteId, fromId, toId);
    assert r == cols[fi := source][ti := target];
    TransferUniqueSite(cols, fi, ti, siteId);
  }

  /** The index form of the move: the unique site leaves column `fi` and is appended to column `ti`. */
  lemma TransferUniqueSite(cols: seq<Column>, fi: int, ti: int, siteId: string)
    requires 0 <= fi < |cols| && 0 <= ti < |cols| && fi != ti
    requires SiteIndex(cols[fi].sites, siteId) >= 0 && UniqueSiteId(cols[fi].sites, siteId)
    ensures var s := cols[fi].sites;
            var site := s[SiteIndex(s, siteId)];
            var source := DeleteSite(cols[fi], siteId);
            var target := cols[ti].(sites := cols[ti].sites + [site], count := |cols[ti].sites| + 1);
            && multiset(AllSites(cols[fi := source][ti := target])) == multiset(AllSites(cols))
            && target.sites[|target.sites| - 1].id == siteId
            && SiteIndex(source.sites, siteId) == -1
  {
    var s := cols[fi].sites;
    var j := SiteIndex(s, siteId);
    var source := DeleteSite(cols[fi], siteId);
    DeleteUniqueSite(cols[fi], siteId);
    assert source.sites == s[..j] + s[j + 1..];
    RemoveSiteMultiset(s, j);
    assert multiset(s) == multiset(source.sites) + multiset{s[j]};
    var target := cols[ti].(sites := cols[ti].sites + [s[j]], count := |cols[ti].sites| + 1);
    TransferKeepsSites(cols, fi, ti, source, target, s[j]);
    assert target.sites[|target.sites| - 1] == s[j];
  }

  /** Taking a site out of a list removes exactly that site. */
  lemma RemoveSiteMultiset(s: seq<Site>, j: int)
    requires 0 <= j < |s|
    ensures multiset(s) == multiset(s[..j] + s[j + 1..]) + multiset{s[j]}
  {
    assert s == s[..j] + [s[j]] + s[j + 1..];
  }

  // ---------------------------------------------------------------- moving a column

  function RemoveAt(s: seq<Column>, i: int): (r: seq<Column>)
    requires 0 <= i < |s|
    ensures |r| == |s| - 1
  {
    s[..i] + s[i + 1..]
  }

  /** A column move does something: two different ids, both on the board. */
  predicate ColumnMoveApplies(cols: seq<Column>, draggedId: string, targetId: string) {
    draggedId != targetId && ColumnIndex(cols, draggedId) >= 0 && ColumnIndex(cols, targetId) >= 0
  }

  /** Putting a column back in anywhere adds exactly that column. */
  lemma InsertAtMultiset(s: seq<Column>, i: int, x: Column)
    requires 0 <= i <= |s|
    ensures multiset(s[..i] + [x] + s[i..]) == multiset(s) + multiset{x}
  {
    assert s == s[..i] + s[i..];
  }

  /** Taking a column out removes exactly that column. */
  lemma RemoveAtMultiset(s: seq<Column>, i: int)
    requires 0 <= i < |s|
    ensures multiset(s) == multiset(RemoveAt(s, i)) + multiset{s[i]}
  {
    assert s == s[..i] + [s[i]] + s[i + 1..];
  }

  /** Removing a column where it was just inserted gives the list it was inserted into. */
  lemma RemoveInserted(s: seq<Column>, i: int, x: Column)
    requires 0 <= i <= |s|
    ensures RemoveAt(s[..i] + [x] + s[i..], i) == s
  {
    var r := s[..i] + [x] + s[i..];
    assert r[..i] == s[..i] && r[i + 1..] == s[i..];
    assert s == s[..i] + s[i..];
  }

  /** The column at index `di` taken out and put in again at index `ti`. */
  function Spliced(cols: seq<Column>, di: int, ti: int): seq<Column>
    requires 0 <= di < |cols| && 0 <= ti < |cols|
  {
    var rest := RemoveAt(cols, di);
    rest[..ti] + [cols[di]] + rest[ti..]
  }

  /** Taking one column out and putting it in again anywhere: same columns, and removal undoes it. */
  lemma SpliceFacts(cols: seq<Column>, di: int, ti: int)
    requires 0 <= di < |cols| && 0 <= ti < |cols|
    ensures var r := Spliced(cols, di, ti);
            multiset(r) == multiset(cols) && r[ti] == cols[di] && RemoveAt(r, ti) == RemoveAt(cols, di)
  {
    var rest := RemoveAt(cols, di);
    InsertAtMultiset(rest, ti, cols[di]);
    RemoveAtMultiset(cols, di);
    RemoveInserted(rest, ti, cols[di]);
  }

  /**
   * The dragged column is taken out and put back at the index the target
   * had BEFORE the removal; the others keep their relative order.
   */
  function MovedColumn(cols: seq<Column>, draggedId: string, targetId: string): (r: seq<Column>)
    ensures |r| == |cols| && multiset(r) == multiset(cols)
    ensures !ColumnMoveApplies(cols, draggedId, targetId) ==> r == cols
    ensures ColumnMoveApplies(cols, draggedId, targetId) ==>
              var di, ti := ColumnIndex(cols, draggedId), ColumnIndex(cols, targetId);
              r[ti] == cols[di] && RemoveAt(r, ti) == RemoveAt(cols, di)
  {
    if !ColumnMoveApplies(cols, draggedId, targetId) then cols
    else
      var di, ti := ColumnIndex(cols, draggedId), ColumnIndex(cols, targetId);
      SpliceFacts(cols, di, ti);
      Spliced(cols, di, ti)
  }

  /**
   * Because the index is taken before the removal, a column dragged to the
   * right lands just after its target, and one dragged to the left just before it.
   */
  lemma MovedColumnBesideTarget(cols: seq<Column>, draggedId: string, targetId: string)
    requires ColumnMoveApplies(cols, draggedId, targetId)
    ensures var di, ti := ColumnIndex(cols, draggedId), ColumnIndex(cols, targetId);
            var r := MovedColumn(cols, draggedId, targetId);
            (di < ti ==> r[ti - 1] == cols[ti]) && (di > ti ==> r[ti + 1] == cols[ti])
  {
    var di, ti := ColumnIndex(cols, draggedId), ColumnIndex(cols, targetId);
    var r, spliced := MovedColumn(cols, draggedId, targetId), Spliced(cols, di, ti);
    assert r == spliced;
    SpliceBeside(cols, di, ti);
    if di < ti {
      assert r[ti - 1] == spliced[ti - 1];
    } else {
      assert r[ti + 1] == spliced[ti + 1];
    }
  }

  /** The index form: reinserting at the target's old index puts the column beside the target. */
  lemma SpliceBeside(cols: seq<Column>, di: int, ti: int)
    requires 0 <= di < |cols| && 0 <= ti < |cols| && di != ti
    ensures var r := Spliced(cols, di, ti);
            (di < ti ==> r[ti - 1] == cols[ti]) && (di > ti ==> r[ti + 1] == cols[ti])
  {
    var rest := RemoveAt(cols, di);
    var r := rest[..ti] + [cols[di]] + rest[ti..];
    if di < ti {
      RemoveAtIndex(cols, di, ti - 1);
      assert r[ti - 1] == rest[ti - 1];
    } else {
      RemoveAtIndex(cols, di, ti);
      assert r[ti + 1] == rest[ti];
    }
  }

  /** The columns after a removed one move one place to the left. */
  lemma RemoveAtIndex(s: seq<Column>, i: int, k: int)
    requires 0 <= i < |s| && 0 <= k < |s| - 1
    ensures RemoveAt(s, i)[k] == if k < i then s[k] else s[k + 1]
  {
  }

  // ---------------------------------------------------------------- column write-back

  /** `onUpdateColumn`: every stored column with the given column's id is replaced by it, whole. */
  function ReplacedColumn(cols: seq<Column>, updated: Column): (r: seq<Column>)
    ensures |r| == |cols|
    ensures forall i :: 0 <= i < |r| && cols[i].id == updated.id ==> r[i] == updated
    ensures forall i :: 0 <= i < |r| && cols[i].id != updated.id ==> r[i] == cols[i]
  {
    seq(|cols|, i requires 0 <= i < |cols| => if cols[i].id == updated.id then updated else cols[i])
  }

  /** A write-back for an id the board does not hold changes nothing. */
  lemma ReplaceAbsentColumn(cols: seq<Column>, updated: Column)
    requires ColumnIndex(cols, updated.id) == -1
    ensures ReplacedColumn(cols, updated) == cols
  {
  }

  /** The three card actions a column turns into a write-back. */
  datatype CardEdit =
    | EditSite(site: Site)
    | RemoveSite(siteId: string)
    | CopySite(original: Site, now: nat)

  function ApplyEdit(column: Column, edit: CardEdit): Column {
    match edit
    case EditSite(site) => UpdateSite(column, site)
    case RemoveSite(siteId) => DeleteSite(column, siteId)
    case CopySite(original, now) => DuplicateSite(column, original, now)
  }

  /**
   * A card action as the page wires it: the column edits the column value it
   * was rendered with, which is the tag-filtered one, and that value is
   * written back over the stored column.
   */
  function EditThroughView(cols: seq<Column>, selectedTags: seq<string>, i: int, edit: CardEdit): (r: seq<Column>)
    requires 0 <= i < |cols|
    ensures |r| == |cols|
    ensures r[i] == ApplyEdit(FilteredColumns(cols, selectedTags)[i], edit)
  {
    ReplacedColumn(cols, ApplyEdit(FilteredColumns(cols, selectedTags)[i], edit))
  }

  /** With a tag filter on, deleting one visible card also erases a card the filter hides. */
  lemma ViewEditLosesHiddenSite()
    ensures var shown := Site("a", "1 Main St", "", "", ["Commercial"], "", 0, 0, false, false);
            var hidden := Site("b", "2 Main St", "", "", [], "", 0, 0, false, false);
            var cols := [Column("c", "Stage", "", "", 2, [shown, hidden], false)];
            EditThroughView(cols, ["Commercial"], 0, RemoveSite("a"))[0].sites == []
  {
    var shown := Site("a", "1 Main St", "", "", ["Commercial"], "", 0, 0, false, false);
    var hidden := Site("b", "2 Main St", "", "", [], "", 0, 0, false, false);
    var cols := [Column("c", "Stage", "", "", 2, [shown, hidden], false)];
    assert StartsWith(Lower("Commercial"), Lower("Commercial"));
    assert HasSelectedTag(shown, ["Commercial"]) by {
      assert "Commercial" in ["Commercial"] && "Commercial" in shown.tags;
    }
    assert !HasSelectedTag(hidden, ["Commercial"]);
    assert [shown, hidden][1..] == [hidden];
    assert SitesWithTags([shown, hidden], ["Commercial"]) == [shown];
  }

  /** The write-back as evidently intended: the card action edits the stored column. */
  function EditStored(cols: seq<Column>, i: int, edit: CardEdit): (r: seq<Column>)
    requires 0 <= i < |cols|
    ensures |r| == |cols|
    ensures r[i] == ApplyEdit(cols[i], edit)
  {
    ReplacedColumn(cols, ApplyEdit(cols[i], edit))
  }

  /** Deleting through the intended write-back keeps every other site of the column, hidden or not. */
  lemma StoredDeleteKeepsOtherSites(cols: seq<Column>, i: int, siteId: string, s: Site)
    requires 0 <= i < |cols| && s in cols[i].sites && s.id != siteId
    ensures s in EditStored(cols, i, RemoveSite(siteId))[i].sites
  {
    SitesWithoutKeeps(cols[i].sites, siteId);
  }

  /** Without a tag filter the two write-backs coincide. */
  lemma UnfilteredEditsAgree(cols: seq<Column>, i: int, edit: CardEdit)
    requires 0 <= i < |cols|
    ensures EditThroughView(cols, [], i, edit) == EditStored(cols, i, edit)
  {
  }

  // ---------------------------------------------------------------- the handlers' updaters

  /**
   * The body of `handleMoveSite` with the state updater it passes to
   * `setColumns`, step by step on a copy of the previous columns.
   */
  method MoveSiteUpdate(prevColumns: seq<Column>, siteId: string, fromColumnId: string, toColumnId: string)
    returns (newColumns: seq<Column>)
    ensures newColumns == MovedSite(prevColumns, siteId, fromColumnId, toColumnId)
  {
    newColumns := prevColumns;
    if fromColumnId == toColumnId {
      return;
    }
    var fromIndex := ColumnIndex(newColumns, fromColumnId);
    var toIndex := ColumnIndex(newColumns, toColumnId);
    if fromIndex == -1 || toIndex == -1 {
      return;
    }
    var fromColumn := newColumns[fromIndex];
    var toColumn := newColumns[toIndex];
    var siteIndex := SiteIndex(fromColumn.sites, siteId);
    if siteIndex == -1 {
      return;
    }
    var siteToMove := fromColumn.sites[siteIndex];
    fromColumn := fromColumn.(sites := SitesWithout(fromColumn.sites, siteId));
    toColumn := toColumn.(sites := toColumn.sites + [siteToMove]);
    fromColumn := fromColumn.(count := |fromColumn.sites|);
    toColumn := toColumn.(count := |toColumn.sites|);
    assert fromColumn == DeleteSite(prevColumns[fromIndex], siteId);
    assert toColumn == prevColumns[toIndex].(sites := prevColumns[toIndex].sites + [siteToMove],
                                             count := |prevColumns[toIndex].sites| + 1);
    newColumns := newColumns[fromIndex := fromColumn];
    newColumns := newColumns[toIndex := toColumn];
  }

  /**
   * The body of `handleMoveColumn` with its updater: the dragged column is
   * spliced out, then spliced in at the index found before the removal.
   */
  method MoveColumnUpdate(prevColumns: seq<Column>, draggedColumnId: string, targetColumnId: string)
    returns (newColumns: seq<Column>)
    ensures newColumns == MovedColumn(prevColumns, draggedColumnId, targetColumnId)
  {
    newColumns := prevColumns;
    if draggedColumnId == targetColumnId {
      return;
    }
    var draggedIndex := ColumnIndex(newColumns, draggedColumnId);
    var targetIndex := ColumnIndex(newColumns, targetColumnId);
    if draggedIndex == -1 || targetIndex == -1 {
      return;
    }
    var dragged := newColumns[draggedIndex];
    newColumns := newColumns[..draggedIndex] + newColumns[draggedIndex + 1..];
    newColumns := newColumns[..targetIndex] + [dragged] + newColumns[targetIndex..];
  }

  // ---------------------------------------------------------------- the page

  /**
   * The page's state. Columns are values; each handler replaces what it
   * changes, and its `modifies` clause names the only fields it may touch.
   */
  class Page {
    var columns: seq<Column>
    var selectedTags: seq<string>
    var searchTerm: string
    var searchResults: seq<SearchResult>
    var highlighted: set<string>
    var allSelected: bool

    /**
     * The tag selection never holds a tag twice: it starts empty and changes
     * only through the toggle, which removes a selected tag and appends one
     * that is absent.
     */
    ghost predicate Valid()
      reads this
    {
      NoDuplicates(selectedTags)
    }

    constructor (initial: seq<Column>)
      ensures Valid()
      ensures columns == initial && selectedTags == [] && searchTerm == ""
      ensures searchResults == [] && highlighted == {} && !allSelected
    {
      columns := initial;
      selectedTags := [];
      searchTerm := "";
      searchResults := [];
      highlighted := {};
      allSelected := false;
    }

    /** What the columns are rendered from. */
    function View(): seq<Column>
      reads this
    {
      FilteredColumns(columns, selectedTags)
    }

    /** `handleSearch`: stores the term; a blank term also clears the results. */
    method HandleSearch(term: string)
      modifies this`searchTerm, this`searchResults, this`highlighted
      ensures searchTerm == term
      ensures IsBlank(term) ==> searchResults == [] && highlighted == {}
      ensures !IsBlank(term) ==> searchResults == old(searchResults) && highlighted == old(highlighted)
    {
      searchTerm := term;
      if IsBlank(term) {
        searchResults := [];
        highlighted := {};
      }
    }

    /** `executeSearch` over the stored (unfiltered) columns. */
    method ExecuteSearch()
      modifies this`searchResults, this`highlighted
      ensures IsBlank(searchTerm) ==> searchResults == [] && highlighted == {}
      ensures !IsBlank(searchTerm) ==> searchResults == BoardHits(columns, Needle(searchTerm))
      ensures highlighted == Keys(searchResults)
    {
      searchResults, highlighted := RunSearch(columns, searchTerm);
    }

    /** A key pressed in the search box: Enter runs the search, any other key does nothing. */
    method KeyPress(key: string)
      modifies this`searchResults, this`highlighted
      ensures !TriggersSearch(key) ==> searchResults == old(searchResults) && highlighted == old(highlighted)
      ensures TriggersSearch(key) ==>
                && (IsBlank(searchTerm) ==> searchResults == [])
                && (!IsBlank(searchTerm) ==> searchResults == BoardHits(columns, Needle(searchTerm)))
                && highlighted == Keys(searchResults)
    {
      if TriggersSearch(key) {
        ExecuteSearch();
      }
    }

    /** `clearSearch`. */
    method ClearSearch()
      modifies this`searchTerm, this`searchResults, this`highlighted
      ensures searchTerm == [] && searchResults == [] && highlighted == {}
    {
      searchTerm := "";
      searchResults := [];
      highlighted := {};
    }

    /** `handleSelectAll`. */
    method SelectAll(checked: bool)
      modifies this`allSelected, this`columns
      ensures allSelected == checked && columns == SelectedAll(old(columns), checked)
    {
      allSelected := checked;
      columns := SelectedAll(columns, checked);
    }

    /** `handleAddNewStage`, with the clock reading passed in. */
    method AddNewStage(now: nat)
      modifies this`columns
      ensures columns == old(columns) + [NewStage(now)]
    {
      columns := columns + [NewStage(now)];
    }

    /** `handleTagFilter`: the tag is removed when selected and appended otherwise. */
    method TagFilter(tag: string)
      requires Valid()
      modifies this`selectedTags
      ensures Valid()
      ensures selectedTags == Toggled(old(selectedTags), tag)
    {
      ToggledKeepsNoDuplicates(selectedTags, tag);
      selectedTags := Toggled(selectedTags, tag);
    }

    /**
     * The header's "Clear all", wired to `handleTagFilter`. On this page the
     * selection has no duplicate, so it always comes out empty.
     */
    method ClearAllTags()
      requires Valid()
      modifies this`selectedTags
      ensures Valid()
      ensures selectedTags == ToggledEach(old(selectedTags), old(selectedTags))
      ensures selectedTags == []
    {
      selectedTags := Header.ClearAllTags(selectedTags);
    }

    /** `handleMoveSite`. */
    method MoveSite(siteId: string, fromColumnId: string, toColumnId: string)
      modifies this`columns
      ensures columns == MovedSite(old(columns), siteId, fromColumnId, toColumnId)
    {
      columns := MoveSiteUpdate(columns, siteId, fromColumnId, toColumnId);
    }

    /** A card dropped on the column with id `columnId`, forwarded to the site move. */
    method DropCard(item: DragItem, handledByNested: bool, columnId: string)
      modifies this`columns
      ensures handledByNested ==> columns == old(columns)
      ensures !handledByNested ==> columns == MovedSite(old(columns), item.id, item.columnId, columnId)
    {
      var request := Drop(item, handledByNested, columnId);
      if request.Some? {
        MoveSite(request.value.siteId, request.value.fromColumnId, request.value.toColumnId);
      }
    }

    /** `handleMoveColumn`. */
    method MoveColumn(draggedColumnId: string, targetColumnId: string)
      modifies this`columns
      ensures columns == MovedColumn(old(columns), draggedColumnId, targetColumnId)
    {
      columns := MoveColumnUpdate(columns, draggedColumnId, targetColumnId);
    }

    /** `handleSiteCheckboxChange`. */
    method SiteCheckboxChange(columnId: string, siteId: string, isChecked: bool)
      modifies this`columns
      ensures columns == SiteChecked(old(columns), columnId, siteId, isChecked)
    {
      columns := SiteChecked(columns, columnId, siteId, isChecked);
    }

    /** The `onUpdateColumn` callback each column receives. */
    method UpdateColumn(updated: Column)
      modifies this`columns
      ensures columns == ReplacedColumn(old(columns), updated)
    {
      columns := ReplacedColumn(columns, updated);
    }

    /**
     * A card edit from the column rendered at index `i`: the column edits the
     * tag-filtered value it was rendered with, and `onUpdateColumn` stores the
     * result over the stored column.
     */
    method EditCard(i: int, edit: CardEdit)
      requires 0 <= i < |columns|
      modifies this`columns
      ensures columns == EditThroughView(old(columns), selectedTags, i, edit)
    {
      UpdateColumn(ApplyEdit(View()[i], edit));
    }
  }
}
