/**
 * One column of the board: the site edits it hands back to the page, the
 * drop rule for dragged cards, and its collapse state.
 */
module ColumnOps {
  import opened Strings
  import opened Kanban

  /** The site a card edit hands back replaces every site with its id; nothing else changes. */
  function UpdateSite(column: Column, updated: Site): (r: Column)
    ensures r == column.(sites := r.sites)
    ensures |r.sites| == |column.sites|
    ensures forall j :: 0 <= j < |r.sites| && column.sites[j].id != updated.id ==> r.sites[j] == column.sites[j]
    ensures forall j :: 0 <= j < |r.sites| && column.sites[j].id == updated.id ==> r.sites[j] == updated
  {
    column.(sites := seq(|column.sites|, j requires 0 <= j < |column.sites| =>
      if column.sites[j].id == updated.id then updated else column.sites[j]))
  }

  /** An update for an id the column does not hold leaves the column as it was. */
  lemma UpdateAbsentSite(column: Column, updated: Site)
    requires SiteIndex(column.sites, updated.id) == -1
    ensures UpdateSite(column, updated) == column
  {
    assert UpdateSite(column, updated).sites == column.sites;
  }

  /**
   * Deleting a site removes every site with that id and sets the count to the
   * new length; the kept sites are the id filter's, so they keep their order.
   */
  function DeleteSite(column: Column, siteId: string): (r: Column)
    ensures r == column.(sites := r.sites, count := |r.sites|)
    ensures r.sites == SitesWithout(column.sites, siteId)
    ensures forall j :: 0 <= j < |r.sites| ==> r.sites[j].id != siteId
    ensures SiteIndex(column.sites, siteId) >= 0 <==> |r.sites| < |column.sites|
  {
    SitesWithoutAbsentOrShorter(column.sites, siteId);
    var sites := SitesWithout(column.sites, siteId);
    column.(sites := sites, count := |sites|)
  }

  lemma {:induction false} SitesWithoutAbsentOrShorter(sites: seq<Site>, id: string)
    ensures SiteIndex(sites, id) >= 0 <==> |SitesWithout(sites, id)| < |sites|
  {
    if sites != [] {
      SitesWithoutAbsentOrShorter(sites[1..], id);
    }
  }

  /** With unique ids, deleting a site is removing it at its index; the others keep their order. */
  lemma DeleteUniqueSite(column: Column, siteId: string)
    requires SiteIndex(column.sites, siteId) >= 0
    requires forall k :: 0 <= k < |column.sites| && column.sites[k].id == siteId ==> k == SiteIndex(column.sites, siteId)
    ensures var j := SiteIndex(column.sites, siteId);
            DeleteSite(column, siteId).sites == column.sites[..j] + column.sites[j + 1..]
  {
    SitesWithoutUnique(column.sites, siteId, SiteIndex(column.sites, siteId));
  }

  /** The id a duplicate gets: `${id}-copy-${now}`. */
  function CopyId(id: string, now: nat): string {
    id + "-copy-" + Decimal(now)
  }

  /** Duplicating appends one copy of the site at the end with a new id and a marked address. */
  function DuplicateSite(column: Column, site: Site, now: nat): (r: Column)
    ensures r == column.(sites := r.sites, count := |r.sites|)
    ensures |r.sites| == |column.sites| + 1 && r.sites[..|column.sites|] == column.sites
    ensures var copy := r.sites[|column.sites|];
            copy.id == CopyId(site.id, now) && copy.id != site.id &&
            copy.address == site.address + " (Copy)" &&
            copy == site.(id := copy.id, address := copy.address)
  {
    var copy := site.(id := CopyId(site.id, now), address := site.address + " (Copy)");
    assert |copy.id| > |site.id|;
    var sites := column.sites + [copy];
    column.(sites := sites, count := |sites|)
  }

  /** Copies of the same site made at different instants get different ids. */
  lemma CopyIdsDiffer(id: string, now1: nat, now2: nat)
    requires now1 != now2
    ensures CopyId(id, now1) != CopyId(id, now2)
  {
    if CopyId(id, now1) == CopyId(id, now2) {
      var p := id + "-copy-";
      assert Decimal(now1) == CopyId(id, now1)[|p|..];
      assert Decimal(now2) == CopyId(id, now2)[|p|..];
      DecimalInjective(now1, now2);
    }
  }

  /** What a dragged card carries: its site id and the id of the column it was dragged from. */
  datatype DragItem = DragItem(id: string, columnId: string, site: Site)

  /** The move a drop asks the page for. */
  datatype MoveRequest = MoveRequest(siteId: string, fromColumnId: string, toColumnId: string)

  /** A card may be dropped on any column but the one it came from. */
  predicate CanDrop(item: DragItem, columnId: string) {
    item.columnId != columnId
  }

  /**
   * The drop handler: a drop a nested target already handled does nothing;
   * any other forwards (card id, source column id, this column id).
   */
  function Drop(item: DragItem, handledByNested: bool, columnId: string): (r: Option<MoveRequest>)
    ensures r.None? <==> handledByNested
    ensures r.Some? ==> r.value.siteId == item.id && r.value.fromColumnId == item.columnId
                        && r.value.toColumnId == columnId
    ensures r.Some? && CanDrop(item, columnId) ==> r.value.fromColumnId != r.value.toColumnId
  {
    if handledByNested then None else Some(MoveRequest(item.id, item.columnId, columnId))
  }

  /**
   * A column's collapse state: the page-wide "collapse all" flag it receives
   * and its own local toggle. The reset effect keeps local off while global is on.
   */
  class CollapseState {
    var isCollapsed: bool
    var localCollapsed: bool

    ghost predicate Valid()
      reads this
    {
      isCollapsed ==> !localCollapsed
    }

    /** The column shows collapsed when either flag is set. */
    function Collapsed(): bool
      reads this
    {
      isCollapsed || localCollapsed
    }

    /** First render: local starts off, global is whatever the page passes. */
    constructor (globalCollapsed: bool)
      ensures Valid()
      ensures isCollapsed == globalCollapsed && !localCollapsed
      ensures Collapsed() == globalCollapsed
    {
      isCollapsed := globalCollapsed;
      localCollapsed := false;
    }

    /** The column's own toggle; ignored while the page collapses everything. */
    method ToggleCollapse()
      requires Valid()
      modifies this
      ensures Valid()
      ensures isCollapsed == old(isCollapsed)
      ensures old(isCollapsed) ==> localCollapsed == old(localCollapsed) && Collapsed()
      ensures !old(isCollapsed) ==> localCollapsed == !old(localCollapsed)
                                    && Collapsed() == !old(Collapsed())
    {
      if !isCollapsed {
        localCollapsed := !localCollapsed;
      }
    }

    /**
     * A new value of the page-wide flag, followed by the effect that runs when
     * it changes: turning it on resets the local toggle.
     */
    method SetGlobalCollapse(globalCollapsed: bool)
      requires Valid()
      modifies this
      ensures Valid()
      ensures isCollapsed == globalCollapsed
      ensures globalCollapsed ==> !localCollapsed && Collapsed()
      ensures !globalCollapsed ==> localCollapsed == old(localCollapsed)
      ensures old(isCollapsed) && !globalCollapsed ==> !Collapsed()
    {
      if globalCollapsed != isCollapsed {
        isCollapsed := globalCollapsed;
        if globalCollapsed {
          localCollapsed := false;
        }
      }
    }
  }
}
