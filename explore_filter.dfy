/**
  * The page-level filter state of the explore page: the `?category=` name it
  * was opened with, the selected category id, and whether the name matched
  * nothing (in which case no prompts are fetched).
  */
module ExploreFilter {
  import opened Wrappers
  import opened Text
  import opened CategoryIndex
  import opened ExploreCategories

  /** The two names are equal once lower-cased. */
  predicate SameNameIgnoringCase(a: string, b: string) {
    LowerAscii(a) == LowerAscii(b)
  }

  /** `categories.find(...)` by lower-cased name, as the index of the entry found. */
  function FindByName(categories: seq<CategorySummary>, filter: string): (r: Option<nat>)
    ensures r.Some? ==> r.value < |categories| && SameNameIgnoringCase(categories[r.value].name, filter)
    ensures r.Some? ==> forall j :: 0 <= j < r.value ==> !SameNameIgnoringCase(categories[j].name, filter)
    ensures r.None? <==> forall j :: 0 <= j < |categories| ==> !SameNameIgnoringCase(categories[j].name, filter)
  {
    if categories == [] then None
    else if SameNameIgnoringCase(categories[0].name, filter) then Some(0)
    else
      match FindByName(categories[1..], filter)
      case None => None
      case Some(k) =>
        assert forall j :: 1 <= j < k + 1 ==> categories[j] == categories[1..][j - 1];
        Some(k + 1)
  }

  /** `matchedCategory?.id` when truthy: the id the name filter selects, if any. */
  function MatchedId(categories: seq<CategorySummary>, filter: string): Option<string> {
    match FindByName(categories, filter)
    case Some(i) => if Truthy(categories[i].id) then categories[i].id else None
    case None => None
  }

  /**
    * The filter selects an id exactly when the first entry whose name matches
    * has a truthy id, and then it selects that id. A later entry with the same
    * lower-cased name is never consulted.
    */
  lemma MatchedIdMeaning(categories: seq<CategorySummary>, filter: string)
    ensures MatchedId(categories, filter).Some? <==>
              exists i :: 0 <= i < |categories| && SameNameIgnoringCase(categories[i].name, filter)
                && Truthy(categories[i].id)
                && forall j :: 0 <= j < i ==> !SameNameIgnoringCase(categories[j].name, filter)
    ensures MatchedId(categories, filter).Some? ==>
              MatchedId(categories, filter) == categories[FindByName(categories, filter).value].id
              && Truthy(MatchedId(categories, filter))
  {
    var r := FindByName(categories, filter);
    if r.Some? {
      var i := r.value;
      forall k | 0 <= k < |categories| && SameNameIgnoringCase(categories[k].name, filter)
        && forall j :: 0 <= j < k ==> !SameNameIgnoringCase(categories[j].name, filter)
        ensures k == i
      {
      }
    }
  }

  /** The `data-id` attribute rendered for an entry: `${category.id}`, so a null id reads "null". */
  function DataId(c: CategorySummary): string {
    if c.id.Some? then c.id.value else "null"
  }

  /** A sidebar item: the entry and whether it carries the active highlight. */
  datatype SidebarItem = SidebarItem(category: CategorySummary, active: bool)

  /** What the sidebar ends up showing. */
  datatype Sidebar = SidebarFailed | SidebarEmpty | SidebarList(allActive: bool, items: seq<SidebarItem>)

  /** What `fetchPrompts` does next: show the empty state without a call, or query by category id. */
  datatype PromptsQuery = ShowEmpty | Query(categoryId: Option<string>)

  class ExplorePage {
    /** The `category` query parameter, or "" without one, trimmed. */
    const initialCategoryFilterName: string
    var activeCategoryId: Option<string>
    var hasUnmatchedUrlFilter: bool

    constructor (categoryParam: Option<string>)
      ensures initialCategoryFilterName == Trim(OrElse(categoryParam, ""))
      ensures activeCategoryId == None && !hasUnmatchedUrlFilter
    {
      initialCategoryFilterName := Trim(OrElse(categoryParam, ""));
      activeCategoryId := None;
      hasUnmatchedUrlFilter := false;
    }

    /**
      * The URL filter step of `fetchCategories`: with a non-empty name, select
      * the id of the first entry matching it, or record that it matched nothing.
      */
    method ApplyUrlFilter(categories: seq<CategorySummary>)
      modifies this
      ensures initialCategoryFilterName == "" ==>
                activeCategoryId == old(activeCategoryId) && hasUnmatchedUrlFilter == old(hasUnmatchedUrlFilter)
      ensures initialCategoryFilterName != "" && MatchedId(categories, initialCategoryFilterName).Some? ==>
                activeCategoryId == MatchedId(categories, initialCategoryFilterName) && !hasUnmatchedUrlFilter
      ensures initialCategoryFilterName != "" && MatchedId(categories, initialCategoryFilterName).None? ==>
                activeCategoryId == old(activeCategoryId) && hasUnmatchedUrlFilter
    {
      if initialCategoryFilterName != "" {
        var found := FindByName(categories, initialCategoryFilterName);
        if found.Some? && Truthy(categories[found.value].id) {
          activeCategoryId := categories[found.value].id;
          hasUnmatchedUrlFilter := false;
        } else {
          hasUnmatchedUrlFilter := true;
        }
      }
    }

    /** The click handler of a sidebar link: `activeCategoryId = id ? id : null`, and the filter is cleared. */
    method SelectCategory(dataId: string)
      modifies this
      ensures activeCategoryId == (if dataId != "" then Some(dataId) else None)
      ensures !hasUnmatchedUrlFilter
    {
      activeCategoryId := if dataId != "" then Some(dataId) else None;
      hasUnmatchedUrlFilter := false;
    }

    /**
      * A click on the link rendered for entry `c`: its `data-id` is the id as
      * text, so an entry without an id selects the text "null" rather than
      * clearing the selection.
      */
    method ClickEntry(c: CategorySummary)
      modifies this
      ensures c.id.None? ==> activeCategoryId == Some("null")
      ensures c.id.Some? ==> activeCategoryId == (if c.id.value != "" then c.id else None)
      ensures !hasUnmatchedUrlFilter
    {
      SelectCategory(DataId(c));
    }

    /** A click on "All Categories", whose `data-id` is empty, clears the selection. */
    method ClickAll()
      modifies this
      ensures activeCategoryId == None && !hasUnmatchedUrlFilter
    {
      SelectCategory("");
    }

    /** The start of `fetchPrompts`: an unmatched URL filter shows the empty state without a query. */
    method PromptsRequest() returns (q: PromptsQuery)
      ensures q == ShowEmpty <==> hasUnmatchedUrlFilter
      ensures !hasUnmatchedUrlFilter ==> q == Query(activeCategoryId)
    {
      if hasUnmatchedUrlFilter {
        q := ShowEmpty;
      } else {
        q := Query(activeCategoryId);
      }
    }

    /**
      * `fetchCategories`: on an error the failure note; otherwise build the
      * sorted sidebar, apply the URL filter, and show the empty state or the
      * list with "All Categories" and each entry highlighted when its id is
      * the active one.
      */
    method LoadCategories(response: RpcResult, le: (string, string) -> bool) returns (view: Sidebar)
      modifies this
      ensures response.RpcError? ==> view == SidebarFailed && unchanged(this)
      ensures response.RpcData? ==> view == SidebarOf(ExploreIndex(RowsOf(response.rows), le), activeCategoryId)
      ensures response.RpcData? && initialCategoryFilterName != "" ==>
                var m := MatchedId(ExploreIndex(RowsOf(response.rows), le), initialCategoryFilterName);
                (m.Some? ==> activeCategoryId == m && !hasUnmatchedUrlFilter)
                && (m.None? ==> activeCategoryId == old(activeCategoryId) && hasUnmatchedUrlFilter)
      ensures response.RpcData? && initialCategoryFilterName == "" ==>
                activeCategoryId == old(activeCategoryId) && hasUnmatchedUrlFilter == old(hasUnmatchedUrlFilter)
    {
      if response.RpcError? {
        return SidebarFailed;
      }
      var categories := BuildCategoryIndex(response.rows, le);
      ApplyUrlFilter(categories);
      view := SidebarOf(categories, activeCategoryId);
    }
  }

  /** The sidebar for sorted entries `categories` and the active id. */
  function SidebarOf(categories: seq<CategorySummary>, active: Option<string>): (view: Sidebar)
    ensures categories == [] <==> view == SidebarEmpty
    ensures view.SidebarList? ==>
              (view.allActive <==> active.None?)
              && |view.items| == |categories|
              && forall i :: 0 <= i < |categories| ==>
                   view.items[i].category == categories[i]
                   && (view.items[i].active <==> categories[i].id == active)
  {
    if categories == [] then SidebarEmpty
    else SidebarList(active == None, seq(|categories|, i requires 0 <= i < |categories| =>
                                           SidebarItem(categories[i], categories[i].id == active)))
  }

  /**
    * On the sorted sidebar of the rows `ts`: when exactly one label matches
    * the filter ignoring case, the filter selects that label's first truthy id
    * (none if no row of it has one); when no label matches, it selects nothing.
    */
  lemma FilterSelectsLabel(ts: seq<Tagged>, le: (string, string) -> bool, filter: string, n: string)
    requires n in FirstSeen(ts) && SameNameIgnoringCase(n, filter)
    requires forall m :: m in FirstSeen(ts) && SameNameIgnoringCase(m, filter) ==> m == n
    ensures MatchedId(SortedSummaries(ts, le), filter) == FirstIdNamed(ts, n)
  {
    var idx := SortedSummaries(ts, le);
    SidebarEntries(ts, le);
    FirstIdIsEarliest(ts, n);
    var i :| 0 <= i < |idx| && idx[i].name == n;
    var k := FindByName(idx, filter).value;
    assert idx[k].name == n;
    assert idx[k] == SummaryOf(ts, n);
    if FirstIdNamed(ts, n).Some? {
      var j :| 0 <= j < |ts| && ProvidesId(ts[j], n) && FirstIdNamed(ts, n) == ts[j].id;
    }
  }

  /** A filter matching no label, ignoring case, selects nothing, so the page enters the unmatched state. */
  lemma FilterWithoutLabel(ts: seq<Tagged>, le: (string, string) -> bool, filter: string)
    requires forall m :: m in FirstSeen(ts) ==> !SameNameIgnoringCase(m, filter)
    ensures MatchedId(SortedSummaries(ts, le), filter).None?
  {
    SidebarEntries(ts, le);
  }
}
