/**
 * Merging of the paginated results of a source browse (popular, latest or search):
 * de-duplication of mangas by id, hiding of library entries, the `hasNextPage` flag
 * of the merged result, the flag that the last fetched page was filtered out entirely,
 * the `loadMore` guard, and the mapping of search filters to filter-change requests.
 */
module SourceMangas {
  import opened Wrappers

  // ---------------------------------------------------------------------------
  // Data model
  // ---------------------------------------------------------------------------

  /** A manga of a browse page. `title` stands for every field other than the id and the library flag. */
  datatype Manga = Manga(id: int, inLibrary: bool, title: string)

  /** The `fetchSourceManga` payload of one fetched page. */
  datatype FetchSourceManga = FetchSourceManga(mangas: seq<Manga>, hasNextPage: bool)

  /** The `data` of a page response; `fetchSourceManga` may be absent. */
  datatype PageData = PageData(fetchSourceManga: Option<FetchSourceManga>)

  /** One page of the paginated request; `data` is absent until a response arrived. */
  datatype Page = Page(isLoading: bool, data: Option<PageData>)

  /** What the browse hook hands to the screen: the page to show and the filtered-out flag. */
  datatype SourceBrowseResult = SourceBrowseResult(page: Page, filteredOutAllItemsOfFetchedPage: bool)

  /** The ids occurring in a list of mangas. */
  function Ids(s: seq<Manga>): set<int> {
    set k | 0 <= k < |s| :: s[k].id
  }

  /** No two entries share an id. */
  predicate DistinctIds(s: seq<Manga>) {
    forall i, j :: 0 <= i < j < |s| ==> s[i].id != s[j].id
  }

  /** Position `j` holds the first entry of `s` with its id. */
  ghost predicate IsFirstOccurrence(s: seq<Manga>, j: int) {
    0 <= j < |s| && forall i :: 0 <= i < j ==> s[i].id != s[j].id
  }

  /** Strictly increasing positions. */
  ghost predicate StrictlyIncreasing(idx: seq<nat>) {
    forall a, b :: 0 <= a < b < |idx| ==> idx[a] < idx[b]
  }

  // ---------------------------------------------------------------------------
  // getUniqueMangas
  // ---------------------------------------------------------------------------

  /**
   * Specification of getUniqueMangas: the input is walked from the front, and an entry
   * is kept when no entry kept so far has its id.
   */
  function UniqueMangas(s: seq<Manga>): (r: seq<Manga>) {
    if |s| == 0 then []
    else
      var kept := UniqueMangas(s[..|s| - 1]);
      if s[|s| - 1].id in Ids(kept) then kept else kept + [s[|s| - 1]]
  }

  /** The positions of the first occurrences of the ids of `s`, in increasing order. */
  ghost function FirstOccurrenceIndices(s: seq<Manga>): seq<nat> {
    if |s| == 0 then []
    else FirstOccurrenceIndices(s[..|s| - 1]) + (if IsFirstOccurrence(s, |s| - 1) then [|s| - 1] else [])
  }

  lemma IdsAppend(a: seq<Manga>, b: seq<Manga>)
    ensures Ids(a + b) == Ids(a) + Ids(b)
  {
    forall x | x in Ids(a + b) ensures x in Ids(a) + Ids(b) {
      var k :| 0 <= k < |a + b| && (a + b)[k].id == x;
      if k >= |a| { assert b[k - |a|].id == x; }
    }
    forall x | x in Ids(a) + Ids(b) ensures x in Ids(a + b) {
      if x in Ids(a) {
        var k :| 0 <= k < |a| && a[k].id == x;
        assert (a + b)[k].id == x;
      } else {
        var k :| 0 <= k < |b| && b[k].id == x;
        assert (a + b)[|a| + k].id == x;
      }
    }
  }

  lemma IdsSnoc(a: seq<Manga>, m: Manga)
    ensures Ids(a + [m]) == Ids(a) + {m.id}
  {
    IdsAppend(a, [m]);
    assert [m][0].id == m.id;
    assert Ids([m]) == {m.id};
  }

  /** getUniqueMangas loses no id and invents none. */
  lemma {:induction false} UniqueMangasIds(s: seq<Manga>)
    ensures Ids(UniqueMangas(s)) == Ids(s)
  {
    if |s| > 0 {
      var p := s[..|s| - 1];
      UniqueMangasIds(p);
      assert s == p + [s[|s| - 1]];
      IdsSnoc(p, s[|s| - 1]);
      IdsSnoc(UniqueMangas(p), s[|s| - 1]);
    }
  }

  /** The output of getUniqueMangas holds no two entries with the same id. */
  lemma {:induction false} UniqueMangasDistinct(s: seq<Manga>)
    ensures DistinctIds(UniqueMangas(s))
  {
    if |s| > 0 {
      UniqueMangasDistinct(s[..|s| - 1]);
    }
  }

  /**
   * The output of getUniqueMangas is the subsequence of its input made of the first
   * occurrence of every id: the k-th output entry is the input entry at the k-th
   * first-occurrence position, and the positions kept are exactly the first occurrences.
   */
  lemma {:induction false} UniqueMangasKeepsFirstOccurrences(s: seq<Manga>)
    ensures |FirstOccurrenceIndices(s)| == |UniqueMangas(s)|
    ensures StrictlyIncreasing(FirstOccurrenceIndices(s))
    ensures forall k :: 0 <= k < |UniqueMangas(s)| ==>
              FirstOccurrenceIndices(s)[k] < |s| && UniqueMangas(s)[k] == s[FirstOccurrenceIndices(s)[k]]
    ensures forall j :: 0 <= j < |s| ==> (j in FirstOccurrenceIndices(s) <==> IsFirstOccurrence(s, j))
  {
    if |s| > 0 {
      var n := |s| - 1;
      var p := s[..n];
      UniqueMangasKeepsFirstOccurrences(p);
      UniqueMangasIds(p);
      assert forall j :: 0 <= j < n ==> (IsFirstOccurrence(p, j) <==> IsFirstOccurrence(s, j));
      assert s[n].id in Ids(p) <==> !IsFirstOccurrence(s, n) by {
        if s[n].id in Ids(p) {
          var k :| 0 <= k < |p| && p[k].id == s[n].id;
          assert s[k].id == s[n].id;
        }
      }
    }
  }

  /** A list without duplicate ids passes through getUniqueMangas unchanged. */
  lemma {:induction false} UniqueMangasOfDistinct(s: seq<Manga>)
    requires DistinctIds(s)
    ensures UniqueMangas(s) == s
  {
    if |s| > 0 {
      var n := |s| - 1;
      UniqueMangasOfDistinct(s[..n]);
      assert s[n].id !in Ids(s[..n]);
      assert s == s[..n] + [s[n]];
    }
  }

  /** getUniqueMangas is idempotent. */
  lemma UniqueMangasIdempotent(s: seq<Manga>)
    ensures UniqueMangas(UniqueMangas(s)) == UniqueMangas(s)
  {
    UniqueMangasDistinct(s);
    UniqueMangasOfDistinct(UniqueMangas(s));
  }

  /** Every entry of the output is an entry of the input. */
  lemma {:induction false} UniqueMangasElements(s: seq<Manga>)
    ensures forall m :: m in UniqueMangas(s) ==> m in s
  {
    if |s| > 0 {
      UniqueMangasElements(s[..|s| - 1]);
    }
  }

  /** Appending entries never changes what was already kept: the old output is a prefix of the new. */
  lemma {:induction false} UniqueMangasPrefix(a: seq<Manga>, b: seq<Manga>)
    ensures UniqueMangas(a) <= UniqueMangas(a + b)
    decreases |b|
  {
    if |b| == 0 {
      assert a + b == a;
    } else {
      var b' := b[..|b| - 1];
      UniqueMangasPrefix(a, b');
      assert (a + b)[..|a + b| - 1] == a + b';
    }
  }

  /** getUniqueMangas: a record of the ids seen so far and the list of kept entries. */
  method GetUniqueMangas(mangas: seq<Manga>) returns (uniqueMangas: seq<Manga>)
    ensures uniqueMangas == UniqueMangas(mangas)
  {
    var mangaIdToManga: map<int, Manga> := map[];
    uniqueMangas := [];
    var i := 0;
    while i < |mangas|
      invariant 0 <= i <= |mangas|
      invariant uniqueMangas == UniqueMangas(mangas[..i])
      invariant mangaIdToManga.Keys == Ids(uniqueMangas)
    {
      var manga := mangas[i];
      assert mangas[..i + 1][..i] == mangas[..i];
      var isDuplicate := manga.id in mangaIdToManga;
      if !isDuplicate {
        IdsSnoc(uniqueMangas, manga);
        mangaIdToManga := mangaIdToManga[manga.id := manga];
        uniqueMangas := uniqueMangas + [manga];
      }
      i := i + 1;
    }
    assert mangas[..i] == mangas;
  }

  // ---------------------------------------------------------------------------
  // Merging the fetched pages (useSourceManga)
  // ---------------------------------------------------------------------------

  /** A page counts as loaded when it carries a `fetchSourceManga` payload. */
  predicate IsLoaded(page: Page) {
    page.data.Some? && page.data.value.fetchSourceManga.Some?
  }

  /** The mangas of a page: those of its payload, or none when the page has no payload. */
  function PageMangas(page: Page): (r: seq<Manga>)
    ensures !IsLoaded(page) ==> r == []
  {
    if IsLoaded(page) then page.data.value.fetchSourceManga.value.mangas else []
  }

  /** Whether a page announces a next page; a page without payload never does. */
  predicate PageHasNextPage(page: Page)
    ensures PageHasNextPage(page) ==> IsLoaded(page)
  {
    IsLoaded(page) && page.data.value.fetchSourceManga.value.hasNextPage
  }

  /**
   * The items a page contributes: all of them, or only those not in the library when library
   * entries are hidden, in their original order and with their repetitions.
   */
  function NonLibraryItems(items: seq<Manga>, hideLibraryEntries: bool): (r: seq<Manga>)
    ensures hideLibraryEntries ==> forall k :: 0 <= k < |r| ==> !r[k].inLibrary
    ensures !hideLibraryEntries ==> r == items
    ensures |items| == 1 ==> r == if !hideLibraryEntries || !items[0].inLibrary then items else []
    ensures forall m :: m in r <==> m in items && (!hideLibraryEntries || !m.inLibrary)
    ensures |r| == 0 <==> forall k :: 0 <= k < |items| ==> hideLibraryEntries && items[k].inLibrary
  {
    if |items| == 0 then []
    else
      var rest := NonLibraryItems(items[1..], hideLibraryEntries);
      assert items == [items[0]] + items[1..];
      if !hideLibraryEntries || !items[0].inLibrary then [items[0]] + rest else rest
  }

  /**
   * The filter works item by item and keeps the order: filtering a concatenation is
   * concatenating the filtered parts. With the single-item case of its contract this fixes
   * the result completely.
   */
  lemma {:induction false} NonLibraryItemsAppend(a: seq<Manga>, b: seq<Manga>, hideLibraryEntries: bool)
    ensures NonLibraryItems(a + b, hideLibraryEntries) == NonLibraryItems(a, hideLibraryEntries) + NonLibraryItems(b, hideLibraryEntries)
  {
    if |a| > 0 {
      assert (a + b)[1..] == a[1..] + b;
      assert (a + b)[0] == a[0];
      NonLibraryItemsAppend(a[1..], b, hideLibraryEntries);
    } else {
      assert a + b == b;
    }
  }

  /** Specification of the merge: the pages are folded in order, each step de-duplicating the list so far plus the page's items. */
  function MergedItems(pages: seq<Page>, hideLibraryEntries: bool): (r: seq<Manga>) {
    if |pages| == 0 then []
    else
      UniqueMangas(MergedItems(pages[..|pages| - 1], hideLibraryEntries)
                   + NonLibraryItems(PageMangas(pages[|pages| - 1]), hideLibraryEntries))
  }

  /** The ids of all items that survive the library filter, on any page. */
  ghost function VisibleIds(pages: seq<Page>, hideLibraryEntries: bool): set<int> {
    if |pages| == 0 then {}
    else VisibleIds(pages[..|pages| - 1], hideLibraryEntries)
         + Ids(NonLibraryItems(PageMangas(pages[|pages| - 1]), hideLibraryEntries))
  }

  /** Specification of the filtered-out flag as it stands after the last iteration of the merge. */
  predicate FilteredOutAllItemsOfFetchedPage(pages: seq<Page>, hideLibraryEntries: bool)
    requires |pages| > 0
  {
    var last := pages[|pages| - 1];
    !last.isLoading
    && |NonLibraryItems(PageMangas(last), hideLibraryEntries)| == 0
    && |PageMangas(last)| > 0
  }

  /** The merged list never holds two entries with the same id. */
  lemma MergedItemsDistinct(pages: seq<Page>, hideLibraryEntries: bool)
    ensures DistinctIds(MergedItems(pages, hideLibraryEntries))
  {
    if |pages| > 0 {
      var p := pages[..|pages| - 1];
      UniqueMangasDistinct(MergedItems(p, hideLibraryEntries)
                           + NonLibraryItems(PageMangas(pages[|pages| - 1]), hideLibraryEntries));
    }
  }

  /** With library entries hidden no merged item is in the library. */
  lemma {:induction false} MergedItemsHideLibrary(pages: seq<Page>)
    ensures forall m :: m in MergedItems(pages, true) ==> !m.inLibrary
  {
    if |pages| > 0 {
      var p := pages[..|pages| - 1];
      var input := MergedItems(p, true) + NonLibraryItems(PageMangas(pages[|pages| - 1]), true);
      MergedItemsHideLibrary(p);
      UniqueMangasElements(input);
    }
  }

  /** The merged list has exactly the ids of the items the filter lets through. */
  lemma {:induction false} MergedItemsIds(pages: seq<Page>, hideLibraryEntries: bool)
    ensures Ids(MergedItems(pages, hideLibraryEntries)) == VisibleIds(pages, hideLibraryEntries)
  {
    if |pages| > 0 {
      var p := pages[..|pages| - 1];
      var items := NonLibraryItems(PageMangas(pages[|pages| - 1]), hideLibraryEntries);
      MergedItemsIds(p, hideLibraryEntries);
      UniqueMangasIds(MergedItems(p, hideLibraryEntries) + items);
      IdsAppend(MergedItems(p, hideLibraryEntries), items);
    }
  }

  /** With library entries shown no item is dropped: every id of every page is in the merged list. */
  lemma {:induction false} MergedItemsKeepAllWhenShown(pages: seq<Page>, k: int, j: int)
    requires 0 <= k < |pages| && 0 <= j < |PageMangas(pages[k])|
    ensures PageMangas(pages[k])[j].id in Ids(MergedItems(pages, false))
  {
    MergedItemsIds(pages, false);
    VisibleIdsContainPage(pages, k, j);
  }

  lemma {:induction false} VisibleIdsContainPage(pages: seq<Page>, k: int, j: int)
    requires 0 <= k < |pages| && 0 <= j < |PageMangas(pages[k])|
    ensures PageMangas(pages[k])[j].id in VisibleIds(pages, false)
  {
    var n := |pages| - 1;
    var p := pages[..n];
    if k == n {
      var items := NonLibraryItems(PageMangas(pages[n]), false);
      assert items[j].id in Ids(items);
    } else {
      assert p[k] == pages[k];
      VisibleIdsContainPage(p, k, j);
    }
  }

  /** One step of the merge fold, on a prefix of the pages. */
  lemma MergedItemsStep(pages: seq<Page>, k: int, hideLibraryEntries: bool)
    requires 0 <= k < |pages|
    ensures MergedItems(pages[..k + 1], hideLibraryEntries)
            == UniqueMangas(MergedItems(pages[..k], hideLibraryEntries) + NonLibraryItems(PageMangas(pages[k]), hideLibraryEntries))
  {
    assert pages[..k + 1][..k] == pages[..k];
    assert pages[..k + 1][k] == pages[k];
  }

  /** Loading one more page only appends to the merged list: the list after page k is a prefix of the list after page k + 1. */
  lemma MergedItemsGrow(pages: seq<Page>, k: int, hideLibraryEntries: bool)
    requires 0 <= k < |pages|
    ensures MergedItems(pages[..k], hideLibraryEntries) <= MergedItems(pages[..k + 1], hideLibraryEntries)
  {
    MergedItemsStep(pages, k, hideLibraryEntries);
    MergedItemsDistinct(pages[..k], hideLibraryEntries);
    UniqueMangasOfDistinct(MergedItems(pages[..k], hideLibraryEntries));
    UniqueMangasPrefix(MergedItems(pages[..k], hideLibraryEntries),
                       NonLibraryItems(PageMangas(pages[k]), hideLibraryEntries));
  }

  /** More generally, the merged list over any prefix of the pages is a prefix of the merged list over a longer one. */
  lemma {:induction false} MergedItemsMonotone(pages: seq<Page>, k: int, l: int, hideLibraryEntries: bool)
    requires 0 <= k <= l <= |pages|
    ensures MergedItems(pages[..k], hideLibraryEntries) <= MergedItems(pages[..l], hideLibraryEntries)
    decreases l - k
  {
    if k < l {
      MergedItemsGrow(pages, k, hideLibraryEntries);
      MergedItemsMonotone(pages, k + 1, l, hideLibraryEntries);
    }
  }

  /** While no page is loaded the merged list is empty. */
  lemma {:induction false} MergedItemsOfUnloaded(pages: seq<Page>, hideLibraryEntries: bool)
    requires forall k :: 0 <= k < |pages| ==> !IsLoaded(pages[k])
    ensures MergedItems(pages, hideLibraryEntries) == []
  {
    if |pages| > 0 {
      MergedItemsOfUnloaded(pages[..|pages| - 1], hideLibraryEntries);
    }
  }

  /**
   * The filtered-out flag is set exactly when the last page has finished loading,
   * library entries are hidden, and that page returned items that are all in the library.
   */
  lemma FilteredOutMeansAllInLibrary(pages: seq<Page>, hideLibraryEntries: bool)
    requires |pages| > 0
    ensures FilteredOutAllItemsOfFetchedPage(pages, hideLibraryEntries) <==>
              var last := pages[|pages| - 1];
              !last.isLoading && |PageMangas(last)| > 0 && hideLibraryEntries
              && forall k :: 0 <= k < |PageMangas(last)| ==> PageMangas(last)[k].inLibrary
  {
  }

  /** The merge loop of useSourceManga together with its filtered-out flag. */
  method MergePages(pages: seq<Page>, hideLibraryEntries: bool) returns (allItems: seq<Manga>, filteredOutAllItemsOfFetchedPage: bool)
    requires |pages| > 0
    ensures allItems == MergedItems(pages, hideLibraryEntries)
    ensures filteredOutAllItemsOfFetchedPage == FilteredOutAllItemsOfFetchedPage(pages, hideLibraryEntries)
  {
    var isPageLoading := pages[|pages| - 1].isLoading;
    filteredOutAllItemsOfFetchedPage := !isPageLoading;
    allItems := [];
    var index := 0;
    while index < |pages|
      invariant 0 <= index <= |pages|
      invariant allItems == MergedItems(pages[..index], hideLibraryEntries)
      invariant index > 0 ==>
                  (filteredOutAllItemsOfFetchedPage <==>
                     !isPageLoading && index == |pages|
                     && |NonLibraryItems(PageMangas(pages[index - 1]), hideLibraryEntries)| == 0
                     && |PageMangas(pages[index - 1])| > 0)
    {
      var page := pages[index];
      var pageItems := PageMangas(page);
      var nonLibraryPageItems := NonLibraryItems(pageItems, hideLibraryEntries);
      var uniqueItems := GetUniqueMangas(allItems + nonLibraryPageItems);
      var isLastPage := !isPageLoading && |pages| == index + 1;
      filteredOutAllItemsOfFetchedPage := isLastPage && |nonLibraryPageItems| == 0 && |pageItems| > 0;
      MergedItemsStep(pages, index, hideLibraryEntries);
      allItems := uniqueItems;
      index := index + 1;
    }
    assert pages[..index] == pages;
  }

  /** The index of the last page that carries a payload, or -1 when no page does. */
  function LastLoadedIndex(pages: seq<Page>): (r: int)
    ensures -1 <= r < |pages|
    ensures r >= 0 ==> IsLoaded(pages[r])
    ensures forall k :: r < k < |pages| ==> !IsLoaded(pages[k])
  {
    if |pages| == 0 then -1
    else if IsLoaded(pages[|pages| - 1]) then |pages| - 1
    else LastLoadedIndex(pages[..|pages| - 1])
  }

  /**
   * The page handed to the screen: the last page as it is when no page is loaded; otherwise the
   * last page carrying the last loaded page's payload, with the merged items and a
   * `hasNextPage` that is false whenever a page after the last loaded one exists.
   */
  function BrowsePage(pages: seq<Page>, items: seq<Manga>): (r: Page)
    requires |pages| > 0
    ensures r.isLoading == pages[|pages| - 1].isLoading
    ensures LastLoadedIndex(pages) == -1 ==> r == pages[|pages| - 1]
    ensures LastLoadedIndex(pages) >= 0 ==> IsLoaded(r) && PageMangas(r) == items
  {
    var lastLoadedPageIndex := LastLoadedIndex(pages);
    if lastLoadedPageIndex == -1 then pages[|pages| - 1]
    else
      var lastLoaded := pages[lastLoadedPageIndex].data.value.fetchSourceManga.value;
      var hasNextPage := if |pages| > lastLoadedPageIndex + 1 then false else lastLoaded.hasNextPage;
      pages[|pages| - 1].(data := Some(PageData(Some(FetchSourceManga(items, hasNextPage)))))
  }

  /**
   * The merged result reports a next page exactly when the last page itself is loaded and
   * says that it has a next page.
   */
  lemma BrowsePageHasNextPage(pages: seq<Page>, items: seq<Manga>)
    requires |pages| > 0
    ensures PageHasNextPage(BrowsePage(pages, items)) <==> PageHasNextPage(pages[|pages| - 1])
  {
  }

  /** useSourceManga, for the pages its paginated request returned. */
  method UseSourceManga(pages: seq<Page>, hideLibraryEntries: bool) returns (result: SourceBrowseResult)
    requires |pages| > 0
    ensures result.page.isLoading == pages[|pages| - 1].isLoading
    ensures LastLoadedIndex(pages) == -1 ==> result.page == pages[|pages| - 1]
    ensures PageMangas(result.page) == MergedItems(pages, hideLibraryEntries)
    ensures PageHasNextPage(result.page) <==> PageHasNextPage(pages[|pages| - 1])
    ensures result.filteredOutAllItemsOfFetchedPage == FilteredOutAllItemsOfFetchedPage(pages, hideLibraryEntries)
  {
    var items, filteredOut := MergePages(pages, hideLibraryEntries);
    if LastLoadedIndex(pages) == -1 {
      MergedItemsOfUnloaded(pages, hideLibraryEntries);
    }
    BrowsePageHasNextPage(pages, items);
    result := SourceBrowseResult(BrowsePage(pages, items), filteredOut);
  }

  /** loadMore: the page number to request next, or none when there is no next page. */
  function LoadMore(hasNextPage: bool, lastPageNum: int): (next: Option<int>)
    ensures next.Some? <==> hasNextPage
    ensures next.Some? ==> next.value == lastPageNum + 1
  {
    if !hasNextPage then None else Some(lastPageNum + 1)
  }

  /** loadMore on the merged result asks for a page only when the last fetched page is loaded and announced a next page. */
  lemma LoadMoreOnlyAfterLoadedLastPage(pages: seq<Page>, items: seq<Manga>, lastPageNum: int)
    requires |pages| > 0
    ensures var next := LoadMore(PageHasNextPage(BrowsePage(pages, items)), lastPageNum);
            next.Some? <==> IsLoaded(pages[|pages| - 1]) && pages[|pages| - 1].data.value.fetchSourceManga.value.hasNextPage
  {
    BrowsePageHasNextPage(pages, items);
  }

  // ---------------------------------------------------------------------------
  // Search filters
  // ---------------------------------------------------------------------------

  /** A flat filter setting: its position, the name of its kind, its state and, for a grouped filter, the group's position. */
  datatype IPos<S> = IPos(position: int, kind: string, state: S, group: Option<int>)

  /** The entry of a filter change that sets the state field named by the filter's kind, at the filter's position. */
  datatype FieldChange<S> = FieldChange(position: int, kind: string, state: S)

  /** A filter-change request: a plain field change, or a change of a filter nested in the group at `position`. */
  datatype FilterChange<S> =
    | PlainChange(change: FieldChange<S>)
    | GroupedChange(position: int, groupChange: FieldChange<S>)
  {
    /** The top-level `position` of the request. */
    function Position(): int {
      match this
      case PlainChange(c) => c.position
      case GroupedChange(p, _) => p
    }
  }

  /** The mapping applied to each filter before a search request. */
  function ToFilterChange<S>(filter: IPos<S>): (r: FilterChange<S>)
    ensures r.GroupedChange? <==> filter.group.Some?
    ensures r.Position() == filter.group.GetOr(filter.position)
  {
    match filter.group
    case Some(group) => GroupedChange(group, FieldChange(filter.position, filter.kind, filter.state))
    case None => PlainChange(FieldChange(filter.position, filter.kind, filter.state))
  }

  /** The filter a change request was made from. */
  function FromFilterChange<S>(change: FilterChange<S>): IPos<S> {
    match change
    case PlainChange(c) => IPos(c.position, c.kind, c.state, None)
    case GroupedChange(group, c) => IPos(c.position, c.kind, c.state, Some(group))
  }

  /** The mapping loses nothing: the filter can be recovered from its change request. */
  lemma FilterChangeRoundTrip<S>(filter: IPos<S>)
    ensures FromFilterChange(ToFilterChange(filter)) == filter
  {
  }

  /** The mapping over the filter list, one request per filter, in order. */
  function ToFilterChanges<S>(filters: seq<IPos<S>>): (r: seq<FilterChange<S>>)
    ensures |r| == |filters|
    ensures forall k :: 0 <= k < |r| ==> FromFilterChange(r[k]) == filters[k]
  {
    if |filters| == 0 then [] else [ToFilterChange(filters[0])] + ToFilterChanges(filters[1..])
  }
}
