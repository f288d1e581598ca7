# Source browsing, tracker cards, themes and the reader page number: a Dafny model

This project models the small pieces of data-shaping logic in the manga-reading web client.
All of them are deterministic once the view framework is stripped away:

- **Source browse merging** (`SourceMangas`). A browse of a source (popular, latest or search) is fetched page by page.
  The browse hook walks the fetched pages in order. It drops library entries from each page when the user hides them. It appends the rest and removes duplicate mangas by id, keeping the first occurrence.
  It then builds the page handed to the screen. That page carries a `hasNextPage` flag and a flag saying that the last fetched page was filtered out entirely.
  The `loadMore` guard asks for the next page only when there is one.
  Search filters are mapped to plain or grouped filter-change requests.
  `getUniqueMangas` and the page merge are loops in the source. They are methods here (`GetUniqueMangas`, `MergePages`), proved equal to the recursive specification functions `UniqueMangas` and `MergedItems`. The properties are lemmas about those functions.
- **Tracker cards** (`TrackManga`). Each logged-in tracker's card is shown in search, info or untracked mode. While a search is active, only the searched tracker's card is rendered.
- **Themes** (`AppThemes`). This covers the built-in theme table and the `appThemes` list. It also covers `getTheme`, which looks an id up among built-in and custom themes (custom ones win), falls back to the default theme, and names a nameless theme by its id. The last piece is `isThemeNameUnique`, a case-insensitive clash check.
- **Reader page number** (`ReaderPageNumber`). This covers the early returns that hide the overlay, and its `current/total` label.

Files: `wrappers.dfy` (an `Option` type standing for `undefined`), `source_mangas.dfy`, `track_manga.dfy`, `app_themes.dfy`, `reader_page_number.dfy`.

Inputs that the component receives from outside are parameters of the model:
- the pages of the paginated request;
- the `hideLibraryEntries` setting;
- the logged-in trackers and the ids of the trackers in use;
- the custom themes;
- the reader settings;
- the current page's name;
- the string-reversal helper.

## Model

| member | source | states |
|---|---|---|
| SourceMangas.UniqueMangas | src/modules/source/screens/SourceMangas.tsx:80-93 | specification of `getUniqueMangas`: the input is walked from the front, and an entry is kept when no entry kept so far has its id |
| SourceMangas.GetUniqueMangas | src/modules/source/screens/SourceMangas.tsx:80-93 | the loop over a map of seen ids and a list of kept entries computes exactly `UniqueMangas` of its input |
| SourceMangas.UniqueMangasDistinct | src/modules/source/screens/SourceMangas.tsx:84-90 | no two entries of the output share an id |
| SourceMangas.UniqueMangasKeepsFirstOccurrences | src/modules/source/screens/SourceMangas.tsx:84-90 | the output is the input's subsequence at strictly increasing positions, and the positions kept are exactly the first occurrences of each id |
| SourceMangas.UniqueMangasIds | src/modules/source/screens/SourceMangas.tsx:84-90 | the output has exactly the ids of the input: none lost, none invented |
| SourceMangas.UniqueMangasOfDistinct | src/modules/source/screens/SourceMangas.tsx:84-90 | a list without duplicate ids is returned unchanged |
| SourceMangas.UniqueMangasIdempotent | src/modules/source/screens/SourceMangas.tsx:80-93 | applying the de-duplication twice equals applying it once |
| SourceMangas.UniqueMangasElements | src/modules/source/screens/SourceMangas.tsx:84-90 | every output entry is an input entry |
| SourceMangas.UniqueMangasPrefix | src/modules/source/screens/SourceMangas.tsx:84-90 | de-duplicating a list extended at the end keeps the earlier output as a prefix |
| SourceMangas.PageMangas | src/modules/source/screens/SourceMangas.tsx:161 | a page without a `fetchSourceManga` payload contributes no items |
| SourceMangas.IsLoaded | src/modules/source/screens/SourceMangas.tsx:151 | a page is loaded when it carries a `fetchSourceManga` payload, the test the last-loaded-page search applies |
| SourceMangas.PageHasNextPage | src/modules/source/screens/SourceMangas.tsx:269 | a page announces a next page only when it is loaded and its payload says so; an absent flag reads as false |
| SourceMangas.NonLibraryItems | src/modules/source/screens/SourceMangas.tsx:162 | with hiding on, no kept item is in the library; with hiding off, the items pass unchanged; a single item is kept iff it passes the filter; an item is kept iff it is an input item that passes the filter; the result is empty iff every input item is dropped (hiding on and the item in the library), which includes an empty page |
| SourceMangas.NonLibraryItemsAppend | src/modules/source/screens/SourceMangas.tsx:162 | filtering a concatenation concatenates the filtered parts, so the filter keeps order and repetitions and, with the single-item case, is fixed completely |
| SourceMangas.MergedItems | src/modules/source/screens/SourceMangas.tsx:158-170 | specification of the merge: the pages are folded in order, each step de-duplicating the list so far followed by the page's filtered items |
| SourceMangas.FilteredOutAllItemsOfFetchedPage | src/modules/source/screens/SourceMangas.tsx:154-166 | specification of the flag after the last iteration: the last page is not loading, the filter left none of its items, and it had items |
| SourceMangas.MergePages | src/modules/source/screens/SourceMangas.tsx:150-171 | the loop over the pages yields exactly `MergedItems` and `FilteredOutAllItemsOfFetchedPage` of the pages |
| SourceMangas.MergedItemsDistinct | src/modules/source/screens/SourceMangas.tsx:160-168 | the merged list holds no two mangas with the same id |
| SourceMangas.MergedItemsHideLibrary | src/modules/source/screens/SourceMangas.tsx:162 | with library entries hidden, no merged manga is in the library |
| SourceMangas.MergedItemsIds | src/modules/source/screens/SourceMangas.tsx:160-168 | the merged ids are exactly the ids of the items the filter lets through, on all pages |
| SourceMangas.MergedItemsKeepAllWhenShown | src/modules/source/screens/SourceMangas.tsx:162 | with library entries shown, every manga of every page has its id in the merged list |
| SourceMangas.MergedItemsGrow | src/modules/source/screens/SourceMangas.tsx:160-168 | the merged list after page k is a prefix of the merged list after page k+1 |
| SourceMangas.MergedItemsMonotone | src/modules/source/screens/SourceMangas.tsx:160-168 | the merged list over a shorter prefix of pages is a prefix of the one over a longer prefix |
| SourceMangas.MergedItemsOfUnloaded | src/modules/source/screens/SourceMangas.tsx:160-170 | while no page is loaded, the merged list is empty |
| SourceMangas.FilteredOutMeansAllInLibrary | src/modules/source/screens/SourceMangas.tsx:154-166 | the flag holds iff the last page is not loading, returned items, library entries are hidden, and all its items are in the library |
| SourceMangas.LastLoadedIndex | src/modules/source/screens/SourceMangas.tsx:151 | -1 or an index of a loaded page, with no loaded page after it |
| SourceMangas.BrowsePage | src/modules/source/screens/SourceMangas.tsx:173-194 | the returned page keeps the last page's loading state; it is the raw last page when no page is loaded; otherwise it is loaded and carries exactly the merged items |
| SourceMangas.BrowsePageHasNextPage | src/modules/source/screens/SourceMangas.tsx:173-188 | the returned page reports a next page iff the last page itself is loaded and reports one |
| SourceMangas.UseSourceManga | src/modules/source/screens/SourceMangas.tsx:150-194 | the returned page keeps the last page's loading state; it is the raw last page when nothing is loaded; its mangas are the merged list; its next-page flag follows the last page; its filtered-out flag is the one computed by the merge |
| SourceMangas.LoadMore | src/modules/source/screens/SourceMangas.tsx:355-361 | a page is requested iff there is a next page, and it is the page after the last one |
| SourceMangas.LoadMoreOnlyAfterLoadedLastPage | src/modules/source/screens/SourceMangas.tsx:355-361 | on the merged result, `loadMore` requests a page iff the last fetched page is loaded and announced a next page |
| SourceMangas.ToFilterChange | src/modules/source/screens/SourceMangas.tsx:124-142 | a filter maps to a grouped change iff it has a group, and the request's position is the group when there is one, else the filter's own position |
| SourceMangas.FilterChangeRoundTrip | src/modules/source/screens/SourceMangas.tsx:124-142 | the filter can be recovered from its change request, so the mapping loses nothing |
| SourceMangas.ToFilterChanges | src/modules/source/screens/SourceMangas.tsx:124-142 | one request per filter, in order, each recovering its filter |
| TrackManga.GetTrackerMode | src/components/tracker/TrackManga.tsx:26-36 | SEARCH iff the id is the searched tracker, whether or not it is in use; INFO iff the id is in use and not searched; UNTRACKED iff neither |
| TrackManga.NoSearchModeWithoutSearch | src/components/tracker/TrackManga.tsx:26-36 | without an active search, no mode is SEARCH, and INFO is exactly membership in the trackers in use |
| TrackManga.CardFor | src/components/tracker/TrackManga.tsx:80-97 | a tracker renders a card iff no search is active or it is the searched tracker, and the card carries the tracker and its mode |
| TrackManga.TrackerComponents | src/components/tracker/TrackManga.tsx:77-100 | one slot per logged-in tracker, in order, each card carrying its tracker and mode; without search every slot is a card; with search exactly the searched tracker's slots are |
| TrackManga.NoCardWithoutSearchedTracker | src/components/tracker/TrackManga.tsx:80-86 | while searching for a tracker that is not logged in, no card is rendered |
| TrackManga.OneCardWhileSearching | src/components/tracker/TrackManga.tsx:80-86 | with distinct tracker ids, an active search renders exactly one card when the searched tracker is logged in, and none otherwise |
| TrackManga.AllCardsWithoutSearch | src/components/tracker/TrackManga.tsx:79-97 | without a search, every logged-in tracker renders a card |
| AppThemes.BuiltInThemesDeclared | src/lib/ui/AppThemes.ts:15-142 | the built-in table holds the default theme under "default", and every built-in theme has no id, is not custom, and is named through a translation key |
| AppThemes.ThemeKeysEnumerateTable | src/lib/ui/AppThemes.ts:15-142 | the declaration order lists every built-in key exactly once |
| AppThemes.AppThemeList | src/lib/ui/AppThemes.ts:148-151 | one entry per built-in key in declaration order, each the built-in theme with that key as its id |
| AppThemes.AppThemesOnePerKey | src/lib/ui/AppThemes.ts:148-151 | every built-in key is the id of some entry, ids are pairwise distinct, and no entry is custom |
| AppThemes.LookupTheme | src/lib/ui/AppThemes.ts:155-156 | a theme is found iff the id is a built-in or custom key; a custom theme wins over a built-in one of the same key |
| AppThemes.GetTheme | src/lib/ui/AppThemes.ts:153-167 | the returned theme always has a name |
| AppThemes.GetThemeFallsBackToDefault | src/lib/ui/AppThemes.ts:156 | an id that is neither a built-in nor a custom key yields the default theme |
| AppThemes.GetThemeCustomOverrides | src/lib/ui/AppThemes.ts:155-156 | a custom theme is returned for its key, even when the key names a built-in theme |
| AppThemes.GetThemeBuiltIn | src/lib/ui/AppThemes.ts:155-156 | a built-in key without a custom theme of that key yields the built-in theme as declared |
| AppThemes.GetThemeName | src/lib/ui/AppThemes.ts:158-161 | the name is the found theme's own if it has one, else the requested id; for an unknown id it is the default theme's name |
| AppThemes.ToLower | src/lib/ui/AppThemes.ts:170 | same length, each character lower-cased |
| AppThemes.IsThemeNameUnique | src/lib/ui/AppThemes.ts:169-170 | a unique name is itself neither a built-in nor a custom key |
| AppThemes.ThemeNameTakenIff | src/lib/ui/AppThemes.ts:169-170 | a name is not unique iff some built-in or custom key equals it, ignoring case |
| AppThemes.DefaultNameTaken | src/lib/ui/AppThemes.ts:169-170 | "DEFAULT" is not unique, whatever the custom themes |
| AppThemes.ThemeNameUniqueIgnoresCase | src/lib/ui/AppThemes.ts:169-170 | two names that agree ignoring case are equally unique |
| AppThemes.AddingThemeKeepsNameTaken | src/lib/ui/AppThemes.ts:169-170 | adding a custom theme can only turn uniqueness from true to false: a name stays unique iff it was unique and differs from the new key ignoring case |
| AppThemes.UniqueNameGetsDefaultTheme | src/lib/ui/AppThemes.ts:153-170 | looking up a unique name yields the default theme |
| ReaderPageNumber.HidingGuard | src/modules/reader/components/ReaderPageNumber.tsx:55-69 | the first early return that fires: disabled iff the setting is off; maximized iff enabled and maximized; desktop-standard iff enabled, not maximized, on desktop with a STANDARD bar |
| ReaderPageNumber.IsPageNumberVisible | src/modules/reader/components/ReaderPageNumber.tsx:55-71 | the page number is rendered when no early return fires |
| ReaderPageNumber.PageNumberVisibilityRule | src/modules/reader/components/ReaderPageNumber.tsx:55-69 | rendered iff enabled, not maximized, and not (desktop with a STANDARD progress bar) |
| ReaderPageNumber.MaximizedHiddenBarUnreachable | src/modules/reader/components/ReaderPageNumber.tsx:59-69 | the maximized-with-HIDDEN-bar return never fires |
| ReaderPageNumber.DecimalString | src/modules/reader/components/ReaderPageNumber.tsx:50 | the total renders as a non-empty string of decimal digits without leading zeros ("0" for zero) |
| ReaderPageNumber.DecimalRoundTrip | src/modules/reader/components/ReaderPageNumber.tsx:50 | reading the rendered total back gives the total |
| ReaderPageNumber.LastSegment | src/modules/reader/components/ReaderPageNumber.tsx:49-50 | the longest separator-free suffix: the whole string, or the text right after a separator |
| ReaderPageNumber.PageLabel | src/modules/reader/components/ReaderPageNumber.tsx:47-53 | the label: `name/total` left to right, its reversal at the separator otherwise (its properties are the two lemmas below) |
| ReaderPageNumber.LtrLabelShowsTotal | src/modules/reader/components/ReaderPageNumber.tsx:47-53 | left to right, the label is exactly `name` + `/` + the text after its last `/`, that text is the decimal total, and it reads back as the total |
| ReaderPageNumber.OtherDirectionLabelIsReversed | src/modules/reader/components/ReaderPageNumber.tsx:52 | in every other direction, the label is `reverseString` applied to the left-to-right label with separator "/" |

## Left out

- React hooks, rendering and styling are not modelled: `useState`, `useEffect`, the `useMemo` caching, the MUI components and the content-type buttons.
- The `useMemo` caching of the merge is not modelled. When the memo does not re-run, the filtered-out flag keeps its initial value, `!isPageLoading`. The model computes the flag as if the merge loop always runs.
- `useSourceManga` requires at least one page. The source reads `pages.slice(-1)[0].isLoading` and would fail on an empty page list.
- Choosing the popular, latest or search request by content type, and the request layer itself, are I/O and are not modelled. This covers `requestManager`, `loadPage`, `refetch`, `fetchTrackBind` and `abortRequest`. The same goes for navigation, session and local storage, `scrollTo` and toasts.
- The number of loaded pages that `loadMore` adds one to comes from the request layer, so it is a parameter.
- A manga keeps only `id`, `inLibrary` and one stand-in field (`title`). `getUniqueMangas` is generic over such records. The Record lookup by the string form of a numeric id is modelled as a map keyed by the id.
- A search filter carries its `type` as the name of the state field it writes (`[filter.type]: state`). The model stores that name as a field, and the state's type is a type parameter.
- `Trackers.getLoggedIn`, `Trackers.getTrackers`, `Trackers.getIds` and `Trackers.getTrackRecordFor` are calls into code that is not part of this model. The logged-in trackers and the ids in use are parameters. A card does not carry its track record.
- `getTheme`'s `try/catch` path, which calls the foreign `defaultPromiseErrorHandler`, is not modelled.
- JavaScript's property lookup through the object prototype is not modelled. For example, an id such as "toString" finds an inherited member.
- Theme options keep only the two palette colours. `getName` is modelled by what it returns: a translation key for built-in themes, or the requested id.
- AppThemes.ToLower: lower-cases ASCII letters only. JavaScript's `toLowerCase` also maps non-ASCII letters, so the model does not capture case-insensitive clashes between non-ASCII names.
- `getPage` and the current page's name are not part of this model: the name is a parameter.
- `totalPages` is a JavaScript number, modelled as a natural number. Its rendering in exponent notation, from 1e21 up, is not modelled.
- `reverseString` is not part of this model. It is a function parameter, and nothing is assumed about its behaviour.
- The enumerations `ProgressBarType` and `ReadingDirection` are not part of this model. Only the variants the component compares against are named (STANDARD, HIDDEN, LTR). Every other variant is one catch-all constructor.
- The page-number overlay's position and transition styling are not modelled.
- The non-core files are not modelled: the manga constant tables, the update list, the mobile progress bar, the reader settings tabs and the slot container. They are static tables, UI, or logic whose helpers are not shown.
