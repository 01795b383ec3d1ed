# Content view logic of a static portfolio site

The site (a character showcase, an archive and a blog) renders hard-coded
records into static pages. Apart from the DOM and animation code it has a
few small rules. This project models those rules and proves what they
promise:

- `chunk` cuts a list into consecutive pieces.
- The page name is read from the location's path. It selects a list-page
  initialiser and the highlighted navigation link.
- Each grid item links to the detail page `<kind><id>.html`. Each detail
  page's back button returns to its list page.
- `getUrlParams` turns query pairs into an object where the last pair for a
  key wins.
- The archive list is a stable, newest-first sorted copy of the archive
  collection.
- The blog page is an object with a `currentCategory` field. It builds a
  sidebar of categories with counts and a filtered post list (or a
  "no posts" notice). A click re-renders the list and moves the highlight.
  The click also writes a shareable URL that a later page load reads back.

Records live in a read-only store (`Content.Store`), which `Fixtures.Data` fills with the records of the data file. Dates are
`(year, month, day)` triples. The `YYYY.MM.DD` text of a date reads back
as the same triple. Ids are natural numbers written in decimal. Rendering
is reduced to the sequence of rendered items: sidebar entries, post
entries, navigation links and grid items with their click targets.
`encodeURIComponent` (`encode`), the form decoding `URLSearchParams`
applies to each value (`decode`, also called `formDecode`) and
`decodeURIComponent` (`uriDecode`) are abstract functions. They are two
different decodings: the form decoding reads `+` as a space, while
`decodeURIComponent` keeps `+` and throws on a stray `%`. The shared-link
round trip assumes only `decode(encode(s)) == s`.

Files: `wrappers.dfy`, `decimal.dfy`, `content.dfy`, `paths.dfy`,
`chunking.dfy`, `url_params.dfy`, `navigation.dfy`, `detail.dfy` (from
`js/core.js` and the detail part of `js/pages.js`), `archives.dfy`,
`blog_categories.dfy`, `share_link.dfy`, `blog_page.dfy` (from
`js/pages.js`), and `fixtures.dfy` (records of `data/data.js`).

Two things the site does not have:

- There is no id router. Every record has its own static detail page
  (`character2.html`), reached from its grid item's click target
  (js/core.js:248, 279, 301).
- Stat indicators are not modelled. js/pages.js:319-334 only adds
  `visible` to `.stat-row` and `.dot` elements already on the page.

## Model

| member | source | states |
|---|---|---|
| `Decimal.ValueOfText` | js/core.js:248 | the decimal text written for an id reads back as that id |
| `Decimal.TextInjective` | js/core.js:248 | different ids never get the same decimal text |
| `Decimal.ValueOfPadded` | data/data.js:67 | a zero-padded fixed-width field reads back as its number |
| `Content.ParseDateText` | js/pages.js:69-70 | a date is read only from a ten-character text with dots at positions 4 and 7 |
| `Content.FormatDateReadsBack` | js/core.js:60-62 | `formatDate` returns a stored `YYYY.MM.DD` text unchanged, so it still reads back as the same date |
| `Paths.LastSegment` | js/core.js:35 | the result is the suffix after the last `/` (the whole path when it has none) and contains no `/` |
| `Paths.CurrentPage` | js/core.js:34-36 | the page is the last segment, or `index.html` when that is empty; it is never empty and never contains `/` |
| `Paths.CurrentPageOfFile` | js/core.js:34-36 | a file name under any directory is recognised as that page |
| `Paths.DirectoryIsHome` | js/core.js:35 | an empty path or one ending in `/` is `index.html` |
| `Chunking.Chunk` | js/core.js:65-71 | the pieces concatenate back to the input; all but the last have exactly `size` elements and the last has 1 to `size`; there are ceil(len/size) pieces; empty input gives no pieces; a positive size is needed only for a non-empty input |
| `Chunking.CountOfWellCut` | js/core.js:65-71 | any cut where every piece but the last has `size` elements and the last has 1 to `size` has exactly ceil(len/size) pieces, the count the loop of `chunk` produces |
| `UrlParams.Params` | js/core.js:26-30 | the object has exactly one key per distinct key of the pairs |
| `UrlParams.LastPairWins` | js/core.js:27-29 | a key's value is the value of its last pair |
| `UrlParams.ValueFromLastPair` | js/core.js:27-29 | every value in the object comes from the last pair for its key |
| `UrlParams.GetUrlParams` | js/core.js:24-31 | the loop builds the last-pair-wins object from the pairs with `decodeURIComponent` applied to each value |
| `Navigation.InitPage` | js/core.js:374-389 | `character.html`, `archive.html` and `blog.html` dispatch to their own list initialiser; every other name takes the default branch |
| `Navigation.CreateNavigation` | js/core.js:136-154 | one link per navigation entry, in order, with its href and text; a link is active exactly when its href is the current page |
| `Navigation.NavClick` | js/core.js:144-151 | clicking the active link does nothing; any other link navigates to its href |
| `Navigation.ActiveLinksMatchPage` | js/core.js:136-141 | the number of active links equals the number of entries whose href is the current page |
| `Navigation.KindOf` | js/core.js:220-229 | only the type names `character`, `archive` and `blog` select a record kind |
| `Navigation.CreateGridItem` | js/core.js:217-305 | the item's class is `<type>-item`; a character, archive or blog item navigates to `<type><id>.html`; an unknown type has no target |
| `Navigation.DetailPagesDistinct` | js/core.js:248 | two grid items share a detail page only if kind and id are both the same |
| `Navigation.SamePage` | js/core.js:248 | a page name `<type><id>.html` determines both the record type and the id text |
| `Detail.BackTarget` | js/pages.js:243-258 | the character, archive and blog detail pages return to their own list page, which dispatches to that list's initialiser |
| `Detail.BackReturnsToList` | js/pages.js:261-277 | following the back button from any directory loads a page that dispatches to the list initialiser of the record's kind |
| `Archives.SortNewestFirst` | js/pages.js:68-72 | the sorted copy is a permutation of the archives, and every record is no older than every record after it |
| `Archives.SortKeepsOrderOfEqualDates` | js/pages.js:68-72 | records with the same date keep their stored order, as in a stable sort |
| `BlogCategories.Distinct` | js/pages.js:128 | each category appears once, and the values are exactly those of the input |
| `BlogCategories.DistinctFirstOccurrenceOrder` | js/pages.js:128 | the distinct categories are ordered by their first occurrence |
| `BlogCategories.Categories` | js/pages.js:128 | the list starts with `'all'`; the rest is the post categories without repeats, in first-occurrence order (`Distinct`), and holds exactly the post categories |
| `BlogCategories.CategoriesDistinct` | js/pages.js:128 | when no post is filed under `'all'`, the whole list has no repeats |
| `BlogCategories.PostsIn` | js/pages.js:168 | a post is in the result exactly when it is a stored post with that category |
| `BlogCategories.PostsInAppend` | js/pages.js:168 | filtering splits over concatenation, so the stored order is kept |
| `BlogCategories.PostsInCount` | js/pages.js:136 | a category's filtered count is its number of occurrences among the post categories |
| `BlogCategories.CategoryCount` | js/pages.js:134-136 | the count beside `'all'` is the number of posts; no count exceeds it |
| `BlogCategories.CountIsOccurrences` | js/pages.js:134-136 | the count beside any other category is its number of occurrences among the posts' categories |
| `BlogCategories.FilteredPosts` | js/pages.js:166-168 | `'all'` shows every post unchanged; any other category shows exactly its posts; the number shown equals the sidebar count |
| `BlogCategories.CountsAddUpToAll` | js/pages.js:134-136 | when no post is filed under `'all'`, the counts after `'all'` add up to the count beside `'all'` |
| `BlogCategories.CategoryFromParams` | js/pages.js:118-121 | an absent or empty `category` parameter gives `'all'`; otherwise the parameter is returned |
| `ShareLink.ShareLocation` | js/pages.js:217-220 | `'all'` is shared as `blog.html`; any other category `c` as `blog.html?category=` followed by `encode(c)` |
| `ShareLink.CategoryAt` | js/pages.js:118-121 | read with one decoding, a location's category is the decoded value of its last `category` pair, or `'all'` when there is no such pair or the value is empty |
| `ShareLink.CategoryAtAsWritten` | js/core.js:24-31 | as written, it is `decodeURIComponent` applied to the form-decoded value of the last `category` pair, or `'all'` when there is no such pair or that is empty |
| `ShareLink.ShareLinkRestoresCategory` | js/pages.js:118-121 | with values decoded once, loading the shared URL restores every non-empty category |
| `ShareLink.ShareLinkAsWritten` | js/core.js:27-29 | as written, loading the shared URL gives `uriDecode(c)` (or `'all'` when that is empty) instead of `c`: the form decoding undoes `encode`, and `decodeURIComponent` is applied once more |
| `ShareLink.ShareLinkAsWrittenLosesPercent` | js/core.js:28 | for a codec that meets `decode(encode(s)) == s`, standing for both decodings (which agree on `%25`), the category `%25` is shared and comes back as `%`, while one decoding restores `%25` |
| `BlogPage.DisplayName` | js/pages.js:133 | `'all'` is shown as `전체`; every other category is shown as itself |
| `BlogPage.CategoryView` | js/pages.js:130-141 | one sidebar item per category, in order, with its display name and count; an item is active exactly when it is the current category |
| `BlogPage.ListView` | js/pages.js:163-186 | the list is the notice for the category alone when no post matches; otherwise it has one item per matching post |
| `BlogPage.ListViewTargets` | js/pages.js:178-180 | every rendered post links to `blog<id>.html` for its own id |
| `BlogPage.ClickedHighlightIsInitialHighlight` | js/pages.js:210-215 | when categories are distinct, highlighting only the clicked item gives the same sidebar as a page opened on that category |
| `BlogPage.Blog.constructor` | js/pages.js:108-109 | a new blog object starts with category `'all'` and nothing rendered |
| `BlogPage.Blog.Init` | js/pages.js:111-116 | the category is taken from the URL; the sidebar is appended and the list rendered; the highlight and the list then agree with the category |
| `BlogPage.Blog.CreateCategoryList` | js/pages.js:123-157 | without a container nothing changes; otherwise the sidebar items are appended after what was there |
| `BlogPage.Blog.CreateBlogList` | js/pages.js:159-187 | the list is cleared and then rendered, so it depends only on the posts and the category, and rendering twice gives the same list |
| `BlogPage.Blog.FilterByCategory` | js/pages.js:189-208 | the current category becomes the chosen one and the list is rendered for it |
| `BlogPage.Blog.UpdateActiveCategory` | js/pages.js:210-215 | exactly the clicked item is active afterwards; names and counts are unchanged |
| `BlogPage.Blog.UpdateURL` | js/pages.js:217-220 | the location becomes the category's shareable URL |
| `BlogPage.Blog.SelectCategory` | js/pages.js:144-148 | after a click the category is the clicked item's, only that item is active, the list shows its posts, and the URL is its shareable URL |
| `BlogPage.ReloadSharedLink` | js/pages.js:111-121 | after a click on a sidebar item, the page's category is the clicked item's and its location is that category's share location; a fresh page opened there starts on the clicked category, shows `ListView` of it and the sidebar `CategoryView` of it, and so shows the same category, list and highlighted item as the clicked page |
| `Fixtures.RootIsTopPage` | data/data.js:9-16 | the site root is `index.html`, the first navigation entry of the stored site settings |
| `Fixtures.ArchiveNewestFirst` | data/data.js:62-86 | the stored archives are listed `2024.08.15` first, and so is the reversed order |
| `Fixtures.StoredDateText` | data/data.js:67 | the stored archive date is written `2024.08.15` |
| `Fixtures.BlogSidebar` | data/data.js:87-114 | the sidebar lists `all`, `창작 과정`, `아트 기법`, and `all` counts 2 posts |
| `Fixtures.BlogFilterScenarios` | data/data.js:87-114 | `아트 기법` shows one post; an unknown category shows the notice; `all` shows both posts |
| `Fixtures.CharacterDetailTarget` | data/data.js:33-46 | the second character's grid item opens `character2.html` |

## Left out

- DOM construction, CSS classes other than `active`, styles, `innerHTML`, event-listener wiring, `IntersectionObserver`, the lightbox, and the scroll and keyboard handlers. These are presentation. Rendering is the sequence of rendered items.
- `setTimeout` sequencing, staggered animations and fades (js/core.js:95-124, js/pages.js:26-33, 198-207). `filterByCategory` is a synchronous update followed by a re-render.
- `loadData` (`fetch`, js/core.js:12-21), `navigateToPage`, `window.location` and `history.replaceState`. These are browser and network I/O. A location is a value that `updateURL` replaces.
- `createBackgroundBubbles`, which uses `Math.random` and floating point.
- The character and archive list pages' grid loops (js/pages.js:20-23, 74-77). Each is a `forEach` of `createGridItem`, whose per-record rule is modelled.
- `createFooter` and `createScrollTopButton`, which only build markup.
- Splitting a query string into pairs, which `URLSearchParams` does. The model starts from the pairs. Keys are taken as they stand; their percent-decoding is not modelled.
- `UrlParams.Params`: the result object is a map. A plain object does not store the key `__proto__` as its own key (the assignment goes to the prototype setter), so a `__proto__` pair is not modelled.
- `ShareLink.CategoryAtAsWritten`: `uriDecode` is total. The `URIError` that `decodeURIComponent` throws on a malformed escape is not modelled (see the next line).
- `UrlParams.GetUrlParams`: `uriDecode` is total, but `decodeURIComponent` throws on a malformed escape such as a lone `%`. That exception, which aborts the page's initialisation, is not modelled.
- `Content.ParseDateText`: it checks only the `YYYY.MM.DD` shape. It does not reject impossible calendar dates, which `new Date` turns into an invalid date that sorts unpredictably.
- `Archives.SortNewestFirst`: it compares dates as triples. Comparing as timestamps gives the same order for valid dates.
- `BlogPage.Blog.Init`: it reads the URL with one decoding, the corrected behaviour. `ShareLink.CategoryAtAsWritten` reads it the way the source does (see Findings).
- Ids are natural numbers. The source's ids are positive integers in the data file, and a negative or fractional id is not modelled. `Decimal.Text` is the decimal text of an id; an id of 10^21 or more, which a template literal writes in exponent notation (`1e+21`), is not modelled.
- `Chunking.Chunk`: the size is an integer. JavaScript numbers may be fractional, and `slice` truncates fractional bounds, so `chunk([1,2,3], 0.5)` gives `[[],[1],[],[2],[],[3]]` and `chunk([1,2,3,4,5], 2.5)` gives `[[1,2],[3,4,5]]`. Those cuts break the piece sizes the contract promises, and fractional sizes are not modelled.
- A post filed under the category `'all'` is modelled as written. It gives a second `'all'` sidebar item whose count is every post, and such a post cannot be shown alone. `CountsAddUpToAll` and `ReloadSharedLink` exclude such posts.
- An empty category `""` is shared as `blog.html?category=`, which reads back as `'all'`. `ShareLinkRestoresCategory` therefore requires a non-empty category.

## Findings

| source | as written | input that shows it | evidently intended | confidence | as-written member | corrected member |
|---|---|---|---|---|---|---|
| js/core.js:27-29 | `getUrlParams` applies `decodeURIComponent` to values that `URLSearchParams` has already percent-decoded, so each value is decoded twice | select category `%25`: `updateURL` writes `blog.html?category=%2525`, and reloading reads the category `%` (a category `50%` makes `decodeURIComponent` throw) | decode each value once, so that reloading the shared URL restores the selected category | high that the double decoding happens; not executed | `ShareLink.ShareLinkAsWrittenLosesPercent` | `ShareLink.ShareLinkRestoresCategory` |
