# cattk-blog: blog index, memo feed and media grids in Dafny

This project models the parts of the cattk-blog website that hold logic of
their own, and proves properties of that model:

- **The blog index** (`src/lib/blogs.ts`). Posts are `.mdx` files in one
  content directory. The index derives each post's slug from its file name,
  lists the posts newest first, and looks a post up by slug. It also collects
  the distinct tags and categories and selects posts by tag or by category.
  The directory is a sequence of entries in the order the file glob yields
  them. Each entry carries its parsed frontmatter, or nothing when the file
  cannot be read or parsed. A date is the instant it denotes, as an integer.
  The tag and category queries take the list that `getAllBlogs` returns;
  when that call fails, they fail with it.
- **The memo feed page** (`src/app/memos/page.tsx`). The page fetches one page
  of memos from the memos API and keeps the public ones. It tracks whether a
  next page may exist and chooses one of four views. The component state is
  the value `PageState`, with transition functions for the start of a fetch,
  the arrival of a response and a page change. The class
  `MemosPage.MemosPage` holds the same state in fields. Its methods update
  those fields step by step and are proved equal to the transitions. The
  feed model also covers attachment classification and the image and video
  counts of a memo card.
- **The two media grids** (`src/app/memos/ImageGrid.tsx` and
  `src/app/memos/components/ImageGrid.tsx`). They choose a column class and
  a width limit from the item count, build each tile's address, and say what
  a click reports.

Files: `wrappers.dfy` (Option, Result), `seqs.dfy` (`filter`, subsequences,
an insertion-ordered set), `text.dfy` (`startsWith`/`endsWith`, the anchored
`replace`, the default string order of `sort`, decimal numbers),
`blogs.dfy`, `memos_page.dfy`, `media_grid.dfy`, `image_grid.dfy`.

How the memo feed fetches and keeps its memos:

- Each fetched page replaces the memos held before it
  (`src/app/memos/page.tsx:109`, `MemosPage.Finished`).
- A failed fetch keeps the memos already held and sets the error
  (`src/app/memos/page.tsx:112-114`).
- The request goes to `/api/v1/memo?creatorUsername=host&limit=10&offset=…`
  (`src/app/memos/page.tsx:103`, `MemosPage.RequestUrl`). Only a bare JSON
  array is read as memos. Any other JSON value gives an empty list
  (`src/app/memos/page.tsx:107`, `MemosPage.Outcome`).

Behaviours of the code that the model makes explicit:

- A file named `a.mdx.mdx` gets the slug `a.mdx`. Looking that slug up reads
  `a.mdx`, so the post is not found again (`DoubleExtensionNotFoundBySlug`).
- `x` and `x.mdx` resolve to the same file exactly when `x` does not already
  end in `.mdx` (`SlugFileCanonical`).
- A `slug` field in the frontmatter overrides the slug taken from the file
  name, because the object spread comes after it. The slug is looked up as
  a file name. So when a frontmatter slug, with one trailing `.mdx`
  removed, differs from its file's stem, the lookup reads another file: the
  post is not found, or another post is returned
  (`FrontmatterSlugNotFoundBySlug` shows the first case).
- The next-page test counts memos after the visibility filter. A full page
  with one private memo therefore offers no next page
  (`PrivateMemoHidesNextPage`).
- An error whose message is empty is not truthy. The page then shows the
  memos it already had instead of the error card (`HasError`).
- `decodeURIComponent` runs inside the filter. A tag that does not decode
  makes `getBlogsByTag` fail only when some post has a `tags` field. The same
  holds for categories and non-empty `category` fields.
- A disabled previous or next control gets the classes
  `pointer-events-none opacity-50` (`src/app/memos/page.tsx:164,174`). These
  stop mouse clicks, but the link can still be focused and activated from
  the keyboard, and then its click handler runs. On the first page
  "previous" then asks for page 0, which `handlePageChange` ignores
  (`ControlClicks`).

## Model

| member | source | states |
|---|---|---|
| Text.StripSuffix | src/lib/blogs.ts:31 | `replace(/\.mdx$/, '')` removes one trailing suffix and gives the name back, and leaves a name without it unchanged |
| Text.StripAppended | src/lib/blogs.ts:31 | stripping a suffix that was just appended gives back the original string |
| Text.SortStrings | src/lib/blogs.ts:70 | sorting the contents of a set gives a permutation in strictly ascending string order |
| Text.SortedElements | src/lib/blogs.ts:70 | the sorted array holds exactly the set's elements |
| Text.LessTotal | src/lib/blogs.ts:70 | the default sort order is total on distinct strings (with `LessTransitive`, `LessAsymmetric`, `LessIrreflexive` a strict total order) |
| Text.LessTransitive | src/lib/blogs.ts:70 | the default sort order is transitive |
| Text.DecimalRoundTrip | src/app/memos/page.tsx:103 | the decimal digits written into the request URL read back as the number |
| Seqs.SetAdd | src/lib/blogs.ts:66-68 | adding to a JavaScript `Set` keeps its elements distinct and adds exactly the new value |
| Seqs.FilterIsSubsequence | src/lib/blogs.ts:76 | `filter` keeps the relative order of what it keeps |
| Seqs.FilterCounts | src/lib/blogs.ts:76 | `filter` keeps every kept value as many times as it occurs and drops the others |
| Seqs.FilterAppend | src/app/memos/page.tsx:107 | filtering a concatenation is the concatenation of the filtered parts |
| Blogs.IsListed | src/lib/blogs.ts:37-39 | a listed file name ends in `.mdx` (the stripped stem plus `.mdx` gives it back) and is not a dotfile |
| Blogs.SortKey | src/lib/blogs.ts:44-45 | the sort key is the post's date, or 0 when it has none |
| Blogs.Lookup | src/lib/blogs.ts:22-25 | reading a file finds an entry of that name in the directory; it fails iff no entry has that name |
| Blogs.ImportBlog | src/lib/blogs.ts:19-34 | slug from the frontmatter if present, else the file name minus `.mdx`; every other field from the frontmatter |
| Blogs.LoadAll | src/lib/blogs.ts:41 | `Promise.all` loads every listed file in order, or fails exactly when one file cannot be loaded |
| Blogs.SortByDate | src/lib/blogs.ts:43-47 | the sorted list is a permutation of the loaded posts, ordered by non-increasing date, a missing date counting as 0 |
| Blogs.SortByDateStable | src/lib/blogs.ts:43-47 | posts with equal sort keys keep the directory order (the array sort is stable) |
| Blogs.UndatedPosition | src/lib/blogs.ts:44-45 | an undated post sorts after every post with a positive date and before every post with a negative one |
| Blogs.AllBlogs | src/lib/blogs.ts:36-48 | `getAllBlogs` fails iff a listed file cannot be loaded; otherwise it gives the loaded posts, newest first |
| Blogs.AllBlogsHasEveryListedFile | src/lib/blogs.ts:37-41 | every file that the glob lists appears in the index |
| Blogs.SlugFile | src/lib/blogs.ts:53-54 | the file a slug is looked up in ends in `.mdx` and has the slug's stem |
| Blogs.SlugFileCanonical | src/lib/blogs.ts:52-54 | slug cleaning is idempotent; `x` and `x.mdx` name the same file iff `x` does not end in `.mdx` |
| Blogs.SlugWithOrWithoutExtension | src/lib/blogs.ts:50-59 | `getBlogBySlug("x")` and `getBlogBySlug("x.mdx")` return the same post when `x` has no `.mdx` ending |
| Blogs.GetBlogBySlug | src/lib/blogs.ts:50-59 | a returned post is the import of an existing, readable file named by the cleaned slug |
| Blogs.GetBlogBySlugNull | src/lib/blogs.ts:55-58 | `null` (never an exception) exactly when no readable file of that name exists |
| Blogs.SlugRoundTrip | src/lib/blogs.ts:30-54 | a listed post without a frontmatter slug is found again by its slug |
| Blogs.FrontmatterSlugNotFoundBySlug | src/lib/blogs.ts:30-54 | a post `a.mdx` whose frontmatter slug is `b` has slug `b`, yet `getBlogBySlug("b")` reads `b.mdx` and returns `null` |
| Blogs.DoubleExtensionNotFoundBySlug | src/lib/blogs.ts:30-54 | the exception to the round trip: `a.mdx.mdx` gets slug `a.mdx`, which is looked up in `a.mdx` |
| Blogs.AllTags | src/lib/blogs.ts:64-71 | `getAllTags` holds every tag of every post, once each, strictly ascending; posts without tags add nothing |
| Blogs.BlogsByTag | src/lib/blogs.ts:74-77 | exactly the posts whose tags contain the decoded tag, each as often as in the list and in list order; fails iff the tag does not decode and some post has tags |
| Blogs.BlogsByTagNewestFirst | src/lib/blogs.ts:74-77 | applied to the newest-first list, the result is newest first too |
| Blogs.AllCategories | src/lib/blogs.ts:80-89 | `getAllCategories` holds each non-empty category once, strictly ascending; missing or empty categories are skipped |
| Blogs.BlogsByCategory | src/lib/blogs.ts:92-95 | exactly the posts whose non-empty category equals the decoded one, each as often as in the list and in list order; fails iff the category does not decode and some post has a category; uncategorised posts are never returned |
| Blogs.BlogsByCategoryNewestFirst | src/lib/blogs.ts:92-95 | applied to the newest-first list, the result is newest first too |
| MemosPage.ItemFor | src/app/memos/page.tsx:56-60 | an attachment shows as an image iff its type starts with `image/`, as a video iff with `video/`, otherwise as a file link; all link to `/o/r/<name>` |
| MemosPage.ResourceList | src/app/memos/page.tsx:52-64 | nothing for a memo without attachments, else one item per attachment in order |
| MemosPage.ImageCount | src/app/memos/page.tsx:67 | the image count is at most the number of attachments, and positive iff some attachment is an image |
| MemosPage.VideoCount | src/app/memos/page.tsx:68 | the video count is at most the number of attachments, and positive iff some attachment is a video |
| MemosPage.CountsBounded | src/app/memos/page.tsx:67-68 | image count plus video count never exceeds the number of attachments |
| MemosPage.CountsMatchItems | src/app/memos/page.tsx:56-68 | the footer's counts equal the numbers of images and videos the card shows |
| MemosPage.CardFooter | src/app/memos/page.tsx:73 | a footer iff the memo has attachments; an image (video) badge iff one is present, carrying the positive count |
| MemosPage.Offset | src/app/memos/page.tsx:100 | for a page `>= 1` the offset is a non-negative multiple of `PAGE_SIZE`, skipping `page - 1` full pages |
| MemosPage.RequestUrl | src/app/memos/page.tsx:103 | the URL is `https://memos.cattk.com/api/v1/memo?creatorUsername=host&limit=10&offset=` followed directly by the page's offset and nothing else |
| MemosPage.OffsetSteps | src/app/memos/page.tsx:100 | page 1 has offset 0; consecutive pages differ by exactly `PAGE_SIZE` |
| MemosPage.RequestUrlCarriesOffset | src/app/memos/page.tsx:100-103 | the request URL ends with the page's offset, which reads back exactly |
| MemosPage.PublicMemos | src/app/memos/page.tsx:107 | exactly the `PUBLIC` memos of the response, each as often as in the response and in response order |
| MemosPage.Outcome | src/app/memos/page.tsx:102-114 | success iff a response with status 200-299 and parsable JSON; a non-array body gives no memos; a non-ok status gives the `请求失败` message; a network failure or a JSON parse failure gives that error's own message |
| MemosPage.Started | src/app/memos/page.tsx:95-97 | a fetch sets `loading`, clears `error`, and leaves the rest |
| MemosPage.Finished | src/app/memos/page.tsx:106-117 | loading always ends; success replaces memos and sets `hasNextPage` iff exactly `PAGE_SIZE` memos; failure sets the error and leaves memos and `hasNextPage` |
| MemosPage.PageChanged | src/app/memos/page.tsx:125-129 | a page number `<= 0` is ignored; any other becomes the current page |
| MemosPage.RunKeepsInv | src/app/memos/page.tsx:86-129 | in any order of fetches, responses and clicks: page `>= 1`, loading implies no error, a next page only after a full page |
| MemosPage.Reachable | src/app/memos/page.tsx:87-93 | the invariant holds in every state reachable from the initial `useState` values |
| MemosPage.HasError | src/app/memos/page.tsx:133-157 | an error counts only when one is set, and an empty message does not count |
| MemosPage.ViewOf | src/app/memos/page.tsx:131-141 | skeleton iff loading; else error card iff an error; else empty notice iff no memos on page 1; else the list |
| MemosPage.ShowsPagination | src/app/memos/page.tsx:157 | the controls appear only when the memo list is the view shown |
| MemosPage.PreviousDisabled | src/app/memos/page.tsx:164 | whenever the page invariant holds (in every reachable state, by `Reachable`), "previous" is disabled iff the page is 1 |
| MemosPage.NextDisabled | src/app/memos/page.tsx:174 | whenever the page invariant holds, "next" is enabled only when a full `PAGE_SIZE` page of memos is held |
| MemosPage.PaginationPlacement | src/app/memos/page.tsx:131-157 | controls appear only under the memo list; once loaded without error, the controls or the empty notice always appear |
| MemosPage.ControlClicks | src/app/memos/page.tsx:157-175 | "previous" on the first page is ignored, elsewhere goes back one page; "next" always goes forward one |
| MemosPage.NextAfterFetch | src/app/memos/page.tsx:111 | after a fetch answered with any 2xx status and a memo array, "next" is enabled iff `PAGE_SIZE` public memos arrived |
| MemosPage.PrivateMemoHidesNextPage | src/app/memos/page.tsx:107-111 | a full response page holding one private memo leaves "next" disabled |
| MemosPage.MemosPage.constructor | src/app/memos/page.tsx:87-93 | the initial state: no memos, loading, no error, page 1, no next page |
| MemosPage.MemosPage.StartFetch | src/app/memos/page.tsx:95-103 | updates the fields as `Started` and returns the request URL for the page |
| MemosPage.MemosPage.FinishFetch | src/app/memos/page.tsx:102-117 | updates the fields as `Finished` and keeps the invariant |
| MemosPage.MemosPage.FetchMemos | src/app/memos/page.tsx:95-118 | an uninterrupted fetch: start then finish, ending with `loading` false |
| MemosPage.MemosPage.HandlePageChange | src/app/memos/page.tsx:120-129 | updates the page as `PageChanged`; a refetch follows iff the page number changed |
| MediaGrid.FileUrl | src/app/memos/ImageGrid.tsx:35 | the file address is `http://memos.cattk.com/file/<name>/<filename>`: the base, then exactly the resource name, a `/` and the file name |
| MediaGrid.MediaResources | src/app/memos/ImageGrid.tsx:14-16 | exactly the image and video resources, each as often as in the list, as an order-preserving subsequence |
| MediaGrid.GridClass | src/app/memos/ImageGrid.tsx:21-25 | `grid-cols-1` iff one item, `grid-cols-2` iff two or four, `grid-cols-3` for every other count |
| MediaGrid.Columns | src/app/memos/ImageGrid.tsx:21-25 | the column class is `grid-cols-1` for one item, `grid-cols-2` for two or four, `grid-cols-3` otherwise |
| MediaGrid.ColumnsFitCount | src/app/memos/ImageGrid.tsx:21-25 | never more columns than items; one column iff one item; two or four items fill rows of two |
| MediaGrid.MaxWidth | src/app/memos/ImageGrid.tsx:27-30 | the width limit is applied iff there is exactly one item |
| MediaGrid.TileFor | src/app/memos/ImageGrid.tsx:34-59 | an image tile shows `<file>?thumbnail=true`, a video tile `<file>#t=0.1`; the click reports the tile's index |
| MediaGrid.Render | src/app/memos/ImageGrid.tsx:13-64 | nothing without media; otherwise one tile per medium in order, with the class and width for their count |
| MediaGrid.ClickSelectsTile | src/app/memos/ImageGrid.tsx:34-43 | clicking tile `i` reports `i`, which lies in `[0, count)` and selects that medium of the filtered list |
| MediaGrid.TileSourceStripsToFile | src/app/memos/ImageGrid.tsx:35-53 | removing the query or fragment from a tile's src gives back the file address |
| ImageGrid.ThumbFor | src/app/memos/components/ImageGrid.tsx:36-47 | the displayed src is the full address plus `?thumbnail=true`; a click reports the full address |
| ImageGrid.Render | src/app/memos/components/ImageGrid.tsx:14-54 | nothing without images; otherwise one thumbnail per image in order, with the shared column and width rules |
| ImageGrid.ClickReportsFullSize | src/app/memos/components/ImageGrid.tsx:35-47 | what a click reports is the displayed src without the thumbnail query |

## Left out

- Reading files, the glob and frontmatter parsing (`fs.readFile`, `fast-glob`, `gray-matter`) are outside the model. Their result is the directory given as entries. The glob `*.mdx` is modelled as "ends in `.mdx` and does not start with a dot", in the order the entries are given.
- Frontmatter values are assumed to have their declared types, for example `tags` is an array of strings. A `tags` field that is a string would make `forEach` throw; this is not modelled.
- `path.join` with a slug containing `/` or `..` would reach files outside the content directory. The model looks names up in the content directory only.
- Date parsing (`new Date`) is outside the model, and so are invalid dates whose `NaN` keys make the comparator inconsistent. Dates are optional integers.
- `decodeURIComponent` is a parameter returning `None` where it throws.
- String order compares characters by code point. JavaScript compares UTF-16 code units. The two differ only between characters above U+FFFF and characters in U+E000–U+FFFF.
- The network round trip is the `Response` value. Stale responses from earlier fetches may arrive in any order through `Run`, but which request a response answers is not tracked. A value thrown that is not an `Error` (message `发生未知错误`) is not modelled: `fetch` and `response.json` only throw `Error` objects.
- A memo without a `resources` field behaves everywhere like one with an empty list, and is modelled as one.
- `window.scrollTo`, `console.error`, dates shown with `toLocaleString`, Markdown rendering, React keys and all JSX markup, CSS and styling are outside the model.
- The other pages and components are presentation or third-party widgets and are not modelled: layout, about, now, blog list, tags and categories pages, BlogCard, Footer, comments, icon cloud, video and PDF viewers, CodeBlock (a clipboard write and a timer), and Lightbox (a conditional overlay).
- `src/lib/mdx.ts`, the configuration files and `src/app/memos/types.ts` beyond `MemoResource` are not part of this model.
- Blogs.GetBlogBySlug: its own contract states only what a returned post is. That `null` means "no readable file of that name" is stated by `GetBlogBySlugNull`, which assumes the names in the directory are unique.
- Blogs.SlugRoundTrip: holds only for file names that do not end in `.mdx.mdx`, because `DoubleExtensionNotFoundBySlug` shows that such names fail the round trip.
