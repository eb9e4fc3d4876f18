/** The memo feed of src/app/memos/page.tsx: one page of public memos at a
    time from the memos API, with previous/next controls.

    The component's state is the value `PageState`; the class `MemosPage`
    holds it in fields that its methods update as the component's state
    setters do, and each method is tied to a transition function on
    `PageState`. The network round trip is split in two steps, so that a
    response may arrive after another fetch has started, as it can in the
    source, where fetches are never cancelled. */
module MemosPage {
  import opened Wrappers
  import opened Seqs
  import opened Text

  const MemosApiUrl: string := "https://memos.cattk.com"
  const PageSize: nat := 10

  datatype Resource = Resource(name: string, filename: string, mimeType: string, size: int)

  datatype Memo = Memo(
    name: string,
    createTime: string,
    content: string,
    visibility: string,
    resources: seq<Resource>)

  // ---------------------------------------------------------------------
  // MemoResources and MemoCard

  predicate IsImage(r: Resource) {
    StartsWith(r.mimeType, "image/")
  }

  predicate IsVideo(r: Resource) {
    StartsWith(r.mimeType, "video/")
  }

  /** How `MemoResources` shows one attachment. */
  datatype ResourceItem =
    | ImageLink(url: string, alt: string)
    | VideoPlayer(url: string)
    | FileLink(url: string, caption: string)

  function ResourceUrl(r: Resource): string {
    MemosApiUrl + "/o/r/" + r.name
  }

  /** An image is tested first, then a video; anything else is a file link.
      Every kind links to the same address. */
  function ItemFor(r: Resource): (item: ResourceItem)
    ensures item.url == ResourceUrl(r)
    ensures item.ImageLink? <==> IsImage(r)
    ensures item.VideoPlayer? <==> IsVideo(r)
    ensures item.FileLink? ==> item.caption == r.filename
  {
    if IsImage(r) then ImageLink(ResourceUrl(r), r.filename)
    else if IsVideo(r) then VideoPlayer(ResourceUrl(r))
    else FileLink(ResourceUrl(r), r.filename)
  }

  function Items(resources: seq<Resource>): (items: seq<ResourceItem>)
    ensures |items| == |resources|
    ensures forall i :: 0 <= i < |resources| ==> items[i] == ItemFor(resources[i])
  {
    if resources == [] then []
    else [ItemFor(resources[0])] + Items(resources[1..])
  }

  /** `MemoResources`: nothing for a memo without attachments, otherwise one
      item per attachment, in order. */
  function ResourceList(resources: seq<Resource>): (r: Option<seq<ResourceItem>>)
    ensures r.None? <==> resources == []
    ensures r.Some? ==> r.value == Items(resources)
  {
    if resources == [] then None else Some(Items(resources))
  }

  /** The number of attachments whose type starts with `image/`. */
  function ImageCount(resources: seq<Resource>): (n: nat)
    ensures n <= |resources|
    ensures n > 0 <==> exists r :: r in resources && IsImage(r)
  {
    var images := Filter(IsImage, resources);
    assert |images| > 0 ==> images[0] in images;
    |images|
  }

  /** The number of attachments whose type starts with `video/`. */
  function VideoCount(resources: seq<Resource>): (n: nat)
    ensures n <= |resources|
    ensures n > 0 <==> exists r :: r in resources && IsVideo(r)
  {
    var videos := Filter(IsVideo, resources);
    assert |videos| > 0 ==> videos[0] in videos;
    |videos|
  }

  /** No MIME type starts with both `image/` and `video/`. */
  lemma ImageNotVideo(r: Resource)
    ensures !(IsImage(r) && IsVideo(r))
  {
  }

  /** The two counts of a card never add up to more than its attachments. */
  lemma CountsBounded(resources: seq<Resource>)
    ensures ImageCount(resources) + VideoCount(resources) <= |resources|
  {
    forall x | x in resources ensures !(IsImage(x) && IsVideo(x)) {
      ImageNotVideo(x);
    }
    FilterDisjointLengths(IsImage, IsVideo, resources);
  }

  predicate IsImageLink(item: ResourceItem) {
    item.ImageLink?
  }

  predicate IsVideoPlayer(item: ResourceItem) {
    item.VideoPlayer?
  }

  /** The counts in a card's footer are the numbers of images and videos
      that `MemoResources` shows for the same memo. */
  lemma {:induction false} CountsMatchItems(resources: seq<Resource>)
    ensures ImageCount(resources) == |Filter(IsImageLink, Items(resources))|
    ensures VideoCount(resources) == |Filter(IsVideoPlayer, Items(resources))|
  {
    if resources != [] {
      CountsMatchItems(resources[1..]);
      assert Items(resources) == [ItemFor(resources[0])] + Items(resources[1..]);
      assert Items(resources)[1..] == Items(resources[1..]);
    }
  }

  /** The footer of `MemoCard`: absent without attachments; a badge per kind
      that occurs. */
  datatype Footer = Footer(imageBadge: Option<nat>, videoBadge: Option<nat>)

  function CardFooter(m: Memo): (f: Option<Footer>)
    ensures f.None? <==> m.resources == []
    ensures f.Some? ==> (f.value.imageBadge.Some? <==> exists r :: r in m.resources && IsImage(r))
    ensures f.Some? ==> (f.value.videoBadge.Some? <==> exists r :: r in m.resources && IsVideo(r))
    ensures f.Some? && f.value.imageBadge.Some? ==> f.value.imageBadge.value == ImageCount(m.resources) > 0
    ensures f.Some? && f.value.videoBadge.Some? ==> f.value.videoBadge.value == VideoCount(m.resources) > 0
  {
    if |m.resources| > 0 then
      var images := ImageCount(m.resources);
      var videos := VideoCount(m.resources);
      Some(Footer(if images > 0 then Some(images) else None,
                  if videos > 0 then Some(videos) else None))
    else None
  }

  // ---------------------------------------------------------------------
  // The request and the response

  /** The offset of a page: page 1 starts at 0. */
  function Offset(page: int): (offset: int)
    ensures page >= 1 ==> offset >= 0 && offset % PageSize == 0 && offset / PageSize == page - 1
  {
    (page - 1) * PageSize
  }

  lemma OffsetSteps(page: int)
    ensures Offset(1) == 0
    ensures Offset(page + 1) == Offset(page) + PageSize
    ensures page >= 1 ==> Offset(page) >= 0 && Offset(page) % PageSize == 0
  {
  }

  /** Everything of the request URL before the offset's digits. */
  function QueryPrefix(): string {
    MemosApiUrl + "/api/v1/memo?creatorUsername=host&limit=" + NatToDecimal(PageSize) + "&offset="
  }

  function RequestUrl(page: int): (url: string)
    ensures StartsWith(url, MemosApiUrl + "/api/v1/memo?creatorUsername=host&limit=10&offset=")
    ensures EndsWith(url, IntToDecimal(Offset(page)))
    ensures |url| == |MemosApiUrl + "/api/v1/memo?creatorUsername=host&limit=10&offset="|
                     + |IntToDecimal(Offset(page))|
  {
    var digits := IntToDecimal(Offset(page));
    assert NatToDecimal(PageSize) == "10";
    assert (QueryPrefix() + digits)[..|QueryPrefix()|] == QueryPrefix();
    assert (QueryPrefix() + digits)[|QueryPrefix()|..] == digits;
    QueryPrefix() + digits
  }

  /** The query string ends with the offset, which reads back as the page's
      offset. */
  lemma RequestUrlCarriesOffset(page: int)
    requires page >= 1
    ensures var digits := NatToDecimal(Offset(page));
            EndsWith(RequestUrl(page), "&offset=" + digits) && DecimalValue(digits) == Offset(page)
  {
    var digits := NatToDecimal(Offset(page));
    var stem := MemosApiUrl + "/api/v1/memo?creatorUsername=host&limit=" + NatToDecimal(PageSize);
    var tail := "&offset=" + digits;
    assert QueryPrefix() == stem + "&offset=";
    assert RequestUrl(page) == stem + tail;
    assert (stem + tail)[|stem|..] == tail;
    DecimalRoundTrip(Offset(page));
  }

  /** What the body of a successful response parses to. */
  datatype Body =
    | MemoArray(items: seq<Memo>)
    | OtherJson
    | BadJson(message: string)

  /** What `fetch` gives: a rejection (network failure), or a response. */
  datatype Response =
    | NetworkFailure(message: string)
    | Received(status: int, statusText: string, body: Body)

  /** `response.ok`. */
  predicate StatusOk(status: int) {
    200 <= status <= 299
  }

  predicate IsPublic(m: Memo) {
    m.visibility == "PUBLIC"
  }

  function PublicMemos(items: seq<Memo>): (r: seq<Memo>)
    ensures forall m :: m in r <==> m in items && IsPublic(m)
    ensures forall m :: multiset(r)[m] == if IsPublic(m) then multiset(items)[m] else 0
    ensures Subsequence(r, items)
  {
    FilterIsSubsequence(IsPublic, items);
    FilterCounts(IsPublic, items);
    Filter(IsPublic, items)
  }

  function HttpErrorMessage(status: int, statusText: string): string {
    "请求失败: " + IntToDecimal(status) + " " + statusText
  }

  /** The `try` block of `fetchMemos`: the memos to show, or the message of
      the error it throws. */
  function Outcome(response: Response): (r: Result<seq<Memo>, string>)
    ensures r.Ok? <==> response.Received? && StatusOk(response.status) && !response.body.BadJson?
    ensures r.Ok? && response.body.MemoArray? ==> r.value == PublicMemos(response.body.items)
    ensures r.Ok? && response.body.OtherJson? ==> r.value == []
    ensures response.Received? && !StatusOk(response.status) ==>
              r == Err(HttpErrorMessage(response.status, response.statusText))
    ensures response.NetworkFailure? ==> r == Err(response.message)
    ensures response.Received? && StatusOk(response.status) && response.body.BadJson? ==>
              r == Err(response.body.message)
  {
    match response
    case NetworkFailure(message) => Err(message)
    case Received(status, statusText, body) =>
      if !StatusOk(status) then Err(HttpErrorMessage(status, statusText))
      else match body
        case MemoArray(items) => Ok(PublicMemos(items))
        case OtherJson => Ok([])
        case BadJson(message) => Err(message)
  }

  // ---------------------------------------------------------------------
  // The state and its transitions

  datatype PageState = PageState(
    memos: seq<Memo>,
    loading: bool,
    error: Option<string>,
    currentPage: int,
    hasNextPage: bool)

  function InitialState(): PageState {
    PageState([], true, None, 1, false)
  }

  /** The start of `fetchMemos`. */
  function Started(s: PageState): (r: PageState)
    ensures r.loading && r.error.None?
    ensures r.memos == s.memos && r.currentPage == s.currentPage && r.hasNextPage == s.hasNextPage
  {
    s.(loading := true, error := None)
  }

  /** The end of `fetchMemos`, once `response` has arrived: on success the
      memos and the next-page flag are replaced; on failure only the error is
      set; either way loading ends. */
  function Finished(s: PageState, response: Response): (r: PageState)
    ensures !r.loading && r.currentPage == s.currentPage
    ensures Outcome(response).Ok? ==>
              r.memos == Outcome(response).value && r.error == s.error &&
              (r.hasNextPage <==> |r.memos| == PageSize)
    ensures Outcome(response).Err? ==>
              r.memos == s.memos && r.hasNextPage == s.hasNextPage &&
              r.error == Some(Outcome(response).error)
  {
    match Outcome(response)
    case Ok(shown) => s.(memos := shown, hasNextPage := |shown| == PageSize, loading := false)
    case Err(message) => s.(error := Some(message), loading := false)
  }

  /** `handlePageChange`: a page number that is not positive is ignored. */
  function PageChanged(s: PageState, newPage: int): (r: PageState)
    ensures newPage <= 0 ==> r == s
    ensures newPage > 0 ==> r.currentPage == newPage && r == s.(currentPage := newPage)
  {
    if newPage > 0 then s.(currentPage := newPage) else s
  }

  /** What holds of every state the page can reach. */
  predicate Inv(s: PageState) {
    && s.currentPage >= 1
    && (s.loading ==> s.error.None?)
    && (s.hasNextPage ==> |s.memos| == PageSize)
  }

  /** What can happen to the page: a fetch starts, a response arrives, or a
      page control is clicked. */
  datatype Event =
    | FetchStarted
    | ResponseArrived(response: Response)
    | PageClicked(newPage: int)

  function Step(s: PageState, e: Event): PageState {
    match e
    case FetchStarted => Started(s)
    case ResponseArrived(response) => Finished(s, response)
    case PageClicked(newPage) => PageChanged(s, newPage)
  }

  function Run(s: PageState, events: seq<Event>): PageState
    decreases |events|
  {
    if events == [] then s else Run(Step(s, events[0]), events[1..])
  }

  lemma StepKeepsInv(s: PageState, e: Event)
    requires Inv(s)
    ensures Inv(Step(s, e))
  {
  }

  /** Whatever happens, in whatever order, the page number stays positive,
      the skeleton never hides an error, and the next page is offered only
      after a full page. */
  lemma {:induction false} RunKeepsInv(s: PageState, events: seq<Event>)
    requires Inv(s)
    ensures Inv(Run(s, events))
    decreases |events|
  {
    if events != [] {
      StepKeepsInv(s, events[0]);
      RunKeepsInv(Step(s, events[0]), events[1..]);
    }
  }

  lemma Reachable(events: seq<Event>)
    ensures Inv(Run(InitialState(), events))
  {
    RunKeepsInv(InitialState(), events);
  }

  // ---------------------------------------------------------------------
  // Rendering

  /** `if (error)`: an empty message counts as no error. */
  predicate HasError(s: PageState)
    ensures HasError(s) ==> s.error.Some?
    ensures s.error == Some("") ==> !HasError(s)
  {
    s.error.Some? && s.error.value != ""
  }

  /** What `renderContent` shows. */
  datatype View =
    | Skeleton
    | ErrorCard(detail: string)
    | EmptyNotice
    | MemoList(cards: seq<Memo>)

  function ViewOf(s: PageState): (v: View)
    ensures v.Skeleton? <==> s.loading
    ensures v.ErrorCard? <==> !s.loading && HasError(s)
    ensures v.ErrorCard? ==> v.detail == s.error.value
    ensures v.EmptyNotice? <==> !s.loading && !HasError(s) && s.memos == [] && s.currentPage == 1
    ensures v.MemoList? ==> v.cards == s.memos
  {
    if s.loading then Skeleton
    else if HasError(s) then ErrorCard(s.error.value)
    else if |s.memos| == 0 && s.currentPage == 1 then EmptyNotice
    else MemoList(s.memos)
  }

  predicate ShowsPagination(s: PageState)
    ensures ShowsPagination(s) ==> ViewOf(s) == MemoList(s.memos)
  {
    !s.loading && !HasError(s) && (|s.memos| > 0 || s.currentPage > 1)
  }

  /** The "previous" control is greyed out on the first page. */
  predicate PreviousDisabled(s: PageState)
    ensures Inv(s) ==> (PreviousDisabled(s) <==> s.currentPage == 1)
  {
    s.currentPage <= 1
  }

  /** The "next" control is greyed out unless the last page was full. */
  predicate NextDisabled(s: PageState)
    ensures Inv(s) && !NextDisabled(s) ==> |s.memos| == PageSize
  {
    !s.hasNextPage
  }

  /** The controls appear only under a list of memos, and whenever the page
      has finished loading without an error, either they or the empty notice
      appear: a reader on an empty later page can always go back. */
  lemma PaginationPlacement(s: PageState)
    requires Inv(s)
    ensures ShowsPagination(s) ==> ViewOf(s).MemoList?
    ensures !s.loading && !HasError(s) ==> ShowsPagination(s) || ViewOf(s) == EmptyNotice
  {
  }

  /** The click on "previous" asks for page `currentPage - 1`; on the first
      page that is ignored. The click on "next" always moves one page on. */
  lemma ControlClicks(s: PageState)
    requires Inv(s)
    ensures PreviousDisabled(s) ==> PageChanged(s, s.currentPage - 1) == s
    ensures !PreviousDisabled(s) ==> PageChanged(s, s.currentPage - 1).currentPage == s.currentPage - 1
    ensures PageChanged(s, s.currentPage + 1).currentPage == s.currentPage + 1
  {
  }

  /** After a fetch answered with any 2xx status and a memo array, "next"
      is enabled exactly when the response held `PageSize` public memos. */
  lemma NextAfterFetch(s: PageState, status: int, statusText: string, items: seq<Memo>)
    requires StatusOk(status)
    ensures var r := Finished(Started(s), Received(status, statusText, MemoArray(items)));
            !NextDisabled(r) <==> |PublicMemos(items)| == PageSize
  {
  }

  /** The page size is counted after the visibility filter, so a full page
      of which one memo is private does not offer a next page. */
  lemma PrivateMemoHidesNextPage(pub: Memo, priv: Memo)
    requires IsPublic(pub) && !IsPublic(priv)
    ensures var items := [pub, pub, pub, pub, pub, pub, pub, pub, pub, priv];
            |items| == PageSize &&
            NextDisabled(Finished(Started(InitialState()), Received(200, "OK", MemoArray(items))))
  {
    var items := [pub, pub, pub, pub, pub, pub, pub, pub, pub, priv];
    FilterAppend(IsPublic, items[..9], [priv]);
    assert items == items[..9] + [priv];
    assert |Filter(IsPublic, items[..9])| <= 9;
  }

  // ---------------------------------------------------------------------
  // The component

  class MemosPage {
    var memos: seq<Memo>
    var loading: bool
    var error: Option<string>
    var currentPage: int
    var hasNextPage: bool

    function State(): PageState
      reads this
    {
      PageState(memos, loading, error, currentPage, hasNextPage)
    }

    ghost predicate Valid()
      reads this
    {
      Inv(State())
    }

    /** The initial `useState` values. */
    constructor ()
      ensures Valid() && State() == InitialState()
    {
      memos := [];
      loading := true;
      error := None;
      currentPage := 1;
      hasNextPage := false;
    }

    /** The start of `fetchMemos(page)`: returns the address it requests. */
    method StartFetch(page: int) returns (url: string)
      requires Valid()
      modifies this
      ensures Valid() && State() == Started(old(State()))
      ensures url == RequestUrl(page)
    {
      loading := true;
      error := None;
      var offset := (page - 1) * PageSize;
      url := MemosApiUrl + "/api/v1/memo?creatorUsername=host&limit=" + NatToDecimal(PageSize)
        + "&offset=" + IntToDecimal(offset);
    }

    /** The rest of `fetchMemos`, once `response` has arrived. */
    method FinishFetch(response: Response)
      requires Valid()
      modifies this
      ensures Valid() && State() == Finished(old(State()), response)
    {
      var outcome := Outcome(response);
      if outcome.Ok? {
        memos := outcome.value;
        hasNextPage := |outcome.value| == PageSize;
      } else {
        error := Some(outcome.error);
      }
      loading := false;
    }

    /** `fetchMemos(page)` when nothing else happens while the request is
        under way. */
    method FetchMemos(page: int, response: Response) returns (url: string)
      requires Valid()
      modifies this
      ensures Valid() && State() == Finished(Started(old(State())), response)
      ensures url == RequestUrl(page) && !loading
    {
      url := StartFetch(page);
      FinishFetch(response);
    }

    /** `handlePageChange(newPage)`; `refetch` tells whether the page number
        changed, which is what makes the effect fetch the new page. */
    method HandlePageChange(newPage: int) returns (refetch: bool)
      requires Valid()
      modifies this
      ensures Valid() && State() == PageChanged(old(State()), newPage)
      ensures refetch <==> newPage > 0 && newPage != old(currentPage)
    {
      refetch := false;
      if newPage > 0 {
        refetch := newPage != currentPage;
        currentPage := newPage;
      }
    }
  }
}
