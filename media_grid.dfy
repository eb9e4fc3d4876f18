/** The media grid of src/app/memos/ImageGrid.tsx: the images and videos
    among a memo's resources, laid out in one to three columns, each tile
    reporting its index in the media list when clicked. */
module MediaGrid {
  import opened Wrappers
  import opened Seqs
  import opened Text

  /** `MemoResource` of src/app/memos/types.ts. */
  datatype MemoResource = MemoResource(name: string, filename: string, mimeType: string)

  const FileBase: string := "http://memos.cattk.com/file/"
  const ThumbnailQuery: string := "?thumbnail=true"
  const PosterFragment: string := "#t=0.1"

  /** The address of a resource's file. */
  function FileUrl(name: string, filename: string): (url: string)
    ensures StartsWith(url, FileBase)
    ensures EndsWith(url, "/" + filename)
    ensures |url| == |FileBase| + |name| + 1 + |filename|
    ensures url[|FileBase|..|FileBase| + |name|] == name
  {
    var url := FileBase + name + "/" + filename;
    assert url[..|FileBase|] == FileBase;
    assert url == (FileBase + name) + ("/" + filename);
    url
  }

  predicate IsVideo(r: MemoResource) {
    StartsWith(r.mimeType, "video/")
  }

  predicate IsMedia(r: MemoResource) {
    StartsWith(r.mimeType, "image/") || IsVideo(r)
  }

  /** `mediaResources`: the images and videos, in the order given. */
  function MediaResources(resources: seq<MemoResource>): (media: seq<MemoResource>)
    ensures forall r :: r in media <==> r in resources && IsMedia(r)
    ensures forall r :: multiset(media)[r] == if IsMedia(r) then multiset(resources)[r] else 0
    ensures Subsequence(media, resources)
  {
    FilterIsSubsequence(IsMedia, resources);
    FilterCounts(IsMedia, resources);
    Filter(IsMedia, resources)
  }

  /** `getGridClass`. */
  function GridClass(count: nat): (cls: string)
    ensures cls == "grid-cols-1" <==> count == 1
    ensures cls == "grid-cols-2" <==> count == 2 || count == 4
    ensures cls == "grid-cols-3" <==> count != 1 && count != 2 && count != 4
  {
    if count == 1 then "grid-cols-1"
    else if count == 2 || count == 4 then "grid-cols-2"
    else "grid-cols-3"
  }

  /** The number of columns a grid class lays out. */
  function Columns(count: nat): (c: nat)
    ensures GridClass(count) == "grid-cols-" + NatToDecimal(c)
  {
    if count == 1 then 1 else if count == 2 || count == 4 then 2 else 3
  }

  /** A grid never has an empty column, and two or four items fill whole
      rows of two. */
  lemma ColumnsFitCount(count: nat)
    requires count >= 1
    ensures 1 <= Columns(count) <= count && Columns(count) <= 3
    ensures Columns(count) == 1 <==> count == 1
    ensures count == 2 || count == 4 ==> count % Columns(count) == 0 && Columns(count) == 2
  {
  }

  /** `getSingleMediaStyle`: the width is limited for a single item only. */
  function MaxWidth(count: nat): (w: Option<string>)
    ensures w.Some? <==> count == 1
    ensures w.Some? ==> w.value == "66.66%"
  {
    if count == 1 then Some("66.66%") else None
  }

  /** One tile: its `src`, whether it is a video, its `alt` text (images
      only), and the argument its click passes to `onMediaClick`. */
  datatype Tile = Tile(src: string, isVideo: bool, alt: Option<string>, clickIndex: nat)

  function TileFor(r: MemoResource, index: nat): (t: Tile)
    ensures t.clickIndex == index && t.isVideo == IsVideo(r)
    ensures t.isVideo ==> t.src == FileUrl(r.name, r.filename) + PosterFragment && t.alt.None?
    ensures !t.isVideo ==> t.src == FileUrl(r.name, r.filename) + ThumbnailQuery && t.alt == Some(r.filename)
  {
    var fullSrc := FileUrl(r.name, r.filename);
    if IsVideo(r) then Tile(fullSrc + PosterFragment, true, None, index)
    else Tile(fullSrc + ThumbnailQuery, false, Some(r.filename), index)
  }

  datatype Grid = Grid(className: string, maxWidth: Option<string>, tiles: seq<Tile>)

  /** `ImageGrid`: nothing without media; otherwise one tile per medium. */
  function Render(resources: seq<MemoResource>): (g: Option<Grid>)
    ensures g.None? <==> MediaResources(resources) == []
    ensures g.Some? ==> var media := MediaResources(resources);
              && g.value.className == "mt-3 grid gap-1 " + GridClass(|media|)
              && g.value.maxWidth == MaxWidth(|media|)
              && |g.value.tiles| == |media|
              && forall i :: 0 <= i < |media| ==> g.value.tiles[i] == TileFor(media[i], i)
  {
    var media := MediaResources(resources);
    var count := |media|;
    if count == 0 then None
    else
      Some(Grid("mt-3 grid gap-1 " + GridClass(count), MaxWidth(count),
                seq(count, i requires 0 <= i < count => TileFor(media[i], i))))
  }

  /** A click on tile `i` reports `i`, an index into the media list (not
      into the resources), and that index selects the clicked medium. */
  lemma ClickSelectsTile(resources: seq<MemoResource>, i: nat)
    requires Render(resources).Some? && i < |Render(resources).value.tiles|
    ensures var media := MediaResources(resources);
            var t := Render(resources).value.tiles[i];
            t.clickIndex == i && t.clickIndex < |media| && t == TileFor(media[t.clickIndex], i)
  {
  }

  /** Removing the query or the fragment from a tile's `src` gives back the
      address of its file. */
  lemma TileSourceStripsToFile(r: MemoResource, index: nat)
    ensures var t := TileFor(r, index);
            StripSuffix(t.src, if t.isVideo then PosterFragment else ThumbnailQuery) == FileUrl(r.name, r.filename)
  {
    StripAppended(FileUrl(r.name, r.filename), PosterFragment);
    StripAppended(FileUrl(r.name, r.filename), ThumbnailQuery);
  }
}
