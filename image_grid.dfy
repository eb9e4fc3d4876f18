/** The image grid of src/app/memos/components/ImageGrid.tsx: a grid of
    thumbnails, each reporting the address of its full-size image when
    clicked. It shares the column rule and the width rule of the media grid. */
module ImageGrid {
  import opened Wrappers
  import opened Text
  import MediaGrid

  datatype ImageResource = ImageResource(name: string, filename: string)

  /** One thumbnail: its `src`, its `alt` text, and the argument its click
      passes to `onImageClick`. */
  datatype Thumb = Thumb(src: string, alt: string, clickSrc: string)

  function ThumbFor(r: ImageResource): (t: Thumb)
    ensures t.clickSrc == MediaGrid.FileUrl(r.name, r.filename)
    ensures t.src == t.clickSrc + MediaGrid.ThumbnailQuery
    ensures t.alt == r.filename
  {
    var fullSrc := MediaGrid.FileUrl(r.name, r.filename);
    Thumb(fullSrc + MediaGrid.ThumbnailQuery, r.filename, fullSrc)
  }

  datatype Grid = Grid(className: string, maxWidth: Option<string>, thumbs: seq<Thumb>)

  /** `ImageGrid`: nothing without images; otherwise one thumbnail per
      image, in the order given. */
  function Render(images: seq<ImageResource>): (g: Option<Grid>)
    ensures g.None? <==> images == []
    ensures g.Some? ==>
              && g.value.className == "mt-3 grid gap-1 " + MediaGrid.GridClass(|images|)
              && g.value.maxWidth == MediaGrid.MaxWidth(|images|)
              && |g.value.thumbs| == |images|
              && forall i :: 0 <= i < |images| ==> g.value.thumbs[i] == ThumbFor(images[i])
  {
    if |images| == 0 then None
    else
      Some(Grid("mt-3 grid gap-1 " + MediaGrid.GridClass(|images|), MediaGrid.MaxWidth(|images|),
                seq(|images|, i requires 0 <= i < |images| => ThumbFor(images[i]))))
  }

  /** What a click reports is the displayed address without the thumbnail
      query: the full-size image of the same file. */
  lemma ClickReportsFullSize(images: seq<ImageResource>, i: nat)
    requires Render(images).Some? && i < |Render(images).value.thumbs|
    ensures var t := Render(images).value.thumbs[i];
            StripSuffix(t.src, MediaGrid.ThumbnailQuery) == t.clickSrc &&
            t.clickSrc == MediaGrid.FileUrl(images[i].name, images[i].filename)
  {
    var t := Render(images).value.thumbs[i];
    StripAppended(t.clickSrc, MediaGrid.ThumbnailQuery);
  }
}
