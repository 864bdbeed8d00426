/**
 * The decisions `createTile` makes for one harvested entry: which hover
 * preview it records, and what a click on the tile does (`openPeek`'s
 * branch choice included).  Building and cloning elements, and playing the
 * hover preview on `mouseenter`, are left to the render side.
 */
module Tile {
  import opened JsValues
  import opened Media

  /** The markup around a harvested anchor that the hover choice reads. */
  datatype TileMarkup = TileMarkup(
    // first `video, source[type="video/webm"], source[type="video/mp4"]`
    // under the anchor's parent; None also when the anchor has no parent
    nearbyVideo: Option<SrcAttrs>,
    // `a.dataset.previewVideo`
    previewVideo: Option<string>,
    // a `data-sb-hover` attribute the anchor already carries, which
    // `cloneNode` copies onto the tile's link
    presetHover: Option<string>)

  /** The anchor's `href` property (`""` without the attribute) and `title`. */
  datatype Anchor = Anchor(href: string, title: string)

  /** The argument of `openPeek`: `fallbackURL` is `None` when not passed. */
  datatype PeekRequest = PeekRequest(title: string, src: Option<string>, fallbackUrl: Option<string>)

  /** A click either follows the link as usual or opens the overlay. */
  datatype ClickOutcome = FollowLink | OpenPeek(request: PeekRequest)

  /** The three bodies `openPeek` can build. */
  datatype PeekBody = PlayVideo(src: string) | EmbedPage(url: string) | NoPreview

  /** `hoverVideoSrc` in `createTile`: the nearby video's `src` property,
      else its `src` attribute, else `data-preview-video`. */
  function HoverVideoSrc(m: TileMarkup): Option<string> {
    var fromVideo := if m.nearbyVideo.Some? then Or(Some(m.nearbyVideo.value.prop), m.nearbyVideo.value.attr) else None;
    if !Truthy(fromVideo) && Truthy(m.previewVideo) then m.previewVideo else fromVideo
  }

  /** `link.dataset.sbHover || null`, read when the tile is clicked: the
      link carries `hoverVideoSrc` when it is truthy, else whatever the
      cloned anchor brought along. */
  function ClickHoverSrc(m: TileMarkup): (r: Option<string>)
    // null or non-empty, never `""`
    ensures r.None? || Truthy(r)
  {
    var h := HoverVideoSrc(m);
    if Truthy(h) then h else if Truthy(m.presetHover) then m.presetHover else None
  }

  /** The rest of the click handler once the media is resolved. */
  function DispatchClick(shiftKey: bool, a: Anchor, media: Resolved): (r: ClickOutcome)
    ensures r.OpenPeek? <==> shiftKey
    ensures r.OpenPeek? ==> r.request.title == if a.title != "" then a.title else a.href
    ensures r.OpenPeek? ==> (Truthy(r.request.src) <==> media.VideoMedia? && Truthy(media.src))
  {
    if !shiftKey then FollowLink
    else
      var title := if a.title != "" then a.title else a.href;
      if media.VideoMedia? && Truthy(media.src) then OpenPeek(PeekRequest(title, media.src, None))
      else if media.ImageMedia? && media.img != "" then OpenPeek(PeekRequest(title, None, Some(a.href)))
      else OpenPeek(PeekRequest(title, None, Some(a.href)))
  }

  /** The click handler of a tile, with `fetch` the outcome of fetching the post page. */
  function OnTileClick(shiftKey: bool, a: Anchor, m: TileMarkup, fetch: FetchOutcome): ClickOutcome {
    if !shiftKey then FollowLink
    else DispatchClick(shiftKey, a, ResolveMedia(ClickHoverSrc(m), fetch))
  }

  /** `openPeek`'s choice of body. */
  function PeekBodyOf(req: PeekRequest): (b: PeekBody)
    ensures b.PlayVideo? <==> Truthy(req.src)
    ensures b.EmbedPage? <==> !Truthy(req.src) && Truthy(req.fallbackUrl)
    ensures b == NoPreview <==> !Truthy(req.src) && !Truthy(req.fallbackUrl)
  {
    if Truthy(req.src) then PlayVideo(req.src.value)
    else if Truthy(req.fallbackUrl) then EmbedPage(req.fallbackUrl.value)
    else NoPreview
  }

  /** `openPeek`'s header text, `title || 'Preview'`. */
  function PeekHeading(req: PeekRequest): string {
    if req.title != "" then req.title else "Preview"
  }

  /** The nearby element gives a source: a non-empty `src` property or a non-empty `src` attribute. */
  predicate NearbyGivesSource(m: TileMarkup) {
    m.nearbyVideo.Some? && (m.nearbyVideo.value.prop != "" || Truthy(m.nearbyVideo.value.attr))
  }

  /**
   * The hover source handed to the resolver is null or non-empty, never `""`.
   * A nearby element's `src` property comes first, then its `src` attribute;
   * `data-preview-video` is used only when the nearby element gives neither;
   * a `data-sb-hover` the anchor already carried comes last.
   */
  lemma ClickHoverSrcShape(m: TileMarkup)
    ensures var r := ClickHoverSrc(m);
            && (r.None? || Truthy(r))
            && (m.nearbyVideo.Some? && m.nearbyVideo.value.prop != "" ==> r == Some(m.nearbyVideo.value.prop))
            && (m.nearbyVideo.Some? && m.nearbyVideo.value.prop == "" && Truthy(m.nearbyVideo.value.attr) ==>
                  r == m.nearbyVideo.value.attr)
            && (!NearbyGivesSource(m) && Truthy(m.previewVideo) ==> r == m.previewVideo)
            && (!NearbyGivesSource(m) && !Truthy(m.previewVideo) ==>
                  r == if Truthy(m.presetHover) then m.presetHover else None)
            && (r.None? <==> !NearbyGivesSource(m) && !Truthy(m.previewVideo) && !Truthy(m.presetHover))
  {
  }

  /** Without the shift key the click is left alone and nothing is resolved. */
  lemma PlainClickFollowsLink(a: Anchor, m: TileMarkup, fetch: FetchOutcome)
    ensures OnTileClick(false, a, m, fetch) == FollowLink
  {
  }

  /**
   * A shift-click plays a video exactly when the resolved `src` is truthy;
   * otherwise, for `{img}` and `{}` alike, it embeds the post page, unless
   * the anchor has no `href`, the only way to reach "No preview available".
   */
  lemma ShiftClickBody(a: Anchor, media: Resolved)
    ensures var out := DispatchClick(true, a, media);
            && out.OpenPeek?
            && (PeekBodyOf(out.request).PlayVideo? <==> media.VideoMedia? && Truthy(media.src))
            && (PeekBodyOf(out.request).PlayVideo? ==> PeekBodyOf(out.request).src == media.src.value)
            && (!(media.VideoMedia? && Truthy(media.src)) && a.href != "" ==>
                  PeekBodyOf(out.request) == EmbedPage(a.href))
            && (PeekBodyOf(out.request) == NoPreview <==>
                  !(media.VideoMedia? && Truthy(media.src)) && a.href == "")
  {
  }

  /** An image found on the post page is not shown: the click does exactly what it does when nothing was found. */
  lemma ImageTreatedAsNothing(a: Anchor, img: string)
    ensures DispatchClick(true, a, ImageMedia(img)) == DispatchClick(true, a, NoMedia)
  {
  }

  /** The overlay is titled with the anchor's title, else its href, else "Preview". */
  lemma PeekTitle(a: Anchor, media: Resolved)
    ensures var out := DispatchClick(true, a, media);
            PeekHeading(out.request) ==
              if a.title != "" then a.title else if a.href != "" then a.href else "Preview"
  {
  }

  /** A tile with a hover preview plays it on shift-click whatever the post
      page would give: the page is never fetched. */
  lemma HoverPreviewPlaysWithoutFetch(a: Anchor, m: TileMarkup, fetch: FetchOutcome)
    requires ClickHoverSrc(m).Some?
    ensures var out := OnTileClick(true, a, m, fetch);
            out.OpenPeek? && PeekBodyOf(out.request) == PlayVideo(ClickHoverSrc(m).value)
  {
    ClickHoverSrcShape(m);
  }
}
