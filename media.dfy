/**
 * Resolving the media behind a post link (`resolveMediaForLink`).  The
 * fetch of the post page and its parsing are foreign calls; their outcome
 * is an input: a failure, or what the page's three queries find.
 */
module Media {
  import opened JsValues

  /** A matched element's `getAttribute('src')` and its `src` property
      (the resolved URL, `""` when the attribute is missing). */
  datatype SrcAttrs = SrcAttrs(attr: Option<string>, prop: string)

  /** What a fetched post page offers. */
  datatype PostPage = PostPage(
    video: Option<SrcAttrs>,      // first of `video source[src], video[src]`
    image: Option<string>,        // the `src` property of `#image[src]`
    anySource: Option<SrcAttrs>)  // first `<source>` typed as video or pointing at .mp4/.webm

  datatype FetchOutcome = FetchFailed | Fetched(page: PostPage)

  /** The three object shapes the resolver returns: `{ src }`, `{ img }` and `{}`. */
  datatype Resolved = VideoMedia(src: Option<string>) | ImageMedia(img: string) | NoMedia

  function AsciiLower(c: char): char {
    if 'A' <= c <= 'Z' then (c as int + 32) as char else c
  }

  /** `s` ends with the lower-case `suffix`, ignoring ASCII case. */
  predicate EndsWithIgnoringCase(s: string, suffix: string) {
    |s| >= |suffix| && forall i :: 0 <= i < |suffix| ==> AsciiLower(s[|s| - |suffix| + i]) == suffix[i]
  }

  /**
   * `/\.(webm|mp4)$/i.test(s)`.  Case-insensitive matching outside Unicode
   * mode never folds a non-ASCII character onto an ASCII one, so folding
   * ASCII letters is exact for these patterns.
   */
  predicate IsVideoUrl(s: string) {
    EndsWithIgnoringCase(s, ".webm") || EndsWithIgnoringCase(s, ".mp4")
  }

  /** The search of the fetched page, first hit wins. */
  function FromPostPage(page: PostPage): Resolved {
    if page.video.Some? then VideoMedia(Or(page.video.value.attr, Some(page.video.value.prop)))
    else if page.image.Some? && !IsVideoUrl(page.image.value) then ImageMedia(page.image.value)
    else if page.anySource.Some? then VideoMedia(page.anySource.value.attr)
    else NoMedia
  }

  /** `resolveMediaForLink(a, hoverVideoSrc)`: `fetch` is what fetching and
      parsing `a.href` would give; it is consulted only without a hover source. */
  function ResolveMedia(hoverVideoSrc: Option<string>, fetch: FetchOutcome): (r: Resolved)
    ensures Truthy(hoverVideoSrc) ==> r == VideoMedia(hoverVideoSrc)
    // an `{img}` result never names a .webm or .mp4 file
    ensures r.ImageMedia? ==> !IsVideoUrl(r.img)
  {
    if Truthy(hoverVideoSrc) then VideoMedia(hoverVideoSrc)
    else
      match fetch
      case FetchFailed => NoMedia
      case Fetched(page) => FromPostPage(page)
  }

  /** A hover source is used as it is, and the fetch outcome plays no part:
      no request is needed. */
  lemma HoverSourceNeedsNoFetch(hover: Option<string>, f1: FetchOutcome, f2: FetchOutcome)
    requires Truthy(hover)
    ensures ResolveMedia(hover, f1) == ResolveMedia(hover, f2) == VideoMedia(hover)
  {
  }

  /** A failed fetch or parse degrades to `{}`. */
  lemma FetchFailureGivesNothing(hover: Option<string>)
    requires !Truthy(hover)
    ensures ResolveMedia(hover, FetchFailed) == NoMedia
  {
  }

  /**
   * The precedence on a fetched page: a video element wins, its raw
   * attribute preferred to the resolved URL; then `#image` as an image,
   * unless it points at a video file; then any video `<source>`, whose
   * `src` may be null; otherwise `{}`.
   */
  lemma PagePrecedence(page: PostPage)
    ensures var r := FromPostPage(page);
            && (page.video.Some? ==>
                  r == VideoMedia(if Truthy(page.video.value.attr) then page.video.value.attr
                                  else Some(page.video.value.prop)))
            && (r.ImageMedia? <==>
                  page.video.None? && page.image.Some? && !IsVideoUrl(page.image.value))
            && (r.ImageMedia? ==> r.img == page.image.value)
            && (page.video.None? && (page.image.None? || IsVideoUrl(page.image.value)) ==>
                  r == if page.anySource.Some? then VideoMedia(page.anySource.value.attr) else NoMedia)
  {
  }

  /** `{}` exactly when there is no hover source and the fetch failed or found nothing. */
  lemma NothingExactlyWhen(hover: Option<string>, fetch: FetchOutcome)
    ensures ResolveMedia(hover, fetch) == NoMedia <==>
            && !Truthy(hover)
            && (|| fetch.FetchFailed?
                || (&& fetch.page.video.None?
                    && (fetch.page.image.None? || IsVideoUrl(fetch.page.image.value))
                    && fetch.page.anySource.None?))
  {
  }

  /** Two strings of the same length whose characters agree up to ASCII case. */
  predicate SameIgnoringCase(s: string, t: string) {
    |s| == |t| && forall i :: 0 <= i < |s| ==> AsciiLower(s[i]) == AsciiLower(t[i])
  }

  lemma SuffixIgnoringCase(s: string, t: string, suffix: string)
    requires SameIgnoringCase(s, t)
    ensures EndsWithIgnoringCase(s, suffix) <==> EndsWithIgnoringCase(t, suffix)
  {
    if EndsWithIgnoringCase(s, suffix) {
      forall i | 0 <= i < |suffix|
        ensures AsciiLower(t[|t| - |suffix| + i]) == suffix[i]
      {
        var k := |s| - |suffix| + i;
        assert AsciiLower(s[k]) == AsciiLower(t[k]);
      }
    }
    if EndsWithIgnoringCase(t, suffix) {
      forall i | 0 <= i < |suffix|
        ensures AsciiLower(s[|s| - |suffix| + i]) == suffix[i]
      {
        var k := |s| - |suffix| + i;
        assert AsciiLower(s[k]) == AsciiLower(t[k]);
      }
    }
  }

  /** The extension test ignores case: strings that differ only in the case
      of ASCII letters are both video URLs or neither. */
  lemma VideoExtensionAnyCase(s: string, t: string)
    requires SameIgnoringCase(s, t)
    ensures IsVideoUrl(s) <==> IsVideoUrl(t)
  {
    SuffixIgnoringCase(s, t, ".webm");
    SuffixIgnoringCase(s, t, ".mp4");
  }

  /** The extension must end the URL: a string whose last character is not
      `m`, `M` or `4` (a query string or fragment after the extension, say)
      is never a video URL. */
  lemma VideoExtensionOnlyAtEnd(s: string)
    requires s == [] || (s[|s| - 1] != 'm' && s[|s| - 1] != 'M' && s[|s| - 1] != '4')
    ensures !IsVideoUrl(s)
  {
    if s != [] {
      var c := s[|s| - 1];
      assert AsciiLower(c) != 'm' && AsciiLower(c) != '4';
      assert AsciiLower(s[|s| - 5 + 4]) != ".webm"[4];
      assert AsciiLower(s[|s| - 4 + 3]) != ".mp4"[3];
    }
  }
}
