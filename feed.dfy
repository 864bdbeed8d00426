/**
 * The feed controller: the content script's module state and the events
 * that change it.  Each event is one synchronous run of a handler; the
 * scroll handler's `await` splits it into a start and a completion, and
 * the mutation observer's deferred work into a signal and an animation
 * frame.  Any interleaving of these calls is a possible run of the page.
 *
 * Documents are numbered: the live page is document 0 and every page the
 * scroll handler fetches is parsed into a new one.  The `style.display`
 * values of the page's original list containers are an array the
 * controller writes in place.
 */
module Feed {
  import opened JsValues
  import opened NextPage
  import opened Harvest

  const GridId := "sb-grid"
  const HideThreshold := 6
  const LiveDoc: nat := 0

  /** `cleanupEnabled && foundCount >= 6`. */
  predicate ShouldHide(cleanupEnabled: bool, foundCount: int) {
    cleanupEnabled && foundCount >= HideThreshold
  }

  function DisplayFor(hidden: bool): string {
    if hidden then "none" else ""
  }

  function CleanupLabel(enabled: bool): string {
    if enabled then "Cleanup: ON" else "Cleanup: OFF"
  }

  /** What the scroll handler's fetch and parse give: an error, or the
      fetched document's thumbnail matches and its first next link. */
  datatype PageFetch = PageFetchFailed | PageFetched(matches: seq<ImgMatch>, nextLink: Option<Href>)

  class FeedController {
    var cleanupEnabled: bool
    var loadingNext: bool
    var pageNextUrl: Option<Href>
    var moScheduled: bool
    var lastFoundCount: nat
    /** The anchors this script has given `data-sb-added`, over all documents. */
    var marked: set<NodeRef>
    /** The tiles appended to `#sb-grid`, in order. */
    var grid: seq<Thumb>
    /** The scroll handler's `currentURL`, kept across its `await`. */
    var currentUrl: Href
    /** The number of documents so far; the next fetched page gets this number. */
    ghost var docsParsed: nat
    /** `location.href` of the live page. */
    const location: Href
    /** `style.display` of each element matching the original-list selectors, and its id. */
    const lists: array<string>
    const listIds: seq<string>

    ghost predicate Valid()
      reads this
    {
      && lists.Length == |listIds|
      && lastFoundCount == |grid|
      && marked == AnchorsOf(grid)
      && DistinctAnchors(grid)
      && LiveDoc < docsParsed
      && (forall a :: a in marked ==> a.doc < docsParsed)
      && (pageNextUrl.Some? ==> HrefTruthy(pageNextUrl.value))
    }

    /** The cursor passes `!pageNextURL`'s test. */
    predicate HasCursor()
      reads this
    {
      pageNextUrl.Some? && HrefTruthy(pageNextUrl.value)
    }

    /** Every list container but the grid shows `DisplayFor(hidden)`; the grid keeps `before`. */
    ghost predicate ListsShow(hidden: bool, before: seq<string>)
      reads this, lists
    {
      && lists.Length == |listIds| == |before|
      && forall i :: 0 <= i < lists.Length ==>
           lists[i] == if listIds[i] == GridId then before[i] else DisplayFor(hidden)
    }

    /** `renderInitial`: the module state's initial values, then the first
        harvest of the live page, the hide rule and the first cursor. */
    constructor RenderInitial(live: seq<ImgMatch>, nextLink: Option<Href>, location: Href,
                              lists: array<string>, listIds: seq<string>)
      requires FromDoc(live, LiveDoc) && MarkFlagsAgree(live)
      requires lists.Length == |listIds|
      modifies lists
      ensures Valid()
      ensures this.location == location && this.lists == lists && this.listIds == listIds
      ensures grid == Scan(live, {}).found && marked == Scan(live, {}).marked
      ensures lastFoundCount == |grid|
      ensures pageNextUrl == DetectNextUrl(nextLink, location, location)
      ensures cleanupEnabled && !loadingNext && !moScheduled
      ensures docsParsed == 1
      ensures ListsShow(ShouldHide(true, |grid|), old(lists[..]))
    {
      this.location := location;
      this.lists := lists;
      this.listIds := listIds;
      cleanupEnabled := true;
      loadingNext := false;
      pageNextUrl := None;
      moScheduled := false;
      lastFoundCount := 0;
      marked := {};
      grid := [];
      currentUrl := location;
      docsParsed := 1;
      new;
      ScanMarksOwnDocument(live, LiveDoc, {});
      GridStaysDeduplicated([], {}, live);
      var nodes := CollectThumbNodes(live);
      lastFoundCount := |nodes|;
      grid := grid + nodes;
      MaybeHideOriginalLists(lastFoundCount);
      pageNextUrl := DetectNextUrl(nextLink, location, location);
    }

    /** `collectThumbNodes(root)`: one pass over `root`'s matches, marking
        each anchor it takes. */
    method CollectThumbNodes(matches: seq<ImgMatch>) returns (nodes: seq<Thumb>)
      modifies this`marked
      ensures ScanState(nodes, marked) == Scan(matches, old(marked))
    {
      nodes := [];
      var i := 0;
      while i < |matches|
        invariant 0 <= i <= |matches|
        invariant ScanState(nodes, marked) == Scan(matches[..i], old(marked))
      {
        var img := matches[i];
        assert matches[..i + 1][..i] == matches[..i];
        if !img.inGrid {
          var a := img.anchor;
          if a.Some? {
            if !img.foreignMark && a.value !in marked {
              marked := marked + {a.value};
              nodes := nodes + [Thumb(a.value, img.img)];
            }
          }
        }
        i := i + 1;
      }
      assert matches[..i] == matches;
    }

    /** `maybeHideOriginalLists(foundCount)`. */
    method MaybeHideOriginalLists(foundCount: int)
      requires lists.Length == |listIds|
      modifies lists
      ensures ListsShow(ShouldHide(cleanupEnabled, foundCount), old(lists[..]))
    {
      var shouldHide := ShouldHide(cleanupEnabled, foundCount);
      var i := 0;
      while i < lists.Length
        invariant 0 <= i <= lists.Length
        invariant forall k :: 0 <= k < i ==>
                    lists[k] == if listIds[k] == GridId then old(lists[k]) else DisplayFor(shouldHide)
        invariant forall k :: i <= k < lists.Length ==> lists[k] == old(lists[k])
      {
        if listIds[i] != GridId {
          lists[i] := if shouldHide then "none" else "";
        }
        i := i + 1;
      }
    }

    /** The cleanup button: flip the flag and apply the hide rule to the count so far. */
    method ToggleCleanup() returns (buttonText: string)
      requires Valid()
      modifies this`cleanupEnabled, lists
      ensures Valid()
      ensures cleanupEnabled == !old(cleanupEnabled)
      ensures buttonText == CleanupLabel(cleanupEnabled)
      ensures ListsShow(ShouldHide(cleanupEnabled, lastFoundCount), old(lists[..]))
    {
      cleanupEnabled := !cleanupEnabled;
      buttonText := if cleanupEnabled then "Cleanup: ON" else "Cleanup: OFF";
      MaybeHideOriginalLists(lastFoundCount);
    }

    /**
     * A scroll event, up to the `await`: it starts a fetch, returned as the
     * URL requested, only when no fetch is in flight, there is a cursor and
     * the page is near the bottom; the flag is set before the fetch, so a
     * second scroll before the completion starts nothing.
     */
    method ScrollStart(nearBottom: bool) returns (request: Option<Href>)
      requires Valid()
      modifies this`loadingNext, this`currentUrl
      ensures Valid()
      ensures request.Some? <==> !old(loadingNext) && HasCursor() && nearBottom
      ensures request.Some? ==> request == pageNextUrl && loadingNext && currentUrl == request.value
      ensures request.None? ==> loadingNext == old(loadingNext) && currentUrl == old(currentUrl)
    {
      request := None;
      if loadingNext || !HasCursor() {
        return;
      }
      if !nearBottom {
        return;
      }
      loadingNext := true;
      currentUrl := pageNextUrl.value;
      request := Some(currentUrl);
    }

    /**
     * The scroll handler after its `await`.  A fetched page is a fresh
     * document, so the registry plays no part in what it yields.  The
     * cursor comes from the fetched page, unless the page yielded nothing
     * or the fetch failed, which end pagination.  The flag is cleared in
     * every case.
     */
    method ScrollComplete(outcome: PageFetch) returns (newNodes: seq<Thumb>)
      requires Valid() && loadingNext
      requires outcome.PageFetched? ==> FromDoc(outcome.matches, docsParsed) && MarkFlagsAgree(outcome.matches)
      modifies this`loadingNext, this`pageNextUrl, this`lastFoundCount, this`marked, this`grid,
               this`docsParsed
      ensures Valid() && !loadingNext
      ensures outcome.PageFetchFailed? ==>
                pageNextUrl == None && newNodes == [] && grid == old(grid) && marked == old(marked)
      ensures outcome.PageFetched? ==>
                && newNodes == Scan(outcome.matches, {}).found
                && marked == old(marked) + Scan(outcome.matches, {}).marked
                && pageNextUrl == (if newNodes == [] then None
                                   else DetectNextUrl(outcome.nextLink, currentUrl, location))
      ensures grid == old(grid) + newNodes && lastFoundCount == old(lastFoundCount) + |newNodes|
      // pagination never re-applies the hide rule
      ensures lists[..] == old(lists[..])
      // a fetched page is numbered, so the next one gets a fresh number
      ensures docsParsed == old(docsParsed) + (if outcome.PageFetched? then 1 else 0)
    {
      match outcome {
        case PageFetchFailed =>
          newNodes := [];
          pageNextUrl := None;
        case PageFetched(matches, nextLink) =>
          FreshDocumentUnmarked(matches, docsParsed, marked);
          ScanOfUnmarkedDocument(matches, marked);
          ScanMarksOwnDocument(matches, docsParsed, marked);
          GridStaysDeduplicated(grid, marked, matches);
          newNodes := CollectThumbNodes(matches);
          grid := grid + newNodes;
          if |newNodes| > 0 {
            lastFoundCount := lastFoundCount + |newNodes|;
          }
          pageNextUrl := DetectNextUrl(nextLink, currentUrl, location);
          if |newNodes| == 0 {
            pageNextUrl := None;
          }
          docsParsed := docsParsed + 1;
      }
      loadingNext := false;
    }

    /** A mutation-observer callback: it asks for an animation frame only if
        none is pending; while one is, signals change nothing. */
    method MutationSignal() returns (frameRequested: bool)
      requires Valid()
      modifies this`moScheduled
      ensures Valid()
      ensures frameRequested == !old(moScheduled) && moScheduled
    {
      frameRequested := false;
      if moScheduled {
        return;
      }
      moScheduled := true;
      frameRequested := true;
    }

    /** The animation-frame callback: rescan the live page; only when it
        finds entries are they counted and the hide rule re-applied. */
    method AnimationFrame(live: seq<ImgMatch>) returns (nodes: seq<Thumb>)
      requires Valid() && moScheduled
      requires FromDoc(live, LiveDoc) && MarkFlagsAgree(live)
      modifies this`moScheduled, this`lastFoundCount, this`marked, this`grid, lists
      ensures Valid() && !moScheduled
      ensures ScanState(nodes, marked) == Scan(live, old(marked))
      ensures grid == old(grid) + nodes && lastFoundCount == old(lastFoundCount) + |nodes|
      ensures nodes != [] ==> ListsShow(ShouldHide(cleanupEnabled, lastFoundCount), old(lists[..]))
      ensures nodes == [] ==> lists[..] == old(lists[..])
    {
      moScheduled := false;
      ScanMarksOwnDocument(live, LiveDoc, marked);
      GridStaysDeduplicated(grid, marked, live);
      nodes := CollectThumbNodes(live);
      if |nodes| > 0 {
        lastFoundCount := lastFoundCount + |nodes|;
        grid := grid + nodes;
        MaybeHideOriginalLists(lastFoundCount);
      } else {
        assert grid + nodes == grid;
      }
    }
  }

  /** One scroll that loads page number `d`, holding one thumbnail and a
      next link `link`, on a controller whose cursor is `link`. */
  method LoadOnePage(c: FeedController, link: Option<Href>, d: nat)
    requires c.Valid() && !c.loadingNext && c.pageNextUrl == link && c.docsParsed == d
    requires link.Some? && HrefTruthy(link.value)
    modifies c
    ensures c.Valid() && !c.loadingNext && c.pageNextUrl == link && c.docsParsed == d + 1
    ensures |c.grid| == old(|c.grid|) + 1 && c.lastFoundCount == |c.grid|
  {
    var page := [ImgMatch(NodeRef(d, 2), false, Some(NodeRef(d, 1)), false)];
    var r := c.ScrollStart(true);
    assert r.Some?;
    assert FromDoc(page, d) && MarkFlagsAgree(page);
    var n := c.ScrollComplete(PageFetched(page, link));
    assert |n| == 1 by {
      assert Scan(page, {}).found == [Thumb(NodeRef(d, 1), NodeRef(d, 2))];
    }
  }

  /** A run of the page: the initial render, then two scrolls that each load
      a page with one thumbnail and a next link.  Every call's precondition
      is met by what the earlier calls promise. */
  method TwoPagesLoad(lists: array<string>, listIds: seq<string>, location: Href, next: string)
    returns (c: FeedController)
    requires lists.Length == |listIds| && next != ""
    modifies lists
    ensures c.Valid() && !c.loadingNext && |c.grid| == 2 && c.lastFoundCount == 2
  {
    var link := Some(Unparsed(next));
    c := new FeedController.RenderInitial([], link, location, lists, listIds);
    assert |c.grid| == 0 by {
      assert Scan([], {}).found == [];
    }
    LoadOnePage(c, link, 1);
    LoadOnePage(c, link, 2);
  }
}
