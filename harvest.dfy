/**
 * Harvesting thumbnails (`collectThumbNodes`).  The selector engine is
 * abstracted: a document is given as the images its thumbnail selectors
 * match, in document order, each with whether it lies inside the
 * script's own `#sb-grid` and the nearest enclosing anchor (`closest('a')`),
 * if any.  Nodes are `(document, node)` pairs, so that a page parsed from
 * a fetch, a fresh document, never shares a node with the live page.
 *
 * The `data-sb-added` attributes this script sets are the registry: the
 * set of marked anchors.  An attribute the anchor got otherwise is a flag
 * on the match.  `Scan` is the specification of one pass; the pass
 * itself, which updates the registry in place, is a method of the feed
 * controller.
 */
module Harvest {
  import opened JsValues

  datatype NodeRef = NodeRef(doc: nat, node: nat)

  /**
   * One matched image.  `foreignMark` says that its anchor carries a
   * `data-sb-added` this script did not set: markup that had it before the
   * script ran, or a copy the page made of an anchor the script had marked
   * (the attribute survives `cloneNode` and `innerHTML`).
   */
  datatype ImgMatch = ImgMatch(img: NodeRef, inGrid: bool, anchor: Option<NodeRef>, foreignMark: bool)

  /** One harvested entry, `{ a, img }`. */
  datatype Thumb = Thumb(anchor: NodeRef, img: NodeRef)

  /** What a pass has produced so far: the entries, and the marked anchors. */
  datatype ScanState = ScanState(found: seq<Thumb>, marked: set<NodeRef>)

  /** Not inside the grid, inside some anchor, and that anchor does not
      carry a mark this script did not set. */
  predicate Eligible(m: ImgMatch) {
    !m.inGrid && m.anchor.Some? && !m.foreignMark
  }

  /** All nodes of the matches belong to document `d`. */
  predicate FromDoc(ms: seq<ImgMatch>, d: nat) {
    forall j :: 0 <= j < |ms| ==>
      ms[j].img.doc == d && (ms[j].anchor.Some? ==> ms[j].anchor.value.doc == d)
  }

  /** The body of the `forEach` callback for one matched image. */
  function Visit(st: ScanState, m: ImgMatch): ScanState {
    if Eligible(m) && m.anchor.value !in st.marked
    then ScanState(st.found + [Thumb(m.anchor.value, m.img)], st.marked + {m.anchor.value})
    else st
  }

  /** A whole pass over the matches, in document order, from registry `marked`. */
  function Scan(ms: seq<ImgMatch>, marked: set<NodeRef>): (r: ScanState)
    // the registry only grows, and there is at most one entry per image
    ensures marked <= r.marked
    ensures |r.found| <= |ms|
    decreases |ms|
  {
    if ms == [] then ScanState([], marked) else Visit(Scan(ms[..|ms| - 1], marked), ms[|ms| - 1])
  }

  function AnchorsOf(ts: seq<Thumb>): set<NodeRef> {
    set i | 0 <= i < |ts| :: ts[i].anchor
  }

  predicate DistinctAnchors(ts: seq<Thumb>) {
    forall i, j :: 0 <= i < j < |ts| ==> ts[i].anchor != ts[j].anchor
  }

  /** The anchors of the eligible matches. */
  function EligibleAnchors(ms: seq<ImgMatch>): set<NodeRef> {
    set j | 0 <= j < |ms| && Eligible(ms[j]) :: ms[j].anchor.value
  }

  /**
   * The independent description of a pass: the image at `j` yields an
   * entry when it is eligible and its anchor was unmarked when it was
   * reached, that is, not marked by the script beforehand and not taken by
   * an earlier eligible image.
   */
  ghost predicate Kept(ms: seq<ImgMatch>, j: int, marked: set<NodeRef>)
    requires 0 <= j < |ms|
  {
    && Eligible(ms[j])
    && ms[j].anchor.value !in marked
    && forall k :: 0 <= k < j && Eligible(ms[k]) ==> ms[k].anchor.value != ms[j].anchor.value
  }

  function ThumbOf(m: ImgMatch): Thumb
    requires Eligible(m)
  {
    Thumb(m.anchor.value, m.img)
  }

  lemma EligibleAnchorsSnoc(ms: seq<ImgMatch>)
    requires ms != []
    ensures var last := ms[|ms| - 1];
            EligibleAnchors(ms)
            == EligibleAnchors(ms[..|ms| - 1]) + (if Eligible(last) then {last.anchor.value} else {})
  {
    var p := ms[..|ms| - 1];
    assert forall j :: 0 <= j < |p| ==> p[j] == ms[j];
  }

  /**
   * The registry grows by exactly the anchors of the eligible images; the
   * entries' anchors are exactly the newly marked ones, one entry each.
   */
  lemma {:induction false} ScanAccounting(ms: seq<ImgMatch>, marked: set<NodeRef>)
    ensures var st := Scan(ms, marked);
            && st.marked == marked + EligibleAnchors(ms)
            && AnchorsOf(st.found) == st.marked - marked
            && DistinctAnchors(st.found)
            && |st.found| <= |ms|
    decreases |ms|
  {
    if ms != [] {
      var p := ms[..|ms| - 1];
      var last := ms[|ms| - 1];
      ScanAccounting(p, marked);
      EligibleAnchorsSnoc(ms);
      var prev := Scan(p, marked);
      if Eligible(last) && last.anchor.value !in prev.marked {
        var found := prev.found + [ThumbOf(last)];
        assert forall i :: 0 <= i < |prev.found| ==> found[i] == prev.found[i];
        assert found[|prev.found|].anchor == last.anchor.value;
        forall a | a in AnchorsOf(found)
          ensures a in AnchorsOf(prev.found) + {last.anchor.value}
        {
          var i :| 0 <= i < |found| && found[i].anchor == a;
          if i < |prev.found| {
            assert prev.found[i].anchor == a;
          }
        }
        assert AnchorsOf(found) == AnchorsOf(prev.found) + {last.anchor.value};
      }
    }
  }

  /**
   * `collectThumbNodes` returns, in document order, exactly the entries of
   * the images `Kept` describes: `idx` lists their positions.
   */
  lemma {:induction false} ScanSelects(ms: seq<ImgMatch>, marked: set<NodeRef>) returns (idx: seq<nat>)
    ensures var found := Scan(ms, marked).found;
            && |idx| == |found|
            && (forall p :: 0 <= p < |idx| ==>
                  idx[p] < |ms| && Eligible(ms[idx[p]]) && found[p] == ThumbOf(ms[idx[p]]))
            && (forall p, q :: 0 <= p < q < |idx| ==> idx[p] < idx[q])
            && (forall j :: 0 <= j < |ms| ==> (Kept(ms, j, marked) <==> j in idx))
    decreases |ms|
  {
    if ms == [] {
      idx := [];
    } else {
      var n := |ms| - 1;
      var p := ms[..n];
      var last := ms[n];
      var prevIdx := ScanSelects(p, marked);
      ScanAccounting(p, marked);
      var prev := Scan(p, marked);
      assert forall j :: 0 <= j < n ==> p[j] == ms[j];
      assert forall j :: 0 <= j < n ==> (Kept(ms, j, marked) <==> Kept(p, j, marked));
      assert Kept(ms, n, marked) <==> Eligible(last) && last.anchor.value !in prev.marked by {
        if Eligible(last) && last.anchor.value !in prev.marked {
          forall k | 0 <= k < n && Eligible(ms[k])
            ensures ms[k].anchor.value != last.anchor.value
          {
            assert p[k].anchor.value in EligibleAnchors(p);
          }
        }
      }
      if Eligible(last) && last.anchor.value !in prev.marked {
        idx := prevIdx + [n];
      } else {
        idx := prevIdx;
      }
    }
  }

  lemma {:induction false} ScanOfMarked(ms: seq<ImgMatch>, marked: set<NodeRef>)
    requires EligibleAnchors(ms) <= marked
    ensures Scan(ms, marked) == ScanState([], marked)
    decreases |ms|
  {
    if ms != [] {
      EligibleAnchorsSnoc(ms);
      ScanOfMarked(ms[..|ms| - 1], marked);
    }
  }

  /** The flag belongs to the anchor: matches sharing an anchor agree on it. */
  predicate MarkFlagsAgree(ms: seq<ImgMatch>) {
    forall i, j :: 0 <= i < |ms| && 0 <= j < |ms| && ms[i].anchor == ms[j].anchor ==>
      ms[i].foreignMark == ms[j].foreignMark
  }

  /** An anchor carrying a mark the script did not set is never marked by a
      pass and never yields an entry, whichever of its images is reached first. */
  lemma ForeignMarkedAnchorNeverTaken(ms: seq<ImgMatch>, marked: set<NodeRef>, j: int)
    requires MarkFlagsAgree(ms)
    requires 0 <= j < |ms| && ms[j].anchor.Some? && ms[j].foreignMark
    ensures ms[j].anchor.value !in Scan(ms, marked).marked - marked
    ensures ms[j].anchor.value !in AnchorsOf(Scan(ms, marked).found)
  {
    ScanAccounting(ms, marked);
    forall k | 0 <= k < |ms| && Eligible(ms[k])
      ensures ms[k].anchor != ms[j].anchor
    {
      assert ms[k].foreignMark != ms[j].foreignMark;
    }
  }

  /** Images whose anchors carry a mark the script did not set are skipped:
      a document made only of them yields nothing and marks nothing. */
  lemma ForeignMarksSkipped(ms: seq<ImgMatch>, marked: set<NodeRef>)
    requires forall j :: 0 <= j < |ms| ==> ms[j].foreignMark
    ensures Scan(ms, marked) == ScanState([], marked)
  {
    assert EligibleAnchors(ms) == {};
    ScanOfMarked(ms, marked);
  }

  /** A second pass over an unchanged document finds nothing and marks nothing more. */
  lemma ScanIdempotent(ms: seq<ImgMatch>, marked: set<NodeRef>)
    ensures var again := Scan(ms, Scan(ms, marked).marked);
            again.found == [] && again.marked == Scan(ms, marked).marked
  {
    ScanAccounting(ms, marked);
    ScanOfMarked(ms, Scan(ms, marked).marked);
  }

  /**
   * The registry only matters for anchors it holds: a document none of
   * whose anchors are marked, such as a freshly parsed page, yields the
   * same entries as with an empty registry.  Deduplication is by element,
   * so the same post on two fetched pages is harvested twice.
   */
  lemma {:induction false} ScanOfUnmarkedDocument(ms: seq<ImgMatch>, marked: set<NodeRef>)
    requires EligibleAnchors(ms) !! marked
    ensures Scan(ms, marked).found == Scan(ms, {}).found
    ensures Scan(ms, marked).marked == marked + Scan(ms, {}).marked
    decreases |ms|
  {
    if ms != [] {
      var p := ms[..|ms| - 1];
      EligibleAnchorsSnoc(ms);
      ScanOfUnmarkedDocument(p, marked);
    }
  }

  /** Anchors of a document other than the registry's are never marked. */
  lemma FreshDocumentUnmarked(ms: seq<ImgMatch>, d: nat, marked: set<NodeRef>)
    requires FromDoc(ms, d)
    requires forall a :: a in marked ==> a.doc < d
    ensures EligibleAnchors(ms) !! marked
  {
    forall a | a in EligibleAnchors(ms)
      ensures a.doc == d
    {
      var j :| 0 <= j < |ms| && Eligible(ms[j]) && ms[j].anchor.value == a;
    }
  }

  lemma AnchorsOfAppend(a: seq<Thumb>, b: seq<Thumb>)
    ensures AnchorsOf(a + b) == AnchorsOf(a) + AnchorsOf(b)
  {
    var ab := a + b;
    forall x | x in AnchorsOf(ab)
      ensures x in AnchorsOf(a) + AnchorsOf(b)
    {
      var i :| 0 <= i < |ab| && ab[i].anchor == x;
      if i < |a| {
        assert a[i] == ab[i];
      } else {
        assert b[i - |a|] == ab[i];
      }
    }
    forall x | x in AnchorsOf(a) + AnchorsOf(b)
      ensures x in AnchorsOf(ab)
    {
      if x in AnchorsOf(a) {
        var i :| 0 <= i < |a| && a[i].anchor == x;
        assert ab[i] == a[i];
      } else {
        var i :| 0 <= i < |b| && b[i].anchor == x;
        assert ab[|a| + i] == b[i];
      }
    }
  }

  /**
   * Appending each pass's entries to the grid keeps the registry equal to
   * the grid's anchors, and the grid free of two tiles for one anchor.
   */
  lemma GridStaysDeduplicated(grid: seq<Thumb>, marked: set<NodeRef>, ms: seq<ImgMatch>)
    requires marked == AnchorsOf(grid) && DistinctAnchors(grid)
    ensures var st := Scan(ms, marked);
            st.marked == AnchorsOf(grid + st.found) && DistinctAnchors(grid + st.found)
  {
    var st := Scan(ms, marked);
    ScanAccounting(ms, marked);
    AnchorsOfAppend(grid, st.found);
    var g := grid + st.found;
    forall i, j | 0 <= i < j < |g|
      ensures g[i].anchor != g[j].anchor
    {
      if j < |grid| {
        assert g[i] == grid[i] && g[j] == grid[j];
      } else if i >= |grid| {
        assert g[i] == st.found[i - |grid|] && g[j] == st.found[j - |grid|];
      } else {
        assert g[i] == grid[i] && g[i].anchor in marked;
        assert g[j] == st.found[j - |grid|] && g[j].anchor in AnchorsOf(st.found);
      }
    }
  }

  /** A pass over document `d` marks only anchors of `d`. */
  lemma ScanMarksOwnDocument(ms: seq<ImgMatch>, d: nat, marked: set<NodeRef>)
    requires FromDoc(ms, d)
    ensures forall a :: a in Scan(ms, marked).marked - marked ==> a.doc == d
  {
    ScanAccounting(ms, marked);
    forall a | a in EligibleAnchors(ms)
      ensures a.doc == d
    {
      var j :| 0 <= j < |ms| && Eligible(ms[j]) && ms[j].anchor.value == a;
    }
  }
}
