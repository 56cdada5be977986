/**
 * The reader's shared state and the operations that update it: page refresh, spread
 * building, index clamping, paging, the mode toggles, rendering, the refresh-coalescing
 * flag, open/close, and the auto-drive timer's fields and tick.
 *
 * The host list of image elements is passed in as `imgs`: `None` when the list element
 * is missing from the document, otherwise the elements in document order.
 */
module Reader {
  import opened Common
  import opened PageUrl
  import opened PageList
  import opened Spreads
  import opened Navigation
  import opened AutoDrive
  import opened Progress

  /** getUnderlyingImgCount: the number of images in the list, 0 when the list is missing. */
  function ImgCount(imgs: Option<seq<Image>>): nat {
    if imgs.Some? then |imgs.value| else 0
  }

  /**
   * The scan loop of refreshPagesNow: skip elements without a valid URL and URLs already
   * seen; keep the rest in order, each bound to its element.
   */
  method ScanList(list: seq<Image>) returns (ps: seq<string>, m: map<string, Image>)
    ensures ps == Pages(list) && m == ImagesByUrl(list)
  {
    ps := [];
    m := map[];
    var seen: set<string> := {};
    var i := 0;
    while i < |list|
      invariant 0 <= i <= |list|
      invariant ps == Pages(list[..i]) && m == ImagesByUrl(list[..i])
      invariant forall u :: u in seen <==> u in ps
    {
      var img := list[i];
      var url := ExtractUrl(img);
      assert list[..i + 1][..i] == list[..i];
      if url == "" || !IsValidPageUrl(url) {
      } else if url in seen {
      } else {
        seen := seen + {url};
        ps := ps + [url];
        m := m[url := img];
      }
      i := i + 1;
    }
    assert list[..|list|] == list;
  }

  /** One loop step of buildSpreads: emitting the pair at `i` moves it from the pending tail to the output. */
  lemma PairsFromStep(ss: seq<Spread>, spread: Spread, pages: seq<string>, i: nat)
    requires i < |pages| && spread == PairAt(pages, i)
    ensures ss + PairsFrom(pages, i) == (ss + [spread]) + PairsFrom(pages, i + 2)
  {
    assert PairsFrom(pages, i) == [spread] + PairsFrom(pages, i + 2);
  }

  /**
   * buildSpreads over the current page list and pairing mode: the lead single page
   * (mode 0), then one spread per pair of pages.
   */
  method BuildSpreads(ps: seq<string>, mode: PairingMode) returns (ss: seq<Spread>)
    ensures ss == SpreadsOf(ps, mode)
  {
    ss := [];
    if mode == LeadSingle {
      if |ps| >= 1 {
        ss := [Spread(ps[0], None, 1, None)];
      }
      var i: nat := 1;
      while i < |ps|
        invariant ss + PairsFrom(ps, i) == SpreadsOf(ps, LeadSingle)
        decreases |ps| - i
      {
        var left := if i + 1 < |ps| then Some(ps[i + 1]) else None;
        var spread := Spread(ps[i], left, i + 1, if NonEmpty(left).Some? then Some(i + 2) else None);
        PairsFromStep(ss, spread, ps, i);
        ss := ss + [spread];
        i := i + 2;
      }
    } else {
      var i: nat := 0;
      while i < |ps|
        invariant ss + PairsFrom(ps, i) == PairsFrom(ps, 0)
        decreases |ps| - i
      {
        var left := if i + 1 < |ps| then Some(ps[i + 1]) else None;
        var spread := Spread(ps[i], left, i + 1, if NonEmpty(left).Some? then Some(i + 2) else None);
        PairsFromStep(ss, spread, ps, i);
        ss := ss + [spread];
        i := i + 2;
      }
    }
  }

  /** The right page of any spread is a page of the list, and non-empty when every page is a valid URL. */
  lemma CurrentRightIsPage(pages: seq<string>, mode: PairingMode, k: int)
    requires forall j | 0 <= j < |pages| :: IsValidPageUrl(pages[j])
    requires 0 <= k < |SpreadsOf(pages, mode)|
    ensures SpreadsOf(pages, mode)[k].right in pages && SpreadsOf(pages, mode)[k].right != ""
  {
    SpreadAt(pages, mode, k);
    ValidUrlNonEmpty(pages[RightIndex(mode, k)]);
  }

  /**
   * Switching the pairing keeps the current spread's right page on screen: re-anchoring
   * in the other mode's spreads lands on a spread that shows it.
   */
  lemma SwitchKeepsPage(scanned: seq<Image>, from: PairingMode, to: PairingMode, k: int, clamped: int)
    requires 0 <= k < |SpreadsOf(Pages(scanned), from)|
    ensures var u := SpreadsOf(Pages(scanned), from)[k].right;
      var ss := SpreadsOf(Pages(scanned), to);
      var r := Reanchor(ss, Some(u), clamped);
      0 <= r < |ss| && (ss[r].left == Some(u) || ss[r].right == u)
  {
    var ps := Pages(scanned);
    PagesWellFormed(scanned);
    CurrentRightIsPage(ps, from, k);
    ReanchorKeepsPage(ps, to, SpreadsOf(ps, from)[k].right, clamped);
  }

  class Reader {
    var isOpen: bool
    var viewMode: ViewMode
    var readingDir: ReadingDir
    /** A mutation observer is attached to the list. */
    var observing: bool
    /** An animation-frame refresh has been requested and has not run yet. */
    var refreshQueued: bool

    var pages: seq<string>
    var imgByUrl: map<string, Image>
    /** The element list of the last successful scan. */
    ghost var scanned: seq<Image>
    var loadedUrls: set<string>
    /** lastRenderedLeft and lastRenderedRight. */
    var lastRendered: Panes
    var pairingMode: PairingMode
    var spreads: seq<Spread>
    var index: int
    /** The autoDrive* fields; `drive.running` stands for "the interval timer is set". */
    var drive: Session

    /** The right page of the current spread, if a spread exists at the index. */
    function CurrentRight(): Option<string>
      reads this`index, this`spreads
    {
      if 0 <= index < |spreads| then Some(spreads[index].right) else None
    }

    /** The page list and the lookup are those of the last scanned element list. */
    ghost predicate PagesValid()
      reads this`pages, this`imgByUrl, this`scanned
    {
      pages == Pages(scanned) && imgByUrl == ImagesByUrl(scanned)
    }

    /** The spreads are built from the pages under the current mode; the index lies in [0, max(0, |spreads| - 1)]. */
    ghost predicate SpreadsValid()
      reads this`pages, this`pairingMode, this`spreads, this`index
    {
      && spreads == SpreadsOf(pages, pairingMode)
      && 0 <= index && (index < |spreads| || index == 0)
    }

    /** Only valid page URLs are marked loaded. */
    ghost predicate LoadedValid()
      reads this`loadedUrls
    {
      forall u | u in loadedUrls :: IsValidPageUrl(u)
    }

    /** The drive timer runs only while the overlay is open, and a running drive is below the stall threshold. */
    ghost predicate DriveValid()
      reads this`isOpen, this`drive
    {
      (drive.running ==> isOpen) && SessionInv(drive)
    }

    /** The mutation observer is attached only while the overlay is open. */
    ghost predicate ObserverValid()
      reads this`isOpen, this`observing
    {
      observing ==> isOpen
    }

    /** What every operation keeps. */
    ghost predicate Valid()
      reads this
    {
      PagesValid() && SpreadsValid() && LoadedValid() && DriveValid() && ObserverValid()
    }

    /**
     * What open's refresh followed by renderCurrent leaves, given the pages, lookup, index
     * and last rendered panes before it: the pages and lookup of the list (the old ones
     * when the list is missing), the clamped index, and, on an open overlay, a render of
     * the current spread exactly when one exists. That render records its panes, prefetches the next spread,
     * and is a new spread exactly when the index stayed and the panes differ from before
     * (a moved index was already rendered by the refresh). Without a render the last
     * rendered panes are kept.
     */
    ghost predicate RefreshedAndShown(imgs: Option<seq<Image>>, r: Render, pages0: seq<string>,
                                      lookup0: map<string, Image>, index0: int, last0: Panes)
      reads this`pages, this`imgByUrl, this`spreads, this`index, this`lastRendered, this`readingDir, this`isOpen
    {
      Refreshed(imgs, pages0, lookup0, index0) && Shown(r, index0, last0)
    }

    /** The refresh half: pages and lookup of the list (the old ones without a list) and the clamped index. */
    ghost predicate Refreshed(imgs: Option<seq<Image>>, pages0: seq<string>, lookup0: map<string, Image>, index0: int)
      reads this`pages, this`imgByUrl, this`spreads, this`index
    {
      && (imgs.Some? ==> pages == Pages(imgs.value) && imgByUrl == ImagesByUrl(imgs.value))
      && (imgs.None? ==> pages == pages0 && imgByUrl == lookup0)
      && index == Clamp(index0, |spreads|)
    }

    /** The render half: a render of the current spread exactly when one exists on an open overlay. */
    ghost predicate Shown(r: Render, index0: int, last0: Panes)
      reads this`spreads, this`index, this`lastRendered, this`readingDir, this`isOpen
    {
      && (r.Rendered? <==> isOpen && 0 <= index < |spreads|)
      && (r.Rendered? ==>
            && lastRendered == r.panes && r.panes == PanesFor(spreads[index], readingDir)
            && r.prefetch == Prefetch(spreads, index)
            && (r.newSpread <==> index == index0 && r.panes != last0))
      && (!r.Rendered? ==> lastRendered == last0)
    }

    /**
     * What the scan guarantees: the page list is duplicate-free and valid, and the lookup
     * maps exactly the pages, each to an element yielding it.
     */
    lemma PagesWellFormedNow()
      requires Valid()
      ensures Distinct(pages) && forall k | 0 <= k < |pages| :: IsValidPageUrl(pages[k])
      ensures forall u :: u in imgByUrl <==> u in pages
      ensures forall u | u in imgByUrl :: ExtractUrl(imgByUrl[u]) == u
    {
      PagesWellFormed(scanned);
      ImagesByUrlIsFirstImage(scanned);
      ImagesByUrlYieldKeys(scanned);
    }

    /** The initial state: closed, double view, rtl, lead-single pairing, nothing discovered. */
    constructor ()
      ensures Valid()
      ensures !isOpen && viewMode == Double && readingDir == Rtl && pairingMode == LeadSingle
      ensures pages == [] && imgByUrl == map[] && loadedUrls == {} && spreads == [] && index == 0
      ensures lastRendered == Panes(None, None) && !observing && !refreshQueued
      ensures drive == Session(false, 0, 0, 0, 0, None)
    {
      isOpen := false;
      viewMode := Double;
      readingDir := Rtl;
      observing := false;
      refreshQueued := false;
      pages := [];
      imgByUrl := map[];
      scanned := [];
      loadedUrls := {};
      lastRendered := Panes(None, None);
      pairingMode := LeadSingle;
      spreads := [];
      index := 0;
      drive := Session(false, 0, 0, 0, 0, None);
    }

    /**
     * renderCurrent: on an open overlay with a spread at the index, show that spread's
     * panes under the reading direction and remember them as the last rendered pair.
     */
    method RenderCurrent() returns (r: Render)
      requires Valid()
      modifies this`lastRendered
      ensures Valid()
      ensures r.Rendered? <==> isOpen && index < |spreads|
      ensures r.Rendered? ==> r == Show(spreads, index, readingDir, old(lastRendered)) && lastRendered == r.panes
      ensures !r.Rendered? ==> lastRendered == old(lastRendered)
    {
      if !isOpen || !(0 <= index < |spreads|) {
        return NoRender;
      }
      var spread := spreads[index];
      var panes := PanesFor(spread, readingDir);
      var isSameSpread := panes == lastRendered;
      var prefetch := Prefetch(spreads, index);
      lastRendered := panes;
      r := Rendered(panes, !isSameSpread, prefetch);
    }

    /**
     * The second half of refreshPagesNow's scan: store the new page list and lookup,
     * rebuild the spreads and clamp the index. When the old pages are a prefix of the new
     * ones and the index was on a spread, the index does not move.
     */
    method ReplacePages(ps: seq<string>, m: map<string, Image>, ghost list: seq<Image>)
      requires SpreadsValid()
      requires ps == Pages(list) && m == ImagesByUrl(list)
      modifies this`pages, this`imgByUrl, this`scanned, this`spreads, this`index
      ensures PagesValid() && SpreadsValid()
      ensures pages == ps && imgByUrl == m
      ensures index == Clamp(old(index), |spreads|)
      ensures IsPrefix(old(pages), ps) && old(index) < |old(spreads)| ==> index == old(index)
    {
      var ss := BuildSpreads(ps, pairingMode);
      var clamped := Clamp(index, |ss|);
      if IsPrefix(pages, ps) && index < |spreads| {
        assert |spreads| <= |ss| by {
          SpreadsGrowAtTail(pages, ps, pairingMode);
        }
      }
      pages, imgByUrl, scanned, spreads, index := ps, m, list, ss, clamped;
    }

    /**
     * refreshPagesNow. With the list missing nothing changes. Otherwise the elements are
     * scanned in order, keeping each valid URL at its first occurrence; the spreads are
     * rebuilt, the index clamped, and the current spread re-rendered only when clamping
     * moved the index (so pages appended at the tail never cause a re-render).
     */
    method RefreshPagesNow(imgs: Option<seq<Image>>) returns (r: Render)
      requires Valid()
      modifies this`pages, this`imgByUrl, this`scanned, this`spreads, this`index, this`lastRendered
      ensures Valid()
      ensures imgs.None? ==>
        pages == old(pages) && imgByUrl == old(imgByUrl) && spreads == old(spreads) && index == old(index)
      ensures imgs.Some? ==> pages == Pages(imgs.value) && imgByUrl == ImagesByUrl(imgs.value)
      ensures index == Clamp(old(index), |spreads|)
      ensures r.Rendered? <==> isOpen && index != old(index) && index < |spreads|
      ensures r.Rendered? ==> r == Show(spreads, index, readingDir, old(lastRendered)) && lastRendered == r.panes
      ensures !r.Rendered? ==> lastRendered == old(lastRendered)
      ensures IsPrefix(old(pages), pages) && old(index) < |old(spreads)| ==> index == old(index) && r == NoRender
    {
      if imgs.None? {
        return NoRender;
      }
      var list := imgs.value;
      var ps, m := ScanList(list);
      var prevIndex := index;
      ReplacePages(ps, m, list);
      if isOpen && (prevIndex != index || index >= |spreads|) {
        r := RenderCurrent();
      } else {
        r := NoRender;
      }
    }

    /** computeLoadedCount: the pages loaded in the overlay or, per `underlyingLoaded`, in the host list. */
    method ComputeLoadedCount(underlyingLoaded: set<string>) returns (n: nat)
      ensures n == LoadedCount(pages, loadedUrls + underlyingLoaded)
    {
      n := 0;
      var i := 0;
      while i < |pages|
        invariant 0 <= i <= |pages|
        invariant n == LoadedCount(pages[..i], loadedUrls + underlyingLoaded)
      {
        assert pages[..i + 1][..i] == pages[..i];
        if pages[i] in loadedUrls || pages[i] in underlyingLoaded {
          n := n + 1;
        }
        i := i + 1;
      }
      assert pages[..|pages|] == pages;
    }

    /** A load event for `url`: it is recorded only when it is a valid page URL. */
    method MarkLoaded(url: string)
      requires Valid()
      modifies this`loadedUrls
      ensures Valid()
      ensures loadedUrls == if IsValidPageUrl(url) then old(loadedUrls) + {url} else old(loadedUrls)
    {
      if IsValidPageUrl(url) {
        loadedUrls := loadedUrls + {url};
      }
    }

    /** gotoNext: one spread forward and render, or nothing at the last spread or with no spreads. */
    method GotoNext() returns (r: Render)
      requires Valid()
      modifies this`index, this`lastRendered
      ensures Valid()
      ensures old(index) + 1 < |spreads| ==> index == old(index) + 1
      ensures old(index) + 1 < |spreads| && isOpen ==> r == Show(spreads, index, readingDir, old(lastRendered))
      ensures old(index) + 1 >= |spreads| ==> index == old(index) && r == NoRender
      ensures !isOpen ==> r == NoRender
      ensures r.Rendered? ==> lastRendered == r.panes
      ensures !r.Rendered? ==> lastRendered == old(lastRendered)
    {
      if |spreads| == 0 {
        return NoRender;
      }
      var next := if |spreads| - 1 < index + 1 then |spreads| - 1 else index + 1;
      if next == index {
        return NoRender;
      }
      index := next;
      r := RenderCurrent();
    }

    /** gotoPrev: one spread back and render, or nothing at the first spread or with no spreads. */
    method GotoPrev() returns (r: Render)
      requires Valid()
      modifies this`index, this`lastRendered
      ensures Valid()
      ensures old(index) > 0 ==> index == old(index) - 1
      ensures old(index) > 0 && isOpen ==> r == Show(spreads, index, readingDir, old(lastRendered))
      ensures old(index) == 0 ==> index == 0 && r == NoRender
      ensures !isOpen ==> r == NoRender
      ensures r.Rendered? ==> lastRendered == r.panes
      ensures !r.Rendered? ==> lastRendered == old(lastRendered)
    {
      if |spreads| == 0 {
        return NoRender;
      }
      var prev := if 0 > index - 1 then 0 else index - 1;
      if prev == index {
        return NoRender;
      }
      index := prev;
      r := RenderCurrent();
    }

    /**
     * togglePairingMode: switch the pairing (see SwitchPairing), then re-render an open
     * overlay.
     */
    method TogglePairingMode() returns (r: Render)
      requires Valid()
      modifies this`pairingMode, this`spreads, this`index, this`lastRendered
      ensures Valid()
      ensures pairingMode == Toggled(old(pairingMode))
      ensures spreads == SpreadsOf(pages, pairingMode)
      ensures index == Reanchor(spreads, old(CurrentRight()), Clamp(old(index), |spreads|))
      ensures old(CurrentRight()).Some? ==>
        && index < |spreads|
        && (spreads[index].left == old(CurrentRight()) || Some(spreads[index].right) == old(CurrentRight()))
      ensures r.Rendered? <==> isOpen && index < |spreads|
      ensures r.Rendered? ==> r == Show(spreads, index, readingDir, old(lastRendered)) && lastRendered == r.panes
      ensures !r.Rendered? ==> lastRendered == old(lastRendered)
    {
      SwitchPairing();
      r := RenderCurrent();
    }

    /**
     * The state change of togglePairingMode: flip the mode, rebuild and clamp, then
     * re-anchor on the old current spread's right page (the first spread holding it on
     * the left, else on the right), so that page stays on screen.
     */
    method SwitchPairing()
      requires PagesValid() && SpreadsValid()
      modifies this`pairingMode, this`spreads, this`index
      ensures SpreadsValid()
      ensures pairingMode == Toggled(old(pairingMode))
      ensures spreads == SpreadsOf(pages, pairingMode)
      ensures index == Reanchor(spreads, old(CurrentRight()), Clamp(old(index), |spreads|))
      ensures old(CurrentRight()).Some? ==>
        && index < |spreads|
        && (spreads[index].left == old(CurrentRight()) || Some(spreads[index].right) == old(CurrentRight()))
    {
      var oldRight := if 0 <= index < |spreads| then Some(spreads[index].right) else None;
      var mode := Toggled(pairingMode);
      var ss := BuildSpreads(pages, mode);
      var idx := Reanchor(ss, oldRight, Clamp(index, |ss|));
      if oldRight.Some? {
        SwitchKeepsPage(scanned, pairingMode, mode, index, Clamp(index, |ss|));
      }
      pairingMode, spreads, index := mode, ss, idx;
    }

    /** toggleViewMode: flips the view and re-renders an open overlay; nothing else changes. */
    method ToggleViewMode() returns (r: Render)
      requires Valid()
      modifies this`viewMode, this`lastRendered
      ensures Valid()
      ensures viewMode == FlipView(old(viewMode))
      ensures r.Rendered? <==> isOpen && index < |spreads|
      ensures r.Rendered? ==> r == Show(spreads, index, readingDir, old(lastRendered)) && lastRendered == r.panes
      ensures !r.Rendered? ==> lastRendered == old(lastRendered)
    {
      viewMode := FlipView(viewMode);
      r := RenderCurrent();
    }

    /** toggleReadingDir: flips the direction and re-renders an open overlay under the new one. */
    method ToggleReadingDir() returns (r: Render)
      requires Valid()
      modifies this`readingDir, this`lastRendered
      ensures Valid()
      ensures readingDir == FlipDir(old(readingDir))
      ensures r.Rendered? <==> isOpen && index < |spreads|
      ensures r.Rendered? ==> r == Show(spreads, index, readingDir, old(lastRendered)) && lastRendered == r.panes
      ensures !r.Rendered? ==> lastRendered == old(lastRendered)
    {
      readingDir := FlipDir(readingDir);
      r := RenderCurrent();
    }

    /** startObserver: attaches once, and only when the list element exists. */
    method StartObserver(listPresent: bool)
      modifies this`observing
      ensures isOpen ==> ObserverValid()
      ensures observing == (old(observing) || listPresent)
    {
      if observing {
        return;
      }
      if !listPresent {
        return;
      }
      observing := true;
    }

    /** stopObserver: detaches and drops the queued-refresh flag; a no-op when not observing. */
    method StopObserver()
      modifies this`observing, this`refreshQueued
      ensures ObserverValid()
      ensures !observing
      ensures refreshQueued == (old(refreshQueued) && !old(observing))
    {
      if !observing {
        return;
      }
      observing := false;
      refreshQueued := false;
    }

    /** scheduleRefresh: requests a frame only when none is queued, so mutations coalesce. */
    method ScheduleRefresh() returns (requested: bool)
      requires Valid()
      modifies this`refreshQueued
      ensures Valid()
      ensures requested <==> !old(refreshQueued)
      ensures refreshQueued
    {
      if refreshQueued {
        return false;
      }
      refreshQueued := true;
      requested := true;
    }

    /** The requested animation frame: clears the flag, then refreshes exactly as RefreshPagesNow. */
    method RefreshFrame(imgs: Option<seq<Image>>) returns (r: Render)
      requires Valid()
      modifies this`refreshQueued, this`pages, this`imgByUrl, this`scanned, this`spreads, this`index,
               this`lastRendered
      ensures Valid()
      ensures !refreshQueued
      ensures imgs.None? ==>
        pages == old(pages) && imgByUrl == old(imgByUrl) && spreads == old(spreads) && index == old(index)
      ensures imgs.Some? ==> pages == Pages(imgs.value) && imgByUrl == ImagesByUrl(imgs.value)
      ensures index == Clamp(old(index), |spreads|)
      ensures r.Rendered? <==> isOpen && index != old(index) && index < |spreads|
      ensures r.Rendered? ==> r == Show(spreads, index, readingDir, old(lastRendered)) && lastRendered == r.panes
      ensures !r.Rendered? ==> lastRendered == old(lastRendered)
      ensures IsPrefix(old(pages), pages) && old(index) < |old(spreads)| ==> index == old(index) && r == NoRender
    {
      refreshQueued := false;
      r := RefreshPagesNow(imgs);
    }

    /** startAutoDrive: on an open overlay without a running timer, start a new drive session. */
    method StartAutoDrive(now: int, imgs: Option<seq<Image>>)
      requires DriveValid()
      modifies this`drive
      ensures DriveValid()
      ensures drive == Start(old(drive), isOpen, now, ImgCount(imgs))
    {
      if !isOpen {
        return;
      }
      if drive.running {
        return;
      }
      drive := Session(true, now, now, ImgCount(imgs), 0, None);
    }

    /** stopAutoDrive(reason): see AutoDrive.Stop. */
    method StopAutoDrive(reason: Option<StopReason>)
      modifies this`drive
      ensures DriveValid()
      ensures drive == Stop(old(drive), reason)
    {
      if !drive.running {
        return;
      }
      var stopReason :=
        if reason.Some? then reason
        else if drive.stopReason.Some? then drive.stopReason
        else Some(Stopped);
      drive := drive.(running := false, stopReason := stopReason);
    }

    /**
     * autoDriveTick: the drive fields move as AutoDrive.Tick says on the image count of
     * `imgs`; a tick that does not stop then scrolls, and the page list is refreshed, exactly
     * as RefreshPagesNow, from `scrolled`: the list as it stands after the scroll events,
     * whose host listeners may already have appended images.
     */
    method AutoDriveTick(now: int, imgs: Option<seq<Image>>, nearBottom: bool, scrolled: Option<seq<Image>>)
      returns (act: Action, r: Render)
      requires Valid()
      modifies this`drive, this`pages, this`imgByUrl, this`scanned, this`spreads, this`index, this`lastRendered
      ensures Valid()
      ensures (drive, act) == Tick(old(drive), isOpen, now, ImgCount(imgs), nearBottom)
      ensures act.Halt? ==>
        pages == old(pages) && imgByUrl == old(imgByUrl) && spreads == old(spreads) && index == old(index)
        && lastRendered == old(lastRendered) && r == NoRender
      ensures !act.Halt? && scrolled.None? ==>
        pages == old(pages) && imgByUrl == old(imgByUrl) && spreads == old(spreads) && index == old(index)
      ensures !act.Halt? && scrolled.Some? ==>
        pages == Pages(scrolled.value) && imgByUrl == ImagesByUrl(scrolled.value)
      ensures !act.Halt? ==> index == Clamp(old(index), |spreads|)
      ensures !act.Halt? ==> (r.Rendered? <==> isOpen && index != old(index) && index < |spreads|)
      ensures r.Rendered? ==> r == Show(spreads, index, readingDir, old(lastRendered)) && lastRendered == r.panes
      ensures !r.Rendered? ==> lastRendered == old(lastRendered)
      ensures !act.Halt? && IsPrefix(old(pages), pages) && old(index) < |old(spreads)| ==>
        index == old(index) && r == NoRender
    {
      act := AdvanceDrive(now, ImgCount(imgs), nearBottom);
      if act.Halt? {
        return act, NoRender;
      }
      r := RefreshPagesNow(scrolled);
    }

    /**
     * The drive-field part of autoDriveTick, in the source's order: stop when closed or
     * timed out, count progress or a stall, stop when stalled at the bottom, else pick
     * the jitter or the normal step.
     */
    method AdvanceDrive(now: int, count: nat, nearBottom: bool) returns (act: Action)
      requires DriveValid()
      modifies this`drive
      ensures DriveValid()
      ensures (drive, act) == Tick(old(drive), isOpen, now, count, nearBottom)
    {
      if !isOpen {
        StopAutoDrive(Some(Closed));
        return Halt(Closed);
      }
      if now - drive.startTs > MAX_MS {
        StopAutoDrive(Some(Timeout));
        return Halt(Timeout);
      }
      var s := drive;
      if count > s.lastImgCount {
        s := s.(lastImgCount := count, lastProgressTs := now, stall := 0);
      } else {
        s := s.(stall := s.stall + 1);
      }
      if s.stall >= STALL_ROUNDS && nearBottom {
        drive := s;
        StopAutoDrive(Some(Bottom));
        return Halt(Bottom);
      }
      if s.stall >= STALL_ROUNDS {
        act := Jitter(JITTER_PX, 2 * JITTER_PX);
        s := s.(stall := 0);
      } else {
        act := Step(STEP_PX);
      }
      drive := s;
    }

    /**
     * open: mark the overlay open, attach the observer when the list exists, refresh,
     * render the current spread and start the drive; a no-op when already open.
     */
    method Open(now: int, imgs: Option<seq<Image>>) returns (r: Render)
      requires Valid()
      modifies this`isOpen, this`observing, this`pages, this`imgByUrl, this`scanned, this`spreads, this`index,
               this`lastRendered, this`drive
      ensures Valid()
      ensures old(isOpen) ==> unchanged(this) && r == NoRender
      ensures !old(isOpen) ==> isOpen && observing == (old(observing) || imgs.Some?)
      ensures !old(isOpen) ==>
        RefreshedAndShown(imgs, r, old(pages), old(imgByUrl), old(index), old(lastRendered))
      ensures !old(isOpen) ==> drive == Start(old(drive), true, now, ImgCount(imgs))
    {
      if isOpen {
        return NoRender;
      }
      r := OpenClosed(now, imgs);
    }

    /** The body of open on a closed overlay. */
    method OpenClosed(now: int, imgs: Option<seq<Image>>) returns (r: Render)
      requires Valid() && !isOpen
      modifies this`isOpen, this`observing, this`pages, this`imgByUrl, this`scanned, this`spreads, this`index,
               this`lastRendered, this`drive
      ensures Valid()
      ensures isOpen && observing == (old(observing) || imgs.Some?)
      ensures RefreshedAndShown(imgs, r, old(pages), old(imgByUrl), old(index), old(lastRendered))
      ensures drive == Start(old(drive), true, now, ImgCount(imgs))
    {
      isOpen := true;
      StartObserver(imgs.Some?);
      r := RefreshRenderAndStart(now, imgs);
    }

    /** The rest of open once the overlay is marked open: refresh, render, then start the drive. */
    method RefreshRenderAndStart(now: int, imgs: Option<seq<Image>>) returns (r: Render)
      requires Valid() && isOpen
      modifies this`pages, this`imgByUrl, this`scanned, this`spreads, this`index, this`lastRendered, this`drive
      ensures Valid()
      ensures RefreshedAndShown(imgs, r, old(pages), old(imgByUrl), old(index), old(lastRendered))
      ensures drive == Start(old(drive), true, now, ImgCount(imgs))
    {
      r := RefreshAndRender(imgs);
      StartAutoDrive(now, imgs);
    }

    /** open's refreshPagesNow followed by renderCurrent: the current spread is shown whatever the refresh did. */
    method RefreshAndRender(imgs: Option<seq<Image>>) returns (r: Render)
      requires Valid()
      modifies this`pages, this`imgByUrl, this`scanned, this`spreads, this`index, this`lastRendered
      ensures Valid()
      ensures imgs.None? ==> spreads == old(spreads)
      ensures RefreshedAndShown(imgs, r, old(pages), old(imgByUrl), old(index), old(lastRendered))
    {
      var _ := RefreshPagesNow(imgs);
      r := RenderCurrent();
    }

    /** close: mark the overlay closed, stop the drive and detach the observer; a no-op when closed. */
    method Close()
      requires Valid()
      modifies this`isOpen, this`drive, this`observing, this`refreshQueued
      ensures Valid()
      ensures !isOpen && !drive.running && !observing
      ensures old(isOpen) ==> drive == Stop(old(drive), None)
      ensures old(isOpen) && old(drive.running) ==> drive.stopReason == Some(Stopped)
      ensures refreshQueued == (old(refreshQueued) && !(old(isOpen) && old(observing)))
      ensures !old(isOpen) ==> drive == old(drive) && observing == old(observing)
    {
      if !isOpen {
        return;
      }
      CloseOpen();
    }

    /** The body of close on an open overlay. */
    method CloseOpen()
      requires DriveValid() && ObserverValid() && isOpen
      modifies this`isOpen, this`drive, this`observing, this`refreshQueued
      ensures DriveValid() && ObserverValid()
      ensures !isOpen && !drive.running && !observing
      ensures drive == Stop(old(drive), None)
      ensures old(drive.running) ==> drive.stopReason == Some(Stopped)
      ensures refreshQueued == (old(refreshQueued) && !old(observing))
    {
      isOpen := false;
      StopAutoDrive(None);
      StopObserver();
    }

    /**
     * toggle (the R key): close an open overlay (stopping the drive, detaching the
     * observer, leaving the pages alone), or open a closed one (refresh, render, start).
     */
    method Toggle(now: int, imgs: Option<seq<Image>>) returns (r: Render)
      requires Valid()
      modifies this`isOpen, this`observing, this`refreshQueued, this`pages, this`imgByUrl, this`scanned,
               this`spreads, this`index, this`lastRendered, this`drive
      ensures Valid()
      ensures isOpen == !old(isOpen)
      ensures old(isOpen) ==>
        && !observing && drive == Stop(old(drive), None) && !drive.running
        && refreshQueued == (old(refreshQueued) && !old(observing))
        && pages == old(pages) && imgByUrl == old(imgByUrl) && spreads == old(spreads) && index == old(index)
        && lastRendered == old(lastRendered) && r == NoRender
      ensures !old(isOpen) ==>
        && observing == (old(observing) || imgs.Some?) && refreshQueued == old(refreshQueued)
        && RefreshedAndShown(imgs, r, old(pages), old(imgByUrl), old(index), old(lastRendered))
        && drive == Start(old(drive), true, now, ImgCount(imgs))
    {
      if isOpen {
        Close();
        r := NoRender;
      } else {
        r := Open(now, imgs);
      }
    }
  }
}
