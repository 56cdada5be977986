/**
 * The pure parts of navigation: index clamping, re-anchoring after a pairing switch,
 * the direction-dependent pane mapping, the render decision, and the decoding of keys
 * and clicks into commands.
 */
module Navigation {
  import opened Common
  import opened Spreads

  /** rtl: Japanese order, right page read first; ltr: left page read first. */
  datatype ReadingDir = Rtl | Ltr
  datatype ViewMode = Double | Single

  function FlipDir(d: ReadingDir): (r: ReadingDir)
    ensures r != d
  {
    if d == Rtl then Ltr else Rtl
  }

  function FlipView(v: ViewMode): (r: ViewMode)
    ensures r != v
  {
    if v == Double then Single else Double
  }

  /** clampIndex: into [0, max(0, count - 1)]; an index already in range is kept. */
  function Clamp(index: int, count: nat): (r: int)
    ensures 0 <= r && (count == 0 ==> r == 0) && (count > 0 ==> r < count)
    ensures 0 <= index < count ==> r == index
    ensures index >= count ==> r == if count == 0 then 0 else count - 1
  {
    var max := if count == 0 then 0 else count - 1;
    var i := if index > max then max else index;
    if i < 0 then 0 else i
  }

  /** Which slot a search looks at. */
  datatype Side = RightSide | LeftSide

  predicate Holds(s: Spread, u: string, side: Side) {
    match side
    case RightSide => s.right == u
    case LeftSide => s.left == Some(u)
  }

  /** `spreads.findIndex(s => s.left === u)` (or `s.right`): the first match, or -1. */
  function FindSlot(ss: seq<Spread>, u: string, side: Side): (r: int)
    ensures -1 <= r < |ss|
    ensures r >= 0 ==> Holds(ss[r], u, side)
    ensures forall j | 0 <= j < |ss| && (r < 0 || j < r) :: !Holds(ss[j], u, side)
    decreases |ss|
  {
    if ss == [] then -1
    else if Holds(ss[0], u, side) then 0
    else
      var r := FindSlot(ss[1..], u, side);
      assert forall j | 1 <= j < |ss| :: ss[j] == ss[1..][j - 1];
      if r < 0 then -1 else r + 1
  }

  /**
   * The index after togglePairingMode: with a non-empty old right page, the first spread
   * holding it on the left, else the first holding it on the right; otherwise `clamped`.
   */
  function Reanchor(ss: seq<Spread>, oldRight: Option<string>, clamped: int): (r: int)
    ensures NonEmpty(oldRight).None? ==> r == clamped
    ensures r == clamped
      || (0 <= r < |ss| && (Holds(ss[r], oldRight.value, LeftSide) || Holds(ss[r], oldRight.value, RightSide)))
  {
    if NonEmpty(oldRight).Some? then
      var l := FindSlot(ss, oldRight.value, LeftSide);
      var idx := if l < 0 then FindSlot(ss, oldRight.value, RightSide) else l;
      if idx >= 0 then idx else clamped
    else clamped
  }

  /**
   * Switching pairing keeps the page the reader was on: when the old current spread's
   * right page is in the sequence, the re-anchored index is in range and its spread
   * shows that page, preferring the left slot.
   */
  lemma ReanchorKeepsPage(pages: seq<string>, mode: PairingMode, u: string, clamped: int)
    requires u in pages && u != ""
    ensures var ss := SpreadsOf(pages, mode);
      var r := Reanchor(ss, Some(u), clamped);
      && 0 <= r < |ss|
      && (ss[r].left == Some(u) || ss[r].right == u)
      && ((exists k | 0 <= k < |ss| :: ss[k].left == Some(u)) ==> ss[r].left == Some(u))
  {
    var ss := SpreadsOf(pages, mode);
    EveryPageHasSpread(pages, mode, u);
    var k :| 0 <= k < |ss| && (ss[k].right == u || ss[k].left == Some(u));
    assert Holds(ss[k], u, LeftSide) || Holds(ss[k], u, RightSide);
  }

  /** In a spread list built from distinct pages, a page sits in at most one slot of one spread. */
  lemma SlotsUnique(pages: seq<string>, mode: PairingMode, j: nat, k: nat, side: Side, side': Side, u: string)
    requires Distinct(pages)
    requires j < |SpreadsOf(pages, mode)| && k < |SpreadsOf(pages, mode)|
    requires Holds(SpreadsOf(pages, mode)[j], u, side) && Holds(SpreadsOf(pages, mode)[k], u, side')
    ensures j == k && side == side'
  {
    SpreadAt(pages, mode, j);
    SpreadAt(pages, mode, k);
    var rj, rk := RightIndex(mode, j), RightIndex(mode, k);
    var pj := if side == LeftSide then rj + 1 else rj;
    var pk := if side' == LeftSide then rk + 1 else rk;
    assert pages[pj] == u == pages[pk];
  }

  /** Six pages at {p4,p5} with a single lead page re-anchor to {p3,p4} when pairing from the start. */
  lemma SixPageToggleExample(p: seq<string>, clamped: int)
    requires |p| == 6 && Distinct(p) && NonEmptyPages(p)
    ensures |SpreadsOf(p, LeadSingle)| == 4 && SpreadsOf(p, LeadSingle)[2] == Spread(p[3], Some(p[4]), 4, Some(5))
    ensures var ss := SpreadsOf(p, PairedFromStart);
      var r := Reanchor(ss, Some(p[3]), clamped);
      |ss| == 3 && r == 1 && ss[r] == Spread(p[2], Some(p[3]), 3, Some(4))
  {
    SpreadCountIs(p, LeadSingle);
    SpreadCountIs(p, PairedFromStart);
    SpreadAt(p, LeadSingle, 2);
    SpreadAt(p, PairedFromStart, 1);
    var ss := SpreadsOf(p, PairedFromStart);
    var l := FindSlot(ss, p[3], LeftSide);
    assert Holds(ss[1], p[3], LeftSide);
    SlotsUnique(p, PairedFromStart, l, 1, LeftSide, LeftSide, p[3]);
  }

  /**
   * Toggling pairing twice from a lead-single spread k >= 1 lands on spread k - 1 (over
   * distinct pages): the right-page anchor moves back one page on each switch, so the
   * two switches are not inverse to each other.
   */
  lemma ToggleTwiceStepsBack(p: seq<string>, k: nat, c1: int, c2: int)
    requires Distinct(p) && NonEmptyPages(p)
    requires 1 <= k < |SpreadsOf(p, LeadSingle)|
    ensures var ss0, ss1 := SpreadsOf(p, LeadSingle), SpreadsOf(p, PairedFromStart);
      var i1 := Reanchor(ss1, Some(ss0[k].right), c1);
      && 0 <= i1 < |ss1|
      && Reanchor(ss0, Some(ss1[i1].right), c2) == k - 1
  {
    SpreadCountIs(p, LeadSingle);
    SpreadAt(p, LeadSingle, k);
    FirstSwitchStepsBack(p, k, c1);
    SecondSwitchStepsBack(p, k, c2);
  }

  /** The first switch of ToggleTwiceStepsBack: page 2k-1 is the left page of spread k - 1 when pairing from the start. */
  lemma FirstSwitchStepsBack(p: seq<string>, k: nat, c1: int)
    requires Distinct(p) && NonEmptyPages(p)
    requires 1 <= k && 2 * k - 1 < |p|
    ensures var ss1 := SpreadsOf(p, PairedFromStart);
      && k - 1 < |ss1| && Reanchor(ss1, Some(p[2 * k - 1]), c1) == k - 1 && ss1[k - 1].right == p[2 * k - 2]
  {
    var ss1 := SpreadsOf(p, PairedFromStart);
    SpreadCountIs(p, PairedFromStart);
    var u := p[2 * k - 1];
    SpreadAt(p, PairedFromStart, k - 1);
    assert Holds(ss1[k - 1], u, LeftSide);
    var l1 := FindSlot(ss1, u, LeftSide);
    SlotsUnique(p, PairedFromStart, l1, k - 1, LeftSide, LeftSide, u);
  }

  /** The second switch of ToggleTwiceStepsBack: page 2k-2 re-anchors to lead-single spread k - 1. */
  lemma SecondSwitchStepsBack(p: seq<string>, k: nat, c2: int)
    requires Distinct(p) && NonEmptyPages(p)
    requires 1 <= k && 2 * k - 1 < |p|
    ensures Reanchor(SpreadsOf(p, LeadSingle), Some(p[2 * k - 2]), c2) == k - 1
  {
    var ss0 := SpreadsOf(p, LeadSingle);
    SpreadCountIs(p, LeadSingle);
    var v := p[2 * k - 2];
    // v is a left page again (k >= 2) or the lead page (k == 1).
    var l2 := FindSlot(ss0, v, LeftSide);
    if k >= 2 {
      SpreadAt(p, LeadSingle, k - 1);
      assert Holds(ss0[k - 1], v, LeftSide);
      SlotsUnique(p, LeadSingle, l2, k - 1, LeftSide, LeftSide, v);
    } else {
      SpreadAt(p, LeadSingle, 0);
      assert Holds(ss0[0], v, RightSide);
      if l2 >= 0 {
        SlotsUnique(p, LeadSingle, l2, 0, LeftSide, RightSide, v);
      }
      var r2 := FindSlot(ss0, v, RightSide);
      SlotsUnique(p, LeadSingle, r2, 0, RightSide, RightSide, v);
    }
  }

  /** The two render panes; absent means the pane is hidden. */
  datatype Panes = Panes(left: Option<string>, right: Option<string>)

  /** The pane holding the page read first under `dir`. */
  function FirstPane(p: Panes, dir: ReadingDir): Option<string> {
    if dir == Rtl then p.right else p.left
  }

  /** The pane holding the page read second under `dir`. */
  function SecondPane(p: Panes, dir: ReadingDir): Option<string> {
    if dir == Rtl then p.left else p.right
  }

  /**
   * The pane mapping of renderCurrent: the spread's right slot (read first) goes to the
   * right pane under rtl and to the left pane under ltr; the left slot to the other pane.
   */
  function PanesFor(s: Spread, dir: ReadingDir): (p: Panes)
    ensures FirstPane(p, dir) == NonEmpty(Some(s.right))
    ensures SecondPane(p, dir) == NonEmpty(s.left)
  {
    var paneRight := NonEmpty(if dir == Rtl then Some(s.right) else s.left);
    var paneLeft := NonEmpty(if dir == Rtl then s.left else Some(s.right));
    Panes(paneLeft, paneRight)
  }

  /** Under ltr the pane pair is the mirror image of the rtl one. */
  lemma PanesMirror(s: Spread)
    ensures PanesFor(s, Ltr) == Panes(PanesFor(s, Rtl).right, PanesFor(s, Rtl).left)
  {
  }

  /** What a call of renderCurrent shows: nothing, or the two panes, whether they changed, and what it prefetches. */
  datatype Render = NoRender | Rendered(panes: Panes, newSpread: bool, prefetch: seq<string>)

  /** The non-empty slots of the spread after the current one, which render prefetches. */
  function Prefetch(ss: seq<Spread>, index: int): (r: seq<string>)
    ensures forall u | u in r :: u != "" && 0 <= index + 1 < |ss| && u in Slots(ss[index + 1])
    ensures 0 <= index + 1 < |ss| ==> forall u | u in Slots(ss[index + 1]) && u != "" :: u in r
    ensures |r| <= 2
    ensures 0 <= index + 1 < |ss| ==>
      && (ss[index + 1].right != "" ==> |r| > 0 && r[0] == ss[index + 1].right)
      && (|r| == 2 ==> Some(r[1]) == ss[index + 1].left)
  {
    if 0 <= index + 1 < |ss| then
      var next := ss[index + 1];
      (if next.right != "" then [next.right] else [])
      + (if NonEmpty(next.left).Some? then [next.left.value] else [])
    else []
  }

  /**
   * renderCurrent on an open overlay: when a spread exists at `index`, show its panes
   * under `dir`, flag whether they differ from the last rendered pair, and prefetch the
   * next spread.
   */
  function Show(ss: seq<Spread>, index: int, dir: ReadingDir, last: Panes): (r: Render)
    ensures r.Rendered? <==> 0 <= index < |ss|
    ensures r.Rendered? ==> FirstPane(r.panes, dir) == NonEmpty(Some(ss[index].right))
    ensures r.Rendered? ==> SecondPane(r.panes, dir) == NonEmpty(ss[index].left)
    ensures r.Rendered? ==> r.prefetch == Prefetch(ss, index)
    ensures r.Rendered? ==> (r.newSpread <==> r.panes != last)
  {
    if 0 <= index < |ss| then
      var p := PanesFor(ss[index], dir);
      Rendered(p, p != last, Prefetch(ss, index))
    else NoRender
  }

  /** The commands input wiring delivers to the reader. */
  datatype Command = ToggleOpen | ToggleView | TogglePairing | ToggleDir | Close | Next | Prev

  /** The arrow key pointing the way pages advance: left under rtl, right under ltr. */
  function ForwardKey(dir: ReadingDir): string {
    if dir == Rtl then "ArrowLeft" else "ArrowRight"
  }

  function BackwardKey(dir: ReadingDir): string {
    if dir == Rtl then "ArrowRight" else "ArrowLeft"
  }

  /**
   * The global keydown handler: R toggles the overlay, F the view, G the pairing, C the
   * direction (all also while closed); while open, Escape closes and the arrows page.
   */
  function KeyCommand(key: string, isOpen: bool, dir: ReadingDir): (r: Option<Command>)
    ensures r == Some(Next) <==> isOpen && key == ForwardKey(dir)
    ensures r == Some(Prev) <==> isOpen && key == BackwardKey(dir)
    ensures r == Some(Close) <==> isOpen && key == "Escape"
    ensures r == Some(TogglePairing) <==> key in {"g", "G"}
    ensures r == Some(ToggleOpen) <==> key in {"r", "R"}
    ensures r == Some(ToggleView) <==> key in {"f", "F"}
    ensures r == Some(ToggleDir) <==> key in {"c", "C"}
    ensures r.None? <==>
      key !in {"r", "R", "f", "F", "g", "G", "c", "C"} && !(isOpen && key in {"Escape", "ArrowLeft", "ArrowRight"})
  {
    if key in {"r", "R"} then Some(ToggleOpen)
    else if key in {"f", "F"} then Some(ToggleView)
    else if key in {"g", "G"} then Some(TogglePairing)
    else if key in {"c", "C"} then Some(ToggleDir)
    else if !isOpen then None
    else if key == "Escape" then Some(Close)
    else if key == "ArrowLeft" then (if dir == Rtl then Some(Next) else Some(Prev))
    else if key == "ArrowRight" then (if dir == Rtl then Some(Prev) else Some(Next))
    else None
  }

  /**
   * The overlay's pointerup handler: a click at `x` on an overlay `width` wide is in the
   * left half when x < width / 2; the left half pages forward under rtl, back under ltr.
   */
  function ClickCommand(isOpen: bool, x: real, width: real, dir: ReadingDir): (r: Option<Command>)
    ensures r.Some? <==> isOpen
    ensures r == Some(Next) <==> isOpen && (x < width / 2.0 <==> dir == Rtl)
  {
    if !isOpen then None
    else
      var isLeft := x < width / 2.0;
      if dir == Rtl then (if isLeft then Some(Next) else Some(Prev))
      else (if isLeft then Some(Prev) else Some(Next))
  }

  /** A left-half click means the same as ArrowLeft and a right-half click the same as ArrowRight. */
  lemma ClickAgreesWithArrows(isOpen: bool, x: real, width: real, dir: ReadingDir)
    requires isOpen
    ensures ClickCommand(isOpen, x, width, dir) ==
      KeyCommand(if x < width / 2.0 then "ArrowLeft" else "ArrowRight", isOpen, dir)
  {
  }

  /** Flipping the reading direction swaps the meaning of the two arrow keys. */
  lemma ArrowsSwapWithDirection(key: string, dir: ReadingDir)
    requires key in {"ArrowLeft", "ArrowRight"}
    ensures KeyCommand(key, true, dir) == Some(Next) <==> KeyCommand(key, true, FlipDir(dir)) == Some(Prev)
  {
  }
}
