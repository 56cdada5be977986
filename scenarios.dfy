/**
 * Sequences of reader operations, each stating what the sequence as a whole guarantees.
 */
module Scenarios {
  import opened Common
  import opened PageUrl
  import opened PageList
  import opened Spreads
  import opened Navigation
  import opened Reader

  /**
   * Refreshing twice over the same element list: the second refresh finds the same pages,
   * keeps the index and does not re-render.
   */
  method RefreshTwice(rd: Reader, list: seq<Image>) returns (r1: Render, r2: Render)
    requires rd.Valid()
    modifies rd
    ensures rd.Valid()
    ensures rd.pages == Pages(list) && rd.spreads == SpreadsOf(Pages(list), rd.pairingMode)
    ensures rd.index == Clamp(old(rd.index), |rd.spreads|)
    ensures r2 == NoRender && (r1.Rendered? ==> rd.lastRendered == r1.panes)
  {
    r1 := rd.RefreshPagesNow(Some(list));
    ghost var first, idx := rd.pages, rd.index;
    r2 := rd.RefreshPagesNow(Some(list));
    assert rd.pages == first && rd.index == idx;
  }

  /** Two mutations before the frame runs request a single refresh. */
  method MutationsCoalesce(rd: Reader) returns (first: bool, second: bool)
    requires rd.Valid() && !rd.refreshQueued
    modifies rd
    ensures rd.Valid()
    ensures first && !second && rd.refreshQueued
  {
    first := rd.ScheduleRefresh();
    second := rd.ScheduleRefresh();
  }

  /** Toggling the reading direction twice restores it and shows the same panes as before. */
  method ReadingDirRoundTrip(rd: Reader) returns (r: Render)
    requires rd.Valid()
    modifies rd
    ensures rd.Valid()
    ensures rd.readingDir == old(rd.readingDir) && rd.index == old(rd.index)
    ensures r.Rendered? ==> 0 <= rd.index < |rd.spreads| && r.panes == PanesFor(rd.spreads[rd.index], old(rd.readingDir))
  {
    var _ := rd.ToggleReadingDir();
    r := rd.ToggleReadingDir();
  }

  /** Paging forward then back from a spread that has a successor returns to it. */
  method NextThenPrev(rd: Reader) returns (r: Render)
    requires rd.Valid() && rd.index + 1 < |rd.spreads|
    modifies rd
    ensures rd.Valid()
    ensures rd.index == old(rd.index)
  {
    var _ := rd.GotoNext();
    r := rd.GotoPrev();
  }
}
