/**
 * The auto-drive controller: while the overlay is open it scrolls the host page on a
 * timer so that the site appends more images, jitters when progress stalls, and stops
 * on close, on timeout, or when stalled at the bottom of the page.
 * Time, the image count and "near the bottom" are inputs of each tick.
 */
module AutoDrive {
  import opened Common

  /** Scroll step per tick, in pixels. */
  const STEP_PX: int := 900
  /** Consecutive ticks without new images before the driver jitters or stops. */
  const STALL_ROUNDS: nat := 12
  /** Longest drive, in milliseconds from the start. */
  const MAX_MS: int := 30000
  /** Jitter distance, in pixels: scroll back this far, then forward twice as far. */
  const JITTER_PX: int := 260

  datatype StopReason = Closed | Timeout | Bottom | Stopped

  /**
   * The driver's fields: `running` is "the interval timer is set"; the rest are
   * autoDriveStartTs, autoDriveLastProgressTs, autoDriveLastImgCount, autoDriveStall
   * and autoDriveStopReason.
   */
  datatype Session = Session(
    running: bool,
    startTs: int,
    lastProgressTs: int,
    lastImgCount: nat,
    stall: nat,
    stopReason: Option<StopReason>)

  /** What a tick does to the host page: nothing (it stopped), a jitter, or a forward step. */
  datatype Action = Halt(reason: StopReason) | Jitter(back: int, forward: int) | Step(dy: int)

  /** What holds between ticks: a running driver is below the stall threshold and has no stop reason. */
  ghost predicate SessionInv(s: Session) {
    s.running ==> s.stall < STALL_ROUNDS && s.stopReason == None
  }

  /** startAutoDrive: only on an open overlay with no timer set; otherwise nothing changes. */
  function Start(s: Session, isOpen: bool, now: int, count: nat): (r: Session)
    ensures !isOpen || s.running ==> r == s
    ensures isOpen && !s.running ==>
      && r.running && r.startTs == now && r.lastProgressTs == now
      && r.stall == 0 && r.lastImgCount == count && r.stopReason == None
    ensures SessionInv(s) ==> SessionInv(r)
  {
    if !isOpen || s.running then s
    else Session(true, now, now, count, 0, None)
  }

  /**
   * stopAutoDrive(reason): a no-op when no timer is set; otherwise clears the timer and
   * records the given reason, else the previous one, else "stopped".
   */
  function Stop(s: Session, reason: Option<StopReason>): (r: Session)
    ensures !r.running
    ensures !s.running ==> r == s
    ensures s.running ==> r.stopReason.Some? && (reason.Some? ==> r.stopReason == reason)
    ensures s.running && reason.None? ==>
      r.stopReason == if s.stopReason.Some? then s.stopReason else Some(Stopped)
    ensures r.(running := s.running, stopReason := s.stopReason) == s
  {
    if !s.running then s
    else
      s.(running := false,
         stopReason := if reason.Some? then reason else if s.stopReason.Some? then s.stopReason else Some(Stopped))
  }

  /**
   * autoDriveTick. The checks run in order: closed overlay, timeout, progress (a larger
   * count resets the stall counter, otherwise it grows), stalled at the bottom, stalled
   * elsewhere (jitter and reset), else a normal step.
   */
  function Tick(s: Session, isOpen: bool, now: int, count: nat, nearBottom: bool): (r: (Session, Action))
    ensures !isOpen ==> r.1 == Halt(Closed)
    ensures isOpen && now - s.startTs > MAX_MS ==> r.1 == Halt(Timeout)
    ensures r.1.Halt? ==> !r.0.running && (s.running ==> r.0.stopReason == Some(r.1.reason))
    ensures !isOpen || now - s.startTs > MAX_MS ==> r.0 == Stop(s, Some(r.1.reason))
    ensures !r.1.Halt? ==> r.0.running == s.running && r.0.stall < STALL_ROUNDS
    ensures r.0.lastImgCount >= s.lastImgCount && r.0.startTs == s.startTs
    ensures r.1 == Halt(Bottom) ==> nearBottom && count <= s.lastImgCount
    ensures r.1.Step? ==> r.1 == Step(STEP_PX)
    ensures r.1.Jitter? ==> r.1 == Jitter(JITTER_PX, 2 * JITTER_PX) && count <= s.lastImgCount && !nearBottom
    ensures SessionInv(s) ==> SessionInv(r.0)
    ensures isOpen && now - s.startTs <= MAX_MS ==>
      var st := if count > s.lastImgCount then 0 else s.stall + 1;
      && (r.1 == Halt(Bottom) <==> st >= STALL_ROUNDS && nearBottom)
      && (r.1.Jitter? <==> st >= STALL_ROUNDS && !nearBottom)
      && (r.1.Step? <==> st < STALL_ROUNDS)
      && r.0.stall == (if r.1.Jitter? then 0 else st)
      && (count > s.lastImgCount ==> r.0.lastImgCount == count && r.0.lastProgressTs == now)
      && (count <= s.lastImgCount ==>
            r.0.lastImgCount == s.lastImgCount && r.0.lastProgressTs == s.lastProgressTs)
  {
    if !isOpen then (Stop(s, Some(Closed)), Halt(Closed))
    else if now - s.startTs > MAX_MS then (Stop(s, Some(Timeout)), Halt(Timeout))
    else
      var s1 :=
        if count > s.lastImgCount then s.(lastImgCount := count, lastProgressTs := now, stall := 0)
        else s.(stall := s.stall + 1);
      if s1.stall >= STALL_ROUNDS && nearBottom then (Stop(s1, Some(Bottom)), Halt(Bottom))
      else if s1.stall >= STALL_ROUNDS then (s1.(stall := 0), Jitter(JITTER_PX, 2 * JITTER_PX))
      else (s1, Step(STEP_PX))
  }

  /** The inputs of one tick: the clock, the image count and whether the page is near its bottom. */
  datatype TickInput = TickInput(now: int, count: nat, nearBottom: bool)

  /** The interval timer firing once per input while the driver runs; it stops firing once cleared. */
  function Run(s: Session, isOpen: bool, ticks: seq<TickInput>): (r: (Session, seq<Action>))
    ensures |r.1| <= |ticks| && (|r.1| < |ticks| ==> !r.0.running)
    ensures forall i | 0 <= i < |r.1| - 1 :: !r.1[i].Halt?
    decreases |ticks|
  {
    if ticks == [] || !s.running then (s, [])
    else
      var (s1, a) := Tick(s, isOpen, ticks[0].now, ticks[0].count, ticks[0].nearBottom);
      var (s2, rest) := Run(s1, isOpen, ticks[1..]);
      (s2, [a] + rest)
  }

  /**
   * With no new images and the page already at its bottom, a running driver steps while
   * the stall counter climbs and stops with reason "bottom" exactly on the tick that
   * brings the counter to STALL_ROUNDS.
   */
  lemma {:induction false} StalledAtBottomStops(s: Session, ticks: seq<TickInput>)
    requires s.running && s.stall < STALL_ROUNDS
    requires |ticks| == STALL_ROUNDS - s.stall
    requires forall i | 0 <= i < |ticks| ::
      ticks[i].count <= s.lastImgCount && ticks[i].nearBottom && ticks[i].now - s.startTs <= MAX_MS
    ensures var (e, acts) := Run(s, true, ticks);
      && !e.running && e.stopReason == Some(Bottom)
      && |acts| == |ticks| && acts[|acts| - 1] == Halt(Bottom)
      && forall i | 0 <= i < |acts| - 1 :: acts[i] == Step(STEP_PX)
    decreases |ticks|
  {
    var t := ticks[0];
    var (s1, a) := Tick(s, true, t.now, t.count, t.nearBottom);
    assert s1.lastImgCount == s.lastImgCount && s1.startTs == s.startTs;
    if s.stall + 1 < STALL_ROUNDS {
      assert a == Step(STEP_PX) && s1.stall == s.stall + 1 && s1.running;
      StalledAtBottomStops(s1, ticks[1..]);
    } else {
      assert a == Halt(Bottom);
    }
  }

  /**
   * With no new images away from the bottom of the page, a running driver steps while the
   * stall counter climbs, then jitters on the tick that brings it to STALL_ROUNDS; the
   * counter is back at 0 and the driver still runs.
   */
  lemma {:induction false} StalledAwayFromBottomJitters(s: Session, ticks: seq<TickInput>)
    requires s.running && s.stall < STALL_ROUNDS
    requires |ticks| == STALL_ROUNDS - s.stall
    requires forall i | 0 <= i < |ticks| ::
      ticks[i].count <= s.lastImgCount && !ticks[i].nearBottom && ticks[i].now - s.startTs <= MAX_MS
    ensures var (e, acts) := Run(s, true, ticks);
      && e.running && e.stall == 0 && e.lastImgCount == s.lastImgCount
      && |acts| == |ticks| && acts[|acts| - 1] == Jitter(JITTER_PX, 2 * JITTER_PX)
      && forall i | 0 <= i < |acts| - 1 :: acts[i] == Step(STEP_PX)
    decreases |ticks|
  {
    var t := ticks[0];
    var (s1, a) := Tick(s, true, t.now, t.count, t.nearBottom);
    assert s1.lastImgCount == s.lastImgCount && s1.startTs == s.startTs && s1.running;
    if s.stall + 1 < STALL_ROUNDS {
      assert a == Step(STEP_PX) && s1.stall == s.stall + 1;
      StalledAwayFromBottomJitters(s1, ticks[1..]);
    } else {
      assert a == Jitter(JITTER_PX, 2 * JITTER_PX) && s1.stall == 0;
      assert Run(s1, true, ticks[1..]) == (s1, []);
    }
  }

  /** A freshly started driver that never sees a new image at the bottom of the page stops after STALL_ROUNDS ticks. */
  lemma FreshDriveStopsAtBottom(s: Session, start: int, count: nat, ticks: seq<TickInput>)
    requires !s.running
    requires |ticks| == STALL_ROUNDS
    requires forall i | 0 <= i < |ticks| ::
      ticks[i].count <= count && ticks[i].nearBottom && ticks[i].now - start <= MAX_MS
    ensures var (e, acts) := Run(Start(s, true, start, count), true, ticks);
      !e.running && e.stopReason == Some(Bottom) && |acts| == STALL_ROUNDS
  {
    StalledAtBottomStops(Start(s, true, start, count), ticks);
  }

  /**
   * With a new image on every tick the driver never stalls: it steps until the first
   * tick past MAX_MS, where it stops with reason "timeout".
   */
  lemma {:induction false} GrowingCountRunsUntilTimeout(s: Session, ticks: seq<TickInput>)
    requires s.running
    requires |ticks| >= 1
    requires ticks[0].count > s.lastImgCount
    requires forall i | 0 <= i < |ticks| - 1 :: ticks[i + 1].count > ticks[i].count
    requires forall i | 0 <= i < |ticks| - 1 :: ticks[i].now - s.startTs <= MAX_MS
    requires ticks[|ticks| - 1].now - s.startTs > MAX_MS
    ensures var (e, acts) := Run(s, true, ticks);
      && !e.running && e.stopReason == Some(Timeout)
      && |acts| == |ticks| && acts[|acts| - 1] == Halt(Timeout)
      && forall i | 0 <= i < |acts| - 1 :: acts[i] == Step(STEP_PX)
    decreases |ticks|
  {
    var t := ticks[0];
    var (s1, a) := Tick(s, true, t.now, t.count, t.nearBottom);
    if |ticks| > 1 {
      assert a == Step(STEP_PX) && s1.running && s1.lastImgCount == t.count;
      assert s1.startTs == s.startTs && s1.stopReason == s.stopReason;
      var rest := ticks[1..];
      assert forall i | 0 <= i < |rest| - 1 :: rest[i + 1].count > rest[i].count;
      GrowingCountRunsUntilTimeout(s1, rest);
    }
  }

  /** Every tick the driver takes while running leaves the stall counter below the threshold. */
  lemma {:induction false} RunKeepsInvariant(s: Session, isOpen: bool, ticks: seq<TickInput>)
    requires SessionInv(s)
    ensures SessionInv(Run(s, isOpen, ticks).0)
    ensures Run(s, isOpen, ticks).0.lastImgCount >= s.lastImgCount
    decreases |ticks|
  {
    if ticks != [] && s.running {
      var (s1, a) := Tick(s, isOpen, ticks[0].now, ticks[0].count, ticks[0].nearBottom);
      RunKeepsInvariant(s1, isOpen, ticks[1..]);
    }
  }
}
