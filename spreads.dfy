/**
 * The spread builder: the page sequence grouped into two-page spreads under one of
 * two pairing modes. Page numbers are 1-based positions in the page sequence.
 */
module Spreads {
  import opened Common

  /** Mode 0 (lead-single): page 1 alone, then (2,3)(4,5)…; mode 1 (paired-from-start): (1,2)(3,4)…. */
  datatype PairingMode = LeadSingle | PairedFromStart

  function Toggled(m: PairingMode): (r: PairingMode)
    ensures r != m
  {
    if m == LeadSingle then PairedFromStart else LeadSingle
  }

  /** `{right, left?, rightNo, leftNo?}`; `right` is set on every spread the builder emits. */
  datatype Spread = Spread(right: string, left: Option<string>, rightNo: nat, leftNo: Option<nat>)

  /** The pair starting at page index `i`: its partner is the next page, if there is one. */
  function PairAt(pages: seq<string>, i: nat): Spread
    requires i < |pages|
  {
    var left := if i + 1 < |pages| then Some(pages[i + 1]) else None;
    Spread(pages[i], left, i + 1, if NonEmpty(left).Some? then Some(i + 2) else None)
  }

  /** The pairs (i, i+1), (i+2, i+3), … up to the end of `pages`. */
  function PairsFrom(pages: seq<string>, i: nat): seq<Spread>
    decreases |pages| - i
  {
    if i >= |pages| then [] else [PairAt(pages, i)] + PairsFrom(pages, i + 2)
  }

  /** buildSpreads as a function of the page sequence and the pairing mode. */
  function SpreadsOf(pages: seq<string>, mode: PairingMode): seq<Spread> {
    match mode
    case LeadSingle =>
      (if |pages| >= 1 then [Spread(pages[0], None, 1, None)] else []) + PairsFrom(pages, 1)
    case PairedFromStart =>
      PairsFrom(pages, 0)
  }

  /** The pages a spread shows, right slot first. */
  function Slots(s: Spread): seq<string> {
    [s.right] + if s.left.Some? then [s.left.value] else []
  }

  /** The slots of all spreads, in spread order. */
  function Flatten(ss: seq<Spread>): seq<string> {
    if ss == [] then [] else Slots(ss[0]) + Flatten(ss[1..])
  }

  /** The 0-based page index of the right slot of spread `k`. */
  function RightIndex(mode: PairingMode, k: nat): nat {
    match mode
    case PairedFromStart => 2 * k
    case LeadSingle => if k == 0 then 0 else 2 * k - 1
  }

  /** The number of spreads: ceil(n/2) pairing from the start, 0 or 1 + n/2 with a single lead page. */
  function SpreadCount(mode: PairingMode, n: nat): nat {
    match mode
    case PairedFromStart => (n + 1) / 2
    case LeadSingle => if n == 0 then 0 else 1 + n / 2
  }

  /** Every page is a non-empty string (true of any scanned page list). */
  ghost predicate NonEmptyPages(pages: seq<string>) {
    forall k | 0 <= k < |pages| :: pages[k] != ""
  }

  lemma {:induction false} PairsFromLength(pages: seq<string>, i: nat)
    ensures |PairsFrom(pages, i)| == if i >= |pages| then 0 else (|pages| - i + 1) / 2
    decreases |pages| - i
  {
    if i < |pages| {
      PairsFromLength(pages, i + 2);
    }
  }

  lemma {:induction false} PairsFromShape(pages: seq<string>, i: nat)
    ensures forall k | 0 <= k < |PairsFrom(pages, i)| ::
      i + 2 * k < |pages| && PairsFrom(pages, i)[k] == PairAt(pages, i + 2 * k)
    decreases |pages| - i
  {
    if i < |pages| {
      PairsFromShape(pages, i + 2);
      var rest := PairsFrom(pages, i + 2);
      forall k | 1 <= k < |PairsFrom(pages, i)|
        ensures i + 2 * k < |pages| && PairsFrom(pages, i)[k] == PairAt(pages, i + 2 * k)
      {
        assert PairsFrom(pages, i)[k] == rest[k - 1];
        assert i + 2 + 2 * (k - 1) == i + 2 * k;
      }
    }
  }

  /** There are SpreadCount(mode, |pages|) spreads. */
  lemma SpreadCountIs(pages: seq<string>, mode: PairingMode)
    ensures |SpreadsOf(pages, mode)| == SpreadCount(mode, |pages|)
  {
    PairsFromLength(pages, if mode == LeadSingle then 1 else 0);
  }

  /**
   * Spread `k` in closed form: its right slot is page RightIndex(mode, k) with number
   * RightIndex + 1; it has a left slot exactly when a next page exists (never for the
   * lead spread in mode 0), which is then the next page; leftNo is rightNo + 1 exactly
   * when the left slot holds a non-empty page.
   */
  lemma SpreadAt(pages: seq<string>, mode: PairingMode, k: nat)
    requires k < |SpreadsOf(pages, mode)|
    ensures var s, r := SpreadsOf(pages, mode)[k], RightIndex(mode, k);
      && r < |pages|
      && s.right == pages[r]
      && s.rightNo == r + 1
      && (s.left.Some? <==> r + 1 < |pages| && !(mode == LeadSingle && k == 0))
      && (s.left.Some? ==> s.left.value == pages[r + 1])
      && s.leftNo == if s.left.Some? && s.left.value != "" then Some(s.rightNo + 1) else None
  {
    var ss := SpreadsOf(pages, mode);
    match mode
    case PairedFromStart =>
      PairsFromShape(pages, 0);
    case LeadSingle =>
      PairsFromShape(pages, 1);
      PairsFromLength(pages, 1);
      if k > 0 {
        assert ss[k] == PairsFrom(pages, 1)[k - 1];
      }
  }

  /** Over non-empty pages, leftNo is set exactly when left is, and then equals rightNo + 1. */
  lemma LeftNumberMatchesLeftSlot(pages: seq<string>, mode: PairingMode, k: nat)
    requires NonEmptyPages(pages)
    requires k < |SpreadsOf(pages, mode)|
    ensures var s := SpreadsOf(pages, mode)[k];
      && (s.leftNo.Some? <==> s.left.Some?)
      && (s.leftNo.Some? ==> s.leftNo.value == s.rightNo + 1)
      && 1 <= s.rightNo <= |pages| && pages[s.rightNo - 1] == s.right
  {
    SpreadAt(pages, mode, k);
  }

  lemma {:induction false} FlattenPairsFrom(pages: seq<string>, i: nat)
    requires i <= |pages|
    ensures Flatten(PairsFrom(pages, i)) == pages[i..]
    decreases |pages| - i
  {
    if i < |pages| {
      var ps := PairsFrom(pages, i);
      assert ps[1..] == PairsFrom(pages, i + 2);
      if i + 1 < |pages| {
        FlattenPairsFrom(pages, i + 2);
        assert pages[i..] == [pages[i], pages[i + 1]] + pages[i + 2..];
      } else {
        assert PairsFrom(pages, i + 2) == [];
      }
    }
  }

  /**
   * Coverage: in either mode, reading the right slot then the left slot of every spread,
   * in order, gives back the page sequence exactly.
   */
  lemma SpreadsCoverPages(pages: seq<string>, mode: PairingMode)
    ensures Flatten(SpreadsOf(pages, mode)) == pages
  {
    match mode
    case PairedFromStart =>
      FlattenPairsFrom(pages, 0);
    case LeadSingle =>
      if |pages| >= 1 {
        FlattenPairsFrom(pages, 1);
        var ss := SpreadsOf(pages, mode);
        assert ss[1..] == PairsFrom(pages, 1);
        assert pages == [pages[0]] + pages[1..];
      }
  }

  /** A page in Flatten(ss) sits in the right or the left slot of some spread. */
  lemma {:induction false} InFlattenHasSpread(ss: seq<Spread>, u: string)
    requires u in Flatten(ss)
    ensures exists k | 0 <= k < |ss| :: ss[k].right == u || ss[k].left == Some(u)
  {
    if u !in Slots(ss[0]) {
      InFlattenHasSpread(ss[1..], u);
      var k :| 0 <= k < |ss[1..]| && (ss[1..][k].right == u || ss[1..][k].left == Some(u));
      assert ss[k + 1] == ss[1..][k];
    }
  }

  /** Every page of the sequence is shown by some spread, in either mode. */
  lemma EveryPageHasSpread(pages: seq<string>, mode: PairingMode, u: string)
    requires u in pages
    ensures exists k | 0 <= k < |SpreadsOf(pages, mode)| ::
      SpreadsOf(pages, mode)[k].right == u || SpreadsOf(pages, mode)[k].left == Some(u)
  {
    SpreadsCoverPages(pages, mode);
    InFlattenHasSpread(SpreadsOf(pages, mode), u);
  }

  /** Five pages with a single lead page: [{p1}, {p2,p3}, {p4,p5}]. */
  lemma FivePagesLeadSingle(p: seq<string>)
    requires |p| == 5 && NonEmptyPages(p)
    ensures SpreadsOf(p, LeadSingle) ==
      [Spread(p[0], None, 1, None),
       Spread(p[1], Some(p[2]), 2, Some(3)),
       Spread(p[3], Some(p[4]), 4, Some(5))]
  {
    assert PairsFrom(p, 1) == [PairAt(p, 1)] + PairsFrom(p, 3);
    assert PairsFrom(p, 3) == [PairAt(p, 3)] + PairsFrom(p, 5);
    assert PairsFrom(p, 5) == [];
  }

  /** Five pages paired from the start: [{p1,p2}, {p3,p4}, {p5}]. */
  lemma FivePagesPairedFromStart(p: seq<string>)
    requires |p| == 5 && NonEmptyPages(p)
    ensures SpreadsOf(p, PairedFromStart) ==
      [Spread(p[0], Some(p[1]), 1, Some(2)),
       Spread(p[2], Some(p[3]), 3, Some(4)),
       Spread(p[4], None, 5, None)]
  {
    assert PairsFrom(p, 0) == [PairAt(p, 0)] + PairsFrom(p, 2);
    assert PairsFrom(p, 2) == [PairAt(p, 2)] + PairsFrom(p, 4);
    assert PairsFrom(p, 4) == [PairAt(p, 4)] + PairsFrom(p, 6);
    assert PairsFrom(p, 6) == [];
  }

  /**
   * Appending pages keeps the spread list stable at the front: no spread disappears,
   * every spread keeps its right page, and a spread that already had its left page,
   * or was not the last one, is unchanged.
   */
  lemma SpreadsGrowAtTail(p: seq<string>, q: seq<string>, mode: PairingMode)
    requires IsPrefix(p, q)
    ensures |SpreadsOf(p, mode)| <= |SpreadsOf(q, mode)|
    ensures forall k | 0 <= k < |SpreadsOf(p, mode)| ::
      && SpreadsOf(q, mode)[k].right == SpreadsOf(p, mode)[k].right
      && SpreadsOf(q, mode)[k].rightNo == SpreadsOf(p, mode)[k].rightNo
      && (SpreadsOf(p, mode)[k].left.Some? || k + 1 < |SpreadsOf(p, mode)| ==>
            SpreadsOf(q, mode)[k] == SpreadsOf(p, mode)[k])
  {
    SpreadCountIs(p, mode);
    SpreadCountIs(q, mode);
    forall k | 0 <= k < |SpreadsOf(p, mode)|
      ensures && SpreadsOf(q, mode)[k].right == SpreadsOf(p, mode)[k].right
              && SpreadsOf(q, mode)[k].rightNo == SpreadsOf(p, mode)[k].rightNo
              && (SpreadsOf(p, mode)[k].left.Some? || k + 1 < |SpreadsOf(p, mode)| ==>
                    SpreadsOf(q, mode)[k] == SpreadsOf(p, mode)[k])
    {
      SpreadAt(p, mode, k);
      SpreadAt(q, mode, k);
      var r := RightIndex(mode, k);
      assert p[r] == q[r];
      if k + 1 < |SpreadsOf(p, mode)| {
        SpreadAt(p, mode, k + 1);
      }
      if r + 1 < |p| {
        assert p[r + 1] == q[r + 1];
      }
    }
  }
}
