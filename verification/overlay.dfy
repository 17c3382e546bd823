/**
 The display overlay of renderer/overlay.js: scrolling comments are assigned
 to horizontal lanes, each lane remembering the time (in milliseconds) from
 which it is free again, and a single slot holds the fixed comment.
 Measurements (`offsetWidth`, window size), `Date.now()` and `Math.random()`
 are inputs.
 */
module Overlay {
  import opened Wrappers
  import opened JsValue
  import Hub

  /** Font size in pixels and the lane height derived from it (1.5 times). */
  const FontSize: real := 48.0
  const LaneHeight: real := FontSize * 1.5
  /** Time a scrolling comment takes to cross the window, in milliseconds. */
  const Duration: real := 5000.0
  /** Extra wait after a comment has fully entered before its lane is free. */
  const Margin: real := 200.0

  /** The band between the 10% top and 10% bottom margins. */
  function UsableHeight(innerHeight: nat): real {
    innerHeight as real * 0.8
  }

  // ------------------------------------------------------------- initLanes

  /** `Math.floor(usableHeight / LANE_HEIGHT)`: as many lanes as fit whole
      into the usable band, and not one more. */
  function LaneCount(innerHeight: nat): (n: nat)
    ensures n as real * LaneHeight <= UsableHeight(innerHeight)
    ensures UsableHeight(innerHeight) < (n + 1) as real * LaneHeight
  {
    var q := UsableHeight(innerHeight) / LaneHeight;
    assert 0.0 <= q;
    q.Floor
  }

  /** `initLanes`: run at start-up and on every resize, it forgets every
      reservation and makes all lanes free from time 0. */
  function InitLanes(innerHeight: nat): (lanes: seq<real>)
    ensures |lanes| == LaneCount(innerHeight)
    ensures forall i :: 0 <= i < |lanes| ==> lanes[i] == 0.0
  {
    seq(LaneCount(innerHeight), _ => 0.0)
  }

  /** A 900-pixel-high window has a 720-pixel band and so ten lanes. */
  lemma NineHundredPixelsGiveTenLanes()
    ensures |InitLanes(900)| == 10
  {
    assert UsableHeight(900) == 720.0;
    assert LaneCount(900) == 10;
  }

  // ------------------------------------------------------ getAvailableLane

  /** Lane `i` is free at `now`: its reservation ended strictly before. */
  predicate IsFree(lanes: seq<real>, i: nat, now: real)
    requires i < |lanes|
  {
    lanes[i] < now
  }

  predicate SomeLaneFree(lanes: seq<real>, now: real) {
    exists i: nat :: i < |lanes| && IsFree(lanes, i, now)
  }

  /** The `for` loop of `getAvailableLane` from index `from` on: the first
      free lane, or `|lanes|` when none is free. */
  function FirstFreeFrom(lanes: seq<real>, now: real, from: nat): (i: nat)
    requires from <= |lanes|
    ensures from <= i <= |lanes|
    ensures forall j: nat :: from <= j < i ==> !IsFree(lanes, j, now)
    ensures i < |lanes| ==> IsFree(lanes, i, now)
    decreases |lanes| - from
  {
    if from == |lanes| then from
    else if lanes[from] < now then from
    else FirstFreeFrom(lanes, now, from + 1)
  }

  /** `Math.floor(Math.random() * count)`, with `rand` the value `Math.random` returned. */
  function RandomLane(count: nat, rand: real): (i: nat)
    requires 0.0 <= rand < 1.0
    ensures count > 0 ==> i < count
    ensures count == 0 ==> i == 0
  {
    var x := rand * count as real;
    assert 0.0 <= x;
    x.Floor
  }

  /** `getAvailableLane(now)`: the lowest-index free lane, and when no lane is
      free some lane in range (chosen by `rand`). With no lanes at all the
      answer is 0. */
  function GetAvailableLane(lanes: seq<real>, now: real, rand: real): (i: nat)
    requires 0.0 <= rand < 1.0
    ensures |lanes| > 0 ==> i < |lanes|
    ensures |lanes| == 0 ==> i == 0
    ensures SomeLaneFree(lanes, now) ==>
      i < |lanes| && IsFree(lanes, i, now) && forall j: nat :: j < i ==> !IsFree(lanes, j, now)
  {
    var first := FirstFreeFrom(lanes, now, 0);
    if first < |lanes| then first else RandomLane(|lanes|, rand)
  }

  /** When no lane is free every lane can be the one picked: the fallback is
      a genuine choice over the whole range, not a fixed lane. */
  lemma FallbackCanPickAnyLane(lanes: seq<real>, now: real, k: nat)
    requires !SomeLaneFree(lanes, now)
    requires k < |lanes|
    ensures exists rand: real :: 0.0 <= rand < 1.0 && GetAvailableLane(lanes, now, rand) == k
  {
    var n := |lanes| as real;
    var rand := k as real / n;
    QuotientBelowOne(k as real, n);
    assert RandomLane(|lanes|, rand) == k;
    assert FirstFreeFrom(lanes, now, 0) == |lanes|;
    assert GetAvailableLane(lanes, now, rand) == k;
  }

  /** A lane whose reservation ends exactly at `now` is still busy: while
      some lane is free, such a lane is never the one picked. */
  lemma ReservationEndingNowIsBusy(lanes: seq<real>, i: nat, now: real, rand: real)
    requires 0.0 <= rand < 1.0
    requires i < |lanes| && lanes[i] == now
    ensures !IsFree(lanes, i, now)
    ensures SomeLaneFree(lanes, now) ==> GetAvailableLane(lanes, now, rand) != i
  {
  }

  // ------------------------------------------------------ lane reservation

  /** `lanes[laneIndex] = now + appearTime + 200`: with speed
      `(windowWidth + width) / duration`, a comment of width `width` has fully
      entered after `width / speed`; the lane is free again `Margin` later. */
  function NextAvailable(now: real, width: nat, windowWidth: nat): (t: real)
    requires windowWidth + width > 0
    ensures t == now + width as real * Duration / (windowWidth + width) as real + Margin
    ensures windowWidth > 0 ==> now + Margin <= t < now + Margin + Duration
    ensures width == 0 ==> t == now + Margin
  {
    var total := (windowWidth + width) as real;
    var speed := total / Duration;
    var appearTime := width as real / speed;
    AppearTimeBounds(width as real, total);
    assert appearTime * total == width as real * Duration;
    assert appearTime == width as real * Duration / total;
    now + appearTime + Margin
  }

  /** The entry time `width / ((windowWidth + width) / Duration)` is
      `width * Duration / (windowWidth + width)`: at least 0, and below
      `Duration` when the window has some width. */
  lemma AppearTimeBounds(width: real, total: real)
    requires 0.0 <= width <= total
    requires 0.0 < total
    ensures width / (total / Duration) * total == width * Duration
    ensures 0.0 <= width / (total / Duration)
    ensures width < total ==> width / (total / Duration) < Duration
    ensures width == 0.0 ==> width / (total / Duration) == 0.0
  {
    var speed := total / Duration;
    var q := width / speed;
    assert speed * Duration == total;
    assert q * speed == width;
    assert q * total == q * speed * Duration;
    if width < total && q >= Duration {
      MulMonotone(Duration, q, total);
    }
  }

  /** `k / n` for `0 <= k < n` is a valid `Math.random()` value that scales back to `k`. */
  lemma QuotientBelowOne(k: real, n: real)
    requires 0.0 <= k < n
    ensures 0.0 <= k / n < 1.0
    ensures k / n * n == k
  {
    var q := k / n;
    assert q * n == k;
    if q >= 1.0 {
      MulMonotone(1.0, q, n);
    }
  }

  lemma MulMonotone(a: real, b: real, c: real)
    requires a <= b && 0.0 <= c
    ensures a * c <= b * c
  {
  }

  /** Equal products with a smaller first factor need a larger second one. */
  lemma FactorOrder(u1: real, u2: real, a: real, b: real)
    requires 0.0 < a <= b && 0.0 <= u2
    requires u1 * a == u2 * b
    ensures u2 <= u1
  {
    if u1 < u2 {
      MulMonotone(a, b, u2);
      MulStrict(u1, u2, a);
    }
  }

  lemma MulStrict(a: real, b: real, c: real)
    requires a < b && 0.0 < c
    ensures a * c < b * c
  {
  }

  /** Horizontal position of a scrolling comment's left edge at time `tau`:
      it starts at the right edge of the window (`left = windowWidth`) at
      `start` and moves left by `windowWidth + width` over `Duration`. */
  function LeftEdge(start: real, tau: real, width: nat, windowWidth: nat): real {
    windowWidth as real - (windowWidth + width) as real * (tau - start) / Duration
  }

  /** The reservation ends exactly `Margin` after the comment's right edge has
      reached the window's right edge, that is once it is fully visible;
      before that moment it is still partly off-screen. */
  lemma ReservationCoversEntry(now: real, width: nat, windowWidth: nat, tau: real)
    requires windowWidth + width > 0
    ensures LeftEdge(now, NextAvailable(now, width, windowWidth) - Margin, width, windowWidth) + width as real
            == windowWidth as real
    ensures now <= tau < NextAvailable(now, width, windowWidth) - Margin ==>
            LeftEdge(now, tau, width, windowWidth) + width as real > windowWidth as real
  {
    var total := (windowWidth + width) as real;
    var appear := NextAvailable(now, width, windowWidth) - now - Margin;
    assert appear == width as real / (total / Duration);
    assert appear * total == width as real * Duration;
    assert total * appear / Duration == width as real;
    if now <= tau < now + appear {
      assert total * (tau - now) < total * appear;
      assert total * (tau - now) / Duration < width as real;
    }
  }

  /** A wider comment keeps its lane busy at least as long. */
  lemma WiderCommentsReserveLonger(now: real, w1: nat, w2: nat, windowWidth: nat)
    requires windowWidth > 0
    requires w1 <= w2
    ensures NextAvailable(now, w1, windowWidth) <= NextAvailable(now, w2, windowWidth)
  {
    var a := (windowWidth + w1) as real;
    var b := (windowWidth + w2) as real;
    var p1 := NextAvailable(now, w1, windowWidth) - now - Margin;
    var p2 := NextAvailable(now, w2, windowWidth) - now - Margin;
    AppearTimeBounds(w1 as real, a);
    AppearTimeBounds(w2 as real, b);
    // Both entry times satisfy (Duration - p) * total == windowWidth * Duration.
    assert (Duration - p1) * a == windowWidth as real * Duration;
    assert (Duration - p2) * b == windowWidth as real * Duration;
    FactorOrder(Duration - p1, Duration - p2, a, b);
  }

  /** JavaScript array assignment `lanes[i] = v`: replaces element `i`, or
      appends when `i` is the current length. */
  function WriteLane(lanes: seq<real>, i: nat, v: real): (r: seq<real>)
    requires i <= |lanes|
    ensures |r| == if i < |lanes| then |lanes| else |lanes| + 1
    ensures r[i] == v
    ensures forall j: nat :: j < |lanes| && j != i ==> r[j] == lanes[j]
  {
    if i < |lanes| then lanes[i := v] else lanes + [v]
  }

  // ----------------------------------------------------- display handlers

  /** What the handler reads from its surroundings when a comment arrives:
      `Date.now()`, the comment's measured width, the window size and the
      value `Math.random()` returns. */
  datatype Env = Env(now: real, width: nat, windowWidth: nat, windowHeight: nat, rand: real)

  /** `Math.random()` lies in `[0, 1)`; the window and the comment together
      have some width whenever the reservation divides by it, which only a
      scrolling comment does (a fixed one returns first). */
  predicate ValidEnv(data: Hub.Payload, env: Env) {
    && 0.0 <= env.rand < 1.0
    && (!Truthy(data.isFixed) ==> env.windowWidth + env.width > 0)
  }

  /** The overlay's state: the lane reservations and the fixed-comment slot. */
  datatype Display = Display(lanes: seq<real>, fixed: Option<Hub.Payload>)

  /** The overlay as loaded in a window `innerHeight` pixels high. */
  function Start(innerHeight: nat): (d: Display)
    ensures d.fixed == None
    ensures |d.lanes| == LaneCount(innerHeight)
    ensures forall i :: 0 <= i < |d.lanes| ==> d.lanes[i] == 0.0
    ensures d.lanes == InitLanes(innerHeight)
  {
    Display(InitLanes(innerHeight), None)
  }

  /** The `new_comment` handler. A fixed comment takes over the single slot
      and returns before any lane is touched; a scrolling comment reserves
      the lane `getAvailableLane` picks. */
  function OnNewComment(d: Display, data: Hub.Payload, env: Env): (r: Display)
    requires ValidEnv(data, env)
    ensures Truthy(data.isFixed) ==> r.lanes == d.lanes
    ensures !Truthy(data.isFixed) ==> r.fixed == d.fixed
  {
    var lane := GetAvailableLane(d.lanes, env.now, env.rand);
    if Truthy(data.isFixed) then
      Display(d.lanes, Some(data))
    else
      Display(WriteLane(d.lanes, lane, NextAvailable(env.now, env.width, env.windowWidth)), d.fixed)
  }

  /** The `clear_fixed_comment` handler: removes the fixed comment if any. */
  function OnClearFixed(d: Display): (r: Display)
    ensures r.fixed == None
    ensures r.lanes == d.lanes
  {
    Display(d.lanes, None)
  }

  /** The `resize` listener: `initLanes` again for the new height. */
  function OnResize(d: Display, innerHeight: nat): (r: Display)
    ensures |r.lanes| == LaneCount(innerHeight)
    ensures forall i :: 0 <= i < |r.lanes| ==> r.lanes[i] == 0.0
    ensures r.fixed == d.fixed
  {
    Display(InitLanes(innerHeight), d.fixed)
  }

  /** `top` of a scrolling comment in lane `lane`: below the 10% margin. */
  function LaneTop(windowHeight: nat, lane: nat): real {
    windowHeight as real * 0.1 + lane as real * LaneHeight
  }

  /** A fixed comment never touches the lanes and replaces whatever fixed
      comment was shown: there is never more than one. */
  lemma FixedCommentReplacesSlot(d: Display, data: Hub.Payload, env: Env)
    requires ValidEnv(data, env)
    requires Truthy(data.isFixed)
    ensures OnNewComment(d, data, env) == Display(d.lanes, Some(data))
  {
  }

  /** Clearing an empty slot changes nothing. */
  lemma ClearingEmptySlotIsNoOp(d: Display)
    requires d.fixed == None
    ensures OnClearFixed(d) == d
  {
  }

  /** A scrolling comment changes exactly one lane, the chosen one, and keeps
      the number of lanes. When that lane was free its previous reservation
      ended before the comment arrived, and the new one starts no earlier
      than `now + Margin` and ends before `now + Margin + Duration`: it is
      the reservation `NextAvailable` computes for the comment. */
  lemma ScrollingCommentReservesOneLane(d: Display, data: Hub.Payload, env: Env)
    requires ValidEnv(data, env)
    requires !Truthy(data.isFixed)
    requires |d.lanes| > 0
    ensures var r := OnNewComment(d, data, env);
            var i := GetAvailableLane(d.lanes, env.now, env.rand);
            && |r.lanes| == |d.lanes|
            && i < |d.lanes|
            && (forall j :: 0 <= j < |d.lanes| && j != i ==> r.lanes[j] == d.lanes[j])
            && r.lanes[i] == NextAvailable(env.now, env.width, env.windowWidth)
            && (env.windowWidth > 0 ==> env.now + Margin <= r.lanes[i] < env.now + Margin + Duration)
            && (SomeLaneFree(d.lanes, env.now) ==> d.lanes[i] < env.now < r.lanes[i])
  {
  }

  /** With no lanes (a window under 90 pixels high) the scrolling comment is
      put in lane 0 anyway, and the assignment creates that lane. */
  lemma NoLanesGrowsOne(d: Display, data: Hub.Payload, env: Env)
    requires ValidEnv(data, env)
    requires !Truthy(data.isFixed)
    requires |d.lanes| == 0
    ensures |OnNewComment(d, data, env).lanes| == 1
  {
  }

  /** Every lane the window was initialised with lies inside the usable band:
      its top is below the top margin and its bottom above the bottom margin. */
  lemma LanesFitTheBand(windowHeight: nat, lane: nat)
    requires lane < LaneCount(windowHeight)
    ensures windowHeight as real * 0.1 <= LaneTop(windowHeight, lane)
    ensures LaneTop(windowHeight, lane) + LaneHeight <= windowHeight as real * 0.9
  {
    assert (lane + 1) as real * LaneHeight <= LaneCount(windowHeight) as real * LaneHeight;
  }

  // ------------------------------------------------------------------ runs

  /** Events the overlay reacts to. */
  datatype DisplayEvent = Comment(data: Hub.Payload, env: Env) | ClearFixed | Resize(innerHeight: nat)

  predicate ValidEvent(e: DisplayEvent) {
    e.Comment? ==> ValidEnv(e.data, e.env)
  }

  function Apply(d: Display, e: DisplayEvent): Display
    requires ValidEvent(e)
  {
    match e
    case Comment(data, env) => OnNewComment(d, data, env)
    case ClearFixed => OnClearFixed(d)
    case Resize(h) => OnResize(d, h)
  }

  function RunDisplay(d: Display, es: seq<DisplayEvent>): Display
    requires forall k :: 0 <= k < |es| ==> ValidEvent(es[k])
    decreases |es|
  {
    if |es| == 0 then d else RunDisplay(Apply(d, es[0]), es[1..])
  }

  /** Events that decide the fixed slot: a fixed comment or a clear. */
  predicate SetsSlot(e: DisplayEvent) {
    e.ClearFixed? || (e.Comment? && Truthy(e.data.isFixed))
  }

  /** The slot content an event leaves behind. */
  function SlotAfter(e: DisplayEvent): Option<Hub.Payload>
    requires SetsSlot(e)
  {
    if e.ClearFixed? then None else Some(e.data)
  }

  predicate LastSlotSetter(es: seq<DisplayEvent>, k: nat) {
    forall m :: k < m < |es| ==> !SetsSlot(es[m])
  }

  /** The fixed slot shows the comment of the last fixed comment since the
      last clear: the most recent slot-setting event decides it, and without
      any such event it is unchanged. */
  lemma {:induction false} LastFixedCommentWins(d: Display, es: seq<DisplayEvent>)
    requires forall k :: 0 <= k < |es| ==> ValidEvent(es[k])
    ensures (forall k :: 0 <= k < |es| ==> !SetsSlot(es[k])) ==> RunDisplay(d, es).fixed == d.fixed
    ensures forall k :: 0 <= k < |es| && SetsSlot(es[k]) && LastSlotSetter(es, k) ==>
      RunDisplay(d, es).fixed == SlotAfter(es[k])
    decreases |es|
  {
    if |es| > 0 {
      LastFixedCommentWins(Apply(d, es[0]), es[1..]);
      assert forall m :: 0 < m < |es| ==> es[1..][m - 1] == es[m];
    }
  }
}
