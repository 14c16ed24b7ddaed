/** The smooth-scroll engine of theme/base/static/theme.js: where a scroll
    may land, when it jumps instead of animating, how long the animation
    of an in-page anchor click lasts. Positions are finite reals (pixels);
    durations are JavaScript numbers because a CSS duration can parse to NaN. */
module Scroll {
  import opened Wrappers
  import opened Strings
  import opened JsNumber

  const SCROLL_DURATION_MIN_MS: real := 300.0
  const SCROLL_DURATION_MAX_MS: real := 1800.0
  const ANCHOR_SCROLL_MIN_MS: real := 1500.0
  const ANCHOR_SCROLL_MAX_MS: real := 4000.0
  const ANCHOR_SCROLL_BASE_MS: real := 2500.0
  const ANCHOR_SCROLL_PX_FACTOR: real := 1.5
  const ANCHOR_SCROLL_DIST_CAP_MS: real := 1000.0

  function RMax(a: real, b: real): real { if a >= b then a else b }
  function RMin(a: real, b: real): real { if a <= b then a else b }
  function RAbs(a: real): real { if a >= 0.0 then a else -a }

  /** `window.pageYOffset || document.documentElement.scrollTop || 0`:
      a zero offset is falsy, so the fallback is consulted. */
  function CurrentScrollY(pageYOffset: real, scrollTop: real): (y: real)
    ensures pageYOffset != 0.0 ==> y == pageYOffset
    ensures pageYOffset == 0.0 ==> y == scrollTop
  {
    if pageYOffset != 0.0 then pageYOffset
    else if scrollTop != 0.0 then scrollTop
    else 0.0
  }

  /** The largest scroll offset the page allows. */
  function MaxScrollY(scrollHeight: real, innerHeight: real): (m: real)
    ensures m >= 0.0 && m >= scrollHeight - innerHeight
    ensures m == 0.0 || m == scrollHeight - innerHeight
  {
    RMax(0.0, scrollHeight - innerHeight)
  }

  /** `Math.min(maxY, Math.max(0, targetY))`. */
  function ClampTarget(targetY: real, maxY: real): (r: real)
    requires maxY >= 0.0
    ensures 0.0 <= r <= maxY
    ensures 0.0 <= targetY <= maxY ==> r == targetY
    ensures targetY < 0.0 ==> r == 0.0
    ensures targetY > maxY ==> r == maxY
  {
    RMin(maxY, RMax(0.0, targetY))
  }

  /** The animation length actually used: the requested one pulled into
      [300, 1800] ms. */
  function AnimationDuration(duration: Num): (d: Num)
    ensures duration.NaN? <==> d.NaN?
    ensures !duration.NaN? ==> InRange(d, SCROLL_DURATION_MIN_MS, SCROLL_DURATION_MAX_MS)
    ensures InRange(duration, SCROLL_DURATION_MIN_MS, SCROLL_DURATION_MAX_MS) ==> d == duration
  {
    Max(Fin(SCROLL_DURATION_MIN_MS), Min(duration, Fin(SCROLL_DURATION_MAX_MS)))
  }

  datatype ScrollPlan =
    | Jump(y: real)                                    // `window.scrollTo` at once
    | Animate(fromY: real, toY: real, durationMs: Num) // eased frames from `fromY` to `toY`

  /** `smoothScrollTo`: the plan it follows for a requested target. */
  function SmoothScrollTo(startY: real, targetY: real, duration: Num,
                          scrollHeight: real, innerHeight: real, reducedMotion: bool): (p: ScrollPlan)
    ensures var t := ClampTarget(targetY, MaxScrollY(scrollHeight, innerHeight));
      && (p.Jump? <==> RAbs(t - startY) < 1.0 || reducedMotion)
      && (p.Jump? ==> p.y == t)
      && (p.Animate? ==> p.fromY == startY && p.toY == t && p.durationMs == AnimationDuration(duration))
  {
    var clamped := ClampTarget(targetY, MaxScrollY(scrollHeight, innerHeight));
    var distance := clamped - startY;
    if RAbs(distance) < 1.0 then Jump(clamped)
    else if reducedMotion then Jump(clamped)
    else Animate(startY, clamped, AnimationDuration(duration))
  }

  /** Wherever a plan ends, it is inside the scrollable range. */
  lemma {:induction false} PlanStaysInRange(startY: real, targetY: real, duration: Num,
                         scrollHeight: real, innerHeight: real, reducedMotion: bool)
    ensures var p := SmoothScrollTo(startY, targetY, duration, scrollHeight, innerHeight, reducedMotion);
      var end := if p.Jump? then p.y else p.toY;
      0.0 <= end <= MaxScrollY(scrollHeight, innerHeight)
  {
  }

  /** The distance-proportional part of an anchor scroll's duration. */
  function DistanceTerm(dist: real): (t: real)
    requires dist >= 0.0
    ensures 0.0 <= t <= ANCHOR_SCROLL_DIST_CAP_MS
    ensures dist * ANCHOR_SCROLL_PX_FACTOR <= ANCHOR_SCROLL_DIST_CAP_MS ==> t == dist * ANCHOR_SCROLL_PX_FACTOR
  {
    RMin(ANCHOR_SCROLL_DIST_CAP_MS, dist * ANCHOR_SCROLL_PX_FACTOR)
  }

  /** The duration `onAnchorClick` asks for: the themed base plus the
      capped distance term, pulled into [1500, 4000] ms. A NaN base (a CSS
      value such as "fastms") makes the whole duration NaN. */
  function AnchorDuration(base: Num, dist: real): (d: Num)
    requires dist >= 0.0
    ensures base.NaN? <==> d.NaN?
    ensures !base.NaN? ==> InRange(d, ANCHOR_SCROLL_MIN_MS, ANCHOR_SCROLL_MAX_MS)
    ensures base.Fin? && InRange(Fin(base.r + DistanceTerm(dist)), ANCHOR_SCROLL_MIN_MS, ANCHOR_SCROLL_MAX_MS)
            ==> d == Fin(base.r + DistanceTerm(dist))
  {
    Max(Fin(ANCHOR_SCROLL_MIN_MS),
        Min(Fin(ANCHOR_SCROLL_MAX_MS), Add(base, Fin(DistanceTerm(dist)))))
  }

  /** A longer distance never shortens the anchor scroll. */
  lemma {:induction false} AnchorDurationMonotone(base: Num, d1: real, d2: real)
    requires 0.0 <= d1 <= d2 && !base.NaN?
    ensures Le(AnchorDuration(base, d1), AnchorDuration(base, d2))
  {
  }

  /** With the default base of 2500 ms the anchor scroll lasts 2.5 to 3.5
      seconds; beyond 2000/3 px the distance no longer matters. */
  lemma {:induction false} DefaultAnchorDuration(dist: real)
    requires dist >= 0.0
    ensures InRange(AnchorDuration(Fin(ANCHOR_SCROLL_BASE_MS), dist), 2500.0, 3500.0)
    ensures dist >= 2000.0 / 3.0 ==> AnchorDuration(Fin(ANCHOR_SCROLL_BASE_MS), dist) == Fin(3500.0)
  {
  }

  datatype AnchorScroll = AnchorScroll(id: string, targetY: real, durationMs: Num)

  /** `onAnchorClick` for a link with attribute `href` (empty when absent).
      `elementTop` is the viewport top of the element whose id is the
      fragment, `None` when there is no such element. */
  function OnAnchorClick(href: string, elementTop: Option<real>, pageYOffset: real,
                         scrollTop: real, headerOffset: real, base: Num): (r: Option<AnchorScroll>)
    ensures r.Some? <==> href != "#" && StartsWith(href, "#") && elementTop.Some?
    ensures r.Some? ==>
      && r.value.id == href[1..]
      && r.value.targetY == CurrentScrollY(pageYOffset, scrollTop) + elementTop.value - headerOffset
      && r.value.durationMs == AnchorDuration(base, RAbs(pageYOffset - r.value.targetY))
  {
    if href == "#" || !StartsWith(href, "#") then None
    else match elementTop
      case None => None
      case Some(top) =>
        var targetY := CurrentScrollY(pageYOffset, scrollTop) + top - headerOffset;
        Some(AnchorScroll(href[1..], targetY, AnchorDuration(base, RAbs(pageYOffset - targetY))))
  }
}
