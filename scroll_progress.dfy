/** The animation parameters the product-overview `onUpdate` callback derives from the scroll
    `progress` of the pinned section. All values are exact reals. */
module ScrollProgress {
  import opened Wrappers

  function Min(a: real, b: real): real { if a <= b then a else b }
  function Max(a: real, b: real): real { if a >= b then a else b }

  /** `headerProgress`: the progress through [0.05, 0.35], rescaled to [0, 1] and clamped. */
  function HeaderProgress(p: real): (h: real)
    ensures 0.0 <= h <= 1.0
    ensures p <= 0.05 ==> h == 0.0
    ensures p >= 0.35 ==> h == 1.0
    ensures 0.05 <= p <= 0.35 ==> 0.3 * h == p - 0.05
  {
    Max(0.0, Min(1.0, (p - 0.05) / 0.3))
  }

  /** `xPercent` of the first header: slides from 0 to -100 while the progress crosses [0.05, 0.35]. */
  function Header1XPercent(p: real): (x: real)
    ensures -100.0 <= x <= 0.0
    ensures p <= 0.05 ==> x == 0.0
    ensures p >= 0.35 ==> x == -100.0
  {
    if p < 0.05 then 0.0 else if p > 0.35 then -100.0 else -100.0 * HeaderProgress(p)
  }

  /** The radius (in percent) of the circular mask: opens from 0 to 100 over [0.2, 0.3]. */
  function MaskSize(p: real): (m: real)
    ensures 0.0 <= m <= 100.0
    ensures p <= 0.2 ==> m == 0.0
    ensures p >= 0.3 ==> m == 100.0
  {
    if p < 0.2 then 0.0 else if p > 0.3 then 100.0 else 100.0 * ((p - 0.2) / 0.1)
  }

  /** `xPercent` of the second header: slides from 100 to -200 over [0.15, 0.5]. */
  function Header2XPercent(p: real): (x: real)
    ensures -200.0 <= x <= 100.0
    ensures p <= 0.15 ==> x == 100.0
    ensures p >= 0.5 ==> x == -200.0
  {
    var header2Progress := (p - 0.15) / 0.35;
    if p < 0.15 then 100.0 else if p > 0.5 then -200.0 else 100.0 - 300.0 * header2Progress
  }

  /** `scaleX` of the tooltip dividers, in percent: grows from 0 to 100 over [0.45, 0.65]. */
  function ScaleX(p: real): (s: real)
    ensures 0.0 <= s <= 100.0
    ensures p <= 0.45 ==> s == 0.0
    ensures p >= 0.65 ==> s == 100.0
  {
    if p < 0.45 then 0.0 else if p > 0.65 then 100.0 else 100.0 * ((p - 0.45) / 0.2)
  }

  /** The scale actually handed to the tween: `scaleX / 100`. */
  function DividerScale(p: real): (s: real)
    ensures 0.0 <= s <= 1.0
    ensures 100.0 * s == ScaleX(p)
  {
    ScaleX(p) / 100.0
  }

  /** The tween of the model container: shown from progress 0.5 on, hidden before. */
  datatype ContainerTween = ContainerTween(opacity: real, visibility: string, duration: real)

  function ContainerTweenAt(containerPresent: bool, p: real): (t: Option<ContainerTween>)
    ensures t.Some? <==> containerPresent
    ensures t.Some? ==> (t.value.visibility == "visible" <==> p >= 0.5)
                        && (t.value.opacity == 1.0 <==> p >= 0.5)
                        && (t.value.visibility == "hidden" <==> p < 0.5)
                        && (t.value.opacity == 0.0 <==> p < 0.5)
  {
    if !containerPresent then None
    else if p >= 0.5 then Some(ContainerTween(1.0, "visible", 0.5))
    else Some(ContainerTween(0.0, "hidden", 0.3))
  }

  /** The progress values at which the two tooltips come in. */
  const TooltipTriggers: seq<real> := [0.65, 0.85]

  /** The `y` offset of a tooltip's parts: in place (`"0%"`) once the progress reaches its trigger. */
  function TooltipY(p: real, trigger: real): (y: string)
    ensures y == "0%" <==> p >= trigger
    ensures y == "125%" <==> p < trigger
  {
    if p >= trigger then "0%" else "125%"
  }

  function TooltipOffsets(p: real): (ys: seq<string>)
    ensures |ys| == |TooltipTriggers|
    ensures forall i :: 0 <= i < |ys| ==> (ys[i] == "0%" <==> p >= TooltipTriggers[i])
  {
    seq(|TooltipTriggers|, i requires 0 <= i < |TooltipTriggers| => TooltipY(p, TooltipTriggers[i]))
  }

  /** Everything one call of the callback hands to the animation engine, apart from the rotation. */
  datatype Frame = Frame(
    header1X: real, maskSize: real, header2X: real,
    container: Option<ContainerTween>, dividerScale: real, tooltipY: seq<string>)

  function FrameAt(containerPresent: bool, p: real): (f: Frame)
    ensures -100.0 <= f.header1X <= 0.0 && 0.0 <= f.maskSize <= 100.0
    ensures -200.0 <= f.header2X <= 100.0 && 0.0 <= f.dividerScale <= 1.0
    ensures (f.container.Some? <==> containerPresent) && |f.tooltipY| == |TooltipTriggers|
  {
    Frame(Header1XPercent(p), MaskSize(p), Header2XPercent(p),
          ContainerTweenAt(containerPresent, p), DividerScale(p), TooltipOffsets(p))
  }

  // ---------------------------------------------------------------------------
  // The mappings are monotone, so each element moves one way as the page scrolls down.

  lemma Header1Monotone(p: real, q: real)
    requires p <= q
    ensures Header1XPercent(q) <= Header1XPercent(p)
  {
  }

  lemma MaskMonotone(p: real, q: real)
    requires p <= q
    ensures MaskSize(p) <= MaskSize(q)
  {
  }

  lemma Header2Monotone(p: real, q: real)
    requires p <= q
    ensures Header2XPercent(q) <= Header2XPercent(p)
  {
  }

  lemma ScaleXMonotone(p: real, q: real)
    requires p <= q
    ensures ScaleX(p) <= ScaleX(q)
  {
  }

  // ---------------------------------------------------------------------------
  // The order in which the elements of the section play out.

  /** The model appears only once the second header has slid fully out. */
  lemma ModelShownAfterHeader2(containerPresent: bool, p: real)
    requires containerPresent && ContainerTweenAt(containerPresent, p).value.visibility == "visible"
    ensures Header2XPercent(p) == -200.0
  {
  }

  /** A tooltip comes in only once the dividers are fully drawn. */
  lemma TooltipsAfterDividers(p: real, i: nat)
    requires i < |TooltipTriggers| && TooltipOffsets(p)[i] == "0%"
    ensures ScaleX(p) == 100.0
  {
  }

  /** The second tooltip comes in only after the first. */
  lemma TooltipsInOrder(p: real)
    requires TooltipOffsets(p)[1] == "0%"
    ensures TooltipOffsets(p)[0] == "0%"
  {
  }
}
