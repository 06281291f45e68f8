/**
 * The one-shot entrance animations driven by scroll: `animateStats`,
 * `animateFeatures`, `animateList` and `animateIndustryStats`. Each keeps a
 * page-global flag (`statsAnimated`, `featuresAnimated`, `listAnimated`,
 * `industryStatsAnimated`) that is set the first time its element is seen in
 * the viewport, and that makes every later call return at once.
 */
module AnimationLatch {
  import opened Wrappers

  /** The bounding box of the watched element, relative to the viewport. */
  datatype Rect = Rect(top: int, bottom: int)

  /** How far inside the viewport the element must come: `animateStats`
      uses the viewport's bottom edge, the three others 100 pixels above
      it. */
  const StatsMargin: int := 0
  const FeaturesMargin: int := 100
  const ListMargin: int := 100
  const IndustryStatsMargin: int := 100

  /** The visibility test: `rect.top < innerHeight - margin && rect.bottom >= 0`. */
  predicate Visible(r: Rect, innerHeight: int, margin: int)
  {
    r.top < innerHeight - margin && r.bottom >= 0
  }

  /** One call of the handler: the element (absent when the page has none)
      and the viewport height at that moment. */
  datatype Check = Check(target: Option<Rect>, innerHeight: int)

  /** The flag and how many times the animation has been started. */
  datatype Latch = Latch(animated: bool, starts: nat)

  /** One call of the handler: return at once when the flag is set or the
      element is missing, otherwise set the flag and start the animation
      exactly when the element is visible. */
  function Step(l: Latch, c: Check, margin: int): (r: Latch)
    ensures l.animated ==> r == l
    ensures r.animated == (l.animated || (c.target.Some? && Visible(c.target.value, c.innerHeight, margin)))
    ensures r.starts == l.starts + (if r.animated && !l.animated then 1 else 0)
  {
    if l.animated then l
    else match c.target
      case None => l
      case Some(rect) =>
        if Visible(rect, c.innerHeight, margin) then Latch(true, l.starts + 1) else l
  }

  /** The handler called once per check, in order. */
  function Run(l: Latch, cs: seq<Check>, margin: int): Latch
    decreases |cs|
  {
    if cs == [] then l else Run(Step(l, cs[0], margin), cs[1..], margin)
  }

  /** Whether check `c` would find its element visible. */
  predicate Sees(c: Check, margin: int)
  {
    c.target.Some? && Visible(c.target.value, c.innerHeight, margin)
  }

  /** Whatever the scrolling, from the page as it loads the animation starts
      at most once, and it has started exactly when some check saw the
      element in view; the flag is set exactly then. */
  lemma {:induction false} AnimatesAtMostOnce(l: Latch, cs: seq<Check>, margin: int)
    requires l.starts == (if l.animated then 1 else 0)
    ensures Run(l, cs, margin).starts == (if Run(l, cs, margin).animated then 1 else 0)
    ensures Run(l, cs, margin).animated <==>
      l.animated || exists i :: 0 <= i < |cs| && Sees(cs[i], margin)
    decreases |cs|
  {
    if cs != [] {
      var l' := Step(l, cs[0], margin);
      AnimatesAtMostOnce(l', cs[1..], margin);
      if exists i :: 0 <= i < |cs| && Sees(cs[i], margin) {
        var i :| 0 <= i < |cs| && Sees(cs[i], margin);
        if i > 0 {
          assert Sees(cs[1..][i - 1], margin);
        }
      }
      if exists i :: 0 <= i < |cs[1..]| && Sees(cs[1..][i], margin) {
        var i :| 0 <= i < |cs[1..]| && Sees(cs[1..][i], margin);
        assert Sees(cs[i + 1], margin);
      }
    }
  }

  /** Once the flag is set, no later check changes anything. */
  lemma {:induction false} LatchedIsFinal(l: Latch, cs: seq<Check>, margin: int)
    requires l.animated
    ensures Run(l, cs, margin) == l
    decreases |cs|
  {
    if cs != [] {
      LatchedIsFinal(Step(l, cs[0], margin), cs[1..], margin);
    }
  }

  /** The element must be strictly above the viewport's bottom (less the
      margin) and not entirely above its top; a larger margin only makes the
      test harder to pass. */
  lemma VisibilityBounds(r: Rect, innerHeight: int, margin: int, wider: int)
    requires margin <= wider
    ensures Visible(r, innerHeight, wider) ==> Visible(r, innerHeight, margin)
    ensures r.bottom < 0 ==> !Visible(r, innerHeight, margin)
    ensures r.top >= innerHeight - margin ==> !Visible(r, innerHeight, margin)
  {
  }

  /** The four handlers' margins: at the same position and viewport
      height, an element the 100-pixel test accepts is also accepted by
      `animateStats`, and one entirely above the viewport is accepted by
      none. */
  lemma MarginsCompared(r: Rect, innerHeight: int)
    ensures FeaturesMargin == ListMargin == IndustryStatsMargin
    ensures Visible(r, innerHeight, FeaturesMargin) ==> Visible(r, innerHeight, StatsMargin)
    ensures r.bottom < 0 ==> !Visible(r, innerHeight, StatsMargin) && !Visible(r, innerHeight, FeaturesMargin)
  {
    VisibilityBounds(r, innerHeight, StatsMargin, FeaturesMargin);
  }

  /** A page-global `…Animated` flag together with its handler. */
  class OneShotAnimation {
    var animated: bool
    /** How many times the handler has started the animation. */
    var starts: nat
    /** The margin of this handler's visibility test. */
    const margin: int

    function State(): Latch
      reads this
    {
      Latch(animated, starts)
    }

    /** The flag as declared, before the call on load. */
    constructor (margin: int)
      ensures State() == Latch(false, 0) && this.margin == margin
    {
      animated := false;
      starts := 0;
      this.margin := margin;
    }

    /** The handler: run on load and on every scroll. */
    method OnScroll(target: Option<Rect>, innerHeight: int)
      modifies this
      ensures State() == Step(old(State()), Check(target, innerHeight), margin)
    {
      if animated {
        return;
      }
      if target.None? {
        return;
      }
      var rect := target.value;
      var isVisible := rect.top < innerHeight - margin && rect.bottom >= 0;
      if isVisible {
        animated := true;
        starts := starts + 1;
      }
    }
  }
}
