/**
 * The portfolio slideshow: a 1-based `slideIndex`, moved on by the auto-play
 * timer through `changeSlide(1)`, and the `active` class on each
 * `.portfolio-slide` and each `.dot`.
 */
module Slideshow {

  /** The index `showSlides(n)` settles on when there are `count` slides:
      past the end restarts at 1, before the start jumps to the last slide. */
  function Wrapped(n: int, count: nat): (r: int)
    requires count > 0
    ensures 1 <= r <= count
    ensures 1 <= n <= count ==> r == n
  {
    if n > count then 1 else if n < 1 then count else n
  }

  /** `count` flags of which only the one at position `k` is set
      (none, when `k` is out of range). */
  function OneHot(count: nat, k: int): seq<bool>
  {
    seq(count, i => i == k)
  }

  /** `count` flags, all cleared. */
  function Cleared(count: nat): seq<bool>
  {
    seq(count, i => false)
  }

  /** How many of the flags are set. */
  function CountActive(s: seq<bool>): nat
  {
    if s == [] then 0 else (if s[0] then 1 else 0) + CountActive(s[1..])
  }

  lemma {:induction false} OneHotCount(count: nat, k: int)
    ensures CountActive(OneHot(count, k)) == if 0 <= k < count then 1 else 0
  {
    if count > 0 {
      assert OneHot(count, k)[1..] == OneHot(count - 1, k - 1);
      OneHotCount(count - 1, k - 1);
    }
  }

  /** Exactly one slide (and one dot) is active, and it is the one at `k`. */
  lemma ExactlyOneActive(count: nat, k: int)
    requires 0 <= k < count
    ensures CountActive(OneHot(count, k)) == 1
    ensures OneHot(count, k)[k]
    ensures forall i :: 0 <= i < count && i != k ==> !OneHot(count, k)[i]
  {
    OneHotCount(count, k);
  }

  lemma {:induction false} ClearedCount(count: nat)
    ensures CountActive(Cleared(count)) == 0
  {
    if count > 0 {
      assert Cleared(count)[1..] == Cleared(count - 1);
      ClearedCount(count - 1);
    }
  }

  /** `changeSlide(1)` on the last slide shows the first one. */
  lemma NextFromLastIsFirst(count: nat)
    requires count > 0
    ensures Wrapped(count + 1, count) == 1
  {
  }

  /** `changeSlide(-1)` on the first slide shows the last one. */
  lemma PreviousFromFirstIsLast(count: nat)
    requires count > 0
    ensures Wrapped(1 - 1, count) == count
  {
  }

  /** A jump past either end is not taken modulo the slide count:
      it lands on the first or the last slide whatever its size. */
  lemma OutOfRangeIsNotModular(count: nat, n: int)
    requires count > 0
    ensures n > count ==> Wrapped(n, count) == 1
    ensures n < 1 ==> Wrapped(n, count) == count
    ensures count >= 2 ==> Wrapped(count + 2, count) != (count + 2 - 1) % count + 1
  {
  }

  /** A single step forward or back from a shown slide is modular. */
  lemma {:induction false} SingleStepIsModular(i: int, count: nat, d: int)
    requires 1 <= i <= count
    requires d == 1 || d == -1
    ensures Wrapped(i + d, count) == (i - 1 + d) % count + 1
  {
    var m := i - 1 + d;
    if m == count {
      ModUnique(m, count, 1, 0);
    } else if m == -1 {
      ModUnique(m, count, -1, count - 1);
    } else {
      ModUnique(m, count, 0, m);
    }
  }

  /** The index after `k` ticks of the auto-play timer, each of which
      calls `changeSlide(1)`. */
  function Advance(i: int, k: nat, count: nat): (r: int)
    requires count > 0
    requires 1 <= i <= count
    ensures 1 <= r <= count
    decreases k
  {
    if k == 0 then i else Advance(Wrapped(i + 1, count), k - 1, count)
  }

  /** The auto-play timer visits the slides cyclically, in order. */
  lemma {:induction false} AdvanceIsCyclic(i: int, k: nat, count: nat)
    requires count > 0
    requires 1 <= i <= count
    ensures Advance(i, k, count) == (i - 1 + k) % count + 1
    decreases k
  {
    if k == 0 {
      ModUnique(i - 1, count, 0, i - 1);
    } else {
      var j := Wrapped(i + 1, count);
      var m := i % count;
      NextIsModular(i, count);
      assert j == m + 1;
      AdvanceIsCyclic(j, k - 1, count);
      assert Advance(i, k, count) == (m + (k - 1)) % count + 1;
      AddMod(i, k - 1, count);
      assert (m + (k - 1)) % count == (i + (k - 1)) % count;
      assert i + (k - 1) == i - 1 + k;
    }
  }

  /** The auto-play timer on a page with `dotCount` dots. A slide without a
      dot makes `showSlides` throw before `startAutoSlide` is reached, so
      once such a slide is shown no further tick comes until something calls
      `startAutoSlide` again. */
  function AutoPlay(i: int, k: nat, count: nat, dotCount: nat): (r: int)
    requires count > 0
    requires 1 <= i <= count
    ensures 1 <= r <= count
    decreases k
  {
    if k == 0 || i > dotCount then i else AutoPlay(Wrapped(i + 1, count), k - 1, count, dotCount)
  }

  /** With at least as many dots as slides every tick succeeds, and the
      timer advances as `Advance` says. */
  lemma {:induction false} AutoPlayWithEveryDot(i: int, k: nat, count: nat, dotCount: nat)
    requires count > 0
    requires 1 <= i <= count <= dotCount
    ensures AutoPlay(i, k, count, dotCount) == Advance(i, k, count)
    decreases k
  {
    if k > 0 {
      AutoPlayWithEveryDot(Wrapped(i + 1, count), k - 1, count, dotCount);
    }
  }

  /** With fewer dots than slides, auto-play never gets past the first
      slide without a dot. */
  lemma {:induction false} AutoPlayStopsAtMissingDot(i: int, k: nat, count: nat, dotCount: nat)
    requires count > 0
    requires 1 <= i <= dotCount + 1 && dotCount < count
    ensures AutoPlay(i, k, count, dotCount) <= dotCount + 1
    ensures k >= dotCount + 1 - i ==> AutoPlay(i, k, count, dotCount) == dotCount + 1
    decreases k
  {
    if k > 0 && i <= dotCount {
      AutoPlayStopsAtMissingDot(Wrapped(i + 1, count), k - 1, count, dotCount);
    }
  }

  /** One tick from a shown slide moves to the next one modulo the count. */
  lemma NextIsModular(i: int, count: nat)
    requires 1 <= i <= count
    ensures Wrapped(i + 1, count) == i % count + 1
  {
    SingleStepIsModular(i, count, 1);
    assert i - 1 + 1 == i;
  }

  lemma AddMod(a: int, b: int, count: nat)
    requires count > 0
    ensures (a % count + b) % count == (a + b) % count
  {
    var q := a / count;
    var r := (a % count + b) % count;
    var p := (a % count + b) / count;
    assert a % count + b == p * count + r;
    assert a + b == (q + p) * count + r;
    ModUnique(a + b, count, q + p, r);
  }

  /** Euclidean remainders are unique. */
  lemma ModUnique(y: int, count: int, q: int, r: int)
    requires count > 0
    requires y == q * count + r && 0 <= r < count
    ensures y % count == r
  {
    var d := y / count;
    var e := q - d;
    assert e * count == y % count - r;
    MulBound(e, count);
  }

  lemma MulBound(e: int, count: int)
    requires count > 0
    ensures e >= 1 ==> e * count >= count
    ensures e <= -1 ==> e * count <= -count
  {
  }

  class Slideshow {
    /** The global `slideIndex`, 1-based; it starts at 1. */
    var slideIndex: int
    /** The `active` class of each `.portfolio-slide`, in document order. */
    const slides: array<bool>
    /** The `active` class of each `.dot`, in document order. */
    const dots: array<bool>

    ghost predicate Valid()
    {
      slides != dots
    }

    /** What `showSlides` leaves on the page once `slideIndex` is settled:
        the slide at `slideIndex - 1` is the only active one, and so is the
        dot at that position when there is one. When there is no such dot,
        `dots[slideIndex - 1]` is undefined, the call throws after every dot
        was cleared, and `ok` is false. */
    ghost predicate Displays(ok: bool)
      reads this, slides, dots
    {
      slides[..] == OneHot(slides.Length, slideIndex - 1) &&
      ok == (slideIndex <= dots.Length) &&
      dots[..] == if ok then OneHot(dots.Length, slideIndex - 1) else Cleared(dots.Length)
    }

    constructor (slides: array<bool>, dots: array<bool>)
      requires slides != dots
      ensures Valid()
      ensures this.slides == slides && this.dots == dots
      ensures slideIndex == 1
    {
      this.slides := slides;
      this.dots := dots;
      slideIndex := 1;
    }

    /** `showSlides(n)`. Every caller passes the value it has just given
        `slideIndex`, so `n == slideIndex` on entry. */
    method ShowSlides(n: int) returns (ok: bool)
      requires Valid() && n == slideIndex
      modifies this`slideIndex, slides, dots
      ensures slides.Length == 0 ==>
        ok && slideIndex == n && unchanged(slides, dots)
      ensures slides.Length > 0 ==>
        slideIndex == Wrapped(n, slides.Length) && Displays(ok)
    {
      if slides.Length == 0 {
        return true;
      }
      if n > slides.Length {
        slideIndex := 1;
      }
      if n < 1 {
        slideIndex := slides.Length;
      }
      var i := 0;
      while i < slides.Length
        modifies slides
        invariant 0 <= i <= slides.Length
        invariant forall k :: 0 <= k < i ==> !slides[k]
      {
        slides[i] := false;
        i := i + 1;
      }
      i := 0;
      while i < dots.Length
        modifies dots
        invariant 0 <= i <= dots.Length
        invariant forall k :: 0 <= k < i ==> !dots[k]
        invariant forall k :: 0 <= k < slides.Length ==> !slides[k]
      {
        dots[i] := false;
        i := i + 1;
      }
      slides[slideIndex - 1] := true;
      assert slides[..] == OneHot(slides.Length, slideIndex - 1);
      if slideIndex > dots.Length {
        assert dots[..] == Cleared(dots.Length);
        return false;
      }
      dots[slideIndex - 1] := true;
      assert dots[..] == OneHot(dots.Length, slideIndex - 1);
      ok := true;
    }

    /** `initSlideshow`: show the slide `slideIndex` starts at. */
    method Init() returns (ok: bool)
      requires Valid()
      modifies this`slideIndex, slides, dots
      ensures slides.Length == 0 ==>
        ok && slideIndex == old(slideIndex) && unchanged(slides, dots)
      ensures slides.Length > 0 ==>
        slideIndex == Wrapped(old(slideIndex), slides.Length) && Displays(ok)
    {
      ok := ShowSlides(slideIndex);
    }

    /** `changeSlide(n)`, which the auto-play timer calls with `n == 1`. The
        index is shifted before `showSlides` looks at the slides, so with no
        slides it still drifts by `n`. When `ok` is false the call has
        thrown inside `showSlides`, before `startAutoSlide`. */
    method ChangeSlide(n: int) returns (ok: bool)
      requires Valid()
      modifies this`slideIndex, slides, dots
      ensures slides.Length == 0 ==>
        ok && slideIndex == old(slideIndex) + n && unchanged(slides, dots)
      ensures slides.Length > 0 ==>
        slideIndex == Wrapped(old(slideIndex) + n, slides.Length) && Displays(ok)
    {
      slideIndex := slideIndex + n;
      ok := ShowSlides(slideIndex);
    }

    /** `currentSlide(n)`: slide `n` is shown directly. */
    method CurrentSlide(n: int) returns (ok: bool)
      requires Valid()
      modifies this`slideIndex, slides, dots
      ensures slides.Length == 0 ==>
        ok && slideIndex == n && unchanged(slides, dots)
      ensures slides.Length > 0 ==>
        slideIndex == Wrapped(n, slides.Length) && Displays(ok)
    {
      slideIndex := n;
      ok := ShowSlides(n);
    }
  }

  /** After `showSlides` has run on a page with at least as many dots as
      slides, it has succeeded, and exactly one slide and exactly one dot
      are active: the pair at `slideIndex - 1`. */
  lemma DisplayedPairIsUnique(show: Slideshow, ok: bool)
    requires show.Displays(ok)
    requires 1 <= show.slideIndex <= show.slides.Length <= show.dots.Length
    ensures ok
    ensures CountActive(show.slides[..]) == 1 && show.slides[show.slideIndex - 1]
    ensures CountActive(show.dots[..]) == 1 && show.dots[show.slideIndex - 1]
  {
    ExactlyOneActive(show.slides.Length, show.slideIndex - 1);
    ExactlyOneActive(show.dots.Length, show.slideIndex - 1);
  }
}
