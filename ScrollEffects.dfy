/**
 * What the window's scroll listeners do with `pageYOffset`: the header's
 * `scrolled` class, the back-to-top button's opacity, and the `active` class
 * on the navigation link of the section being read.
 */
module ScrollEffects {
  import opened Wrappers

  /** The offset past which the header carries `scrolled`. */
  const HeaderThreshold: int := 50

  /** The offset past which the back-to-top button is fully opaque. */
  const BackToTopThreshold: int := 500

  /** How far above a section's top its link already counts as current. */
  const SectionLead: int := 150

  /** Whether the header carries `scrolled` after a scroll to `pageYOffset`. */
  function HeaderScrolled(pageYOffset: int): bool
  {
    pageYOffset > HeaderThreshold
  }

  /** The back-to-top button's `opacity` after a scroll to `pageYOffset`. */
  function BackToTopOpacity(pageYOffset: int): string
  {
    if pageYOffset > BackToTopThreshold then "1" else "0.7"
  }

  /** The header class is set exactly past the threshold, so scrolling back
      above it removes it again, and it only grows with the offset. */
  lemma HeaderFollowsOffset(before: int, after: int)
    ensures HeaderScrolled(after) <==> after > 50
    ensures before > 50 >= after ==> HeaderScrolled(before) && !HeaderScrolled(after)
    ensures before <= after && HeaderScrolled(before) ==> HeaderScrolled(after)
  {
  }

  /** The back-to-top button is opaque exactly past its threshold and
      dimmed to 0.7 otherwise; the header is always scrolled by then. */
  lemma BackToTopFollowsOffset(pageYOffset: int)
    ensures BackToTopOpacity(pageYOffset) == "1" <==> pageYOffset > 500
    ensures BackToTopOpacity(pageYOffset) != "1" ==> BackToTopOpacity(pageYOffset) == "0.7"
    ensures BackToTopOpacity(pageYOffset) == "1" ==> HeaderScrolled(pageYOffset)
  {
  }

  /** A `section[id]` with its layout box. */
  datatype Section = Section(id: string, offsetTop: int, offsetHeight: int)

  /** A `.nav-link`: its `href` and its `active` class. */
  datatype NavLink = NavLink(href: string, active: bool)

  /** Whether the reader is in `s`: past its top less the lead, and not past
      its bottom less the lead. */
  predicate InSection(s: Section, scrollY: int)
  {
    var top := s.offsetTop - SectionLead;
    scrollY > top && scrollY <= top + s.offsetHeight
  }

  /** The first link, in document order, whose `href` is `href`: what
      `querySelector('.nav-menu a[href="…"]')` finds. */
  function FirstLink(links: seq<NavLink>, href: string): (r: Option<nat>)
    ensures r.Some? ==> r.value < |links| && links[r.value].href == href &&
                        forall j :: 0 <= j < r.value ==> links[j].href != href
    ensures r.None? ==> forall j :: 0 <= j < |links| ==> links[j].href != href
  {
    if links == [] then None
    else if links[0].href == href then Some(0)
    else match FirstLink(links[1..], href)
      case None => None
      case Some(k) => Some(k + 1)
  }

  /** Every link with its `active` class removed. */
  function ClearAll(links: seq<NavLink>): seq<NavLink>
  {
    seq(|links|, i requires 0 <= i < |links| => links[i].(active := false))
  }

  /** The link at `k`, if any, with `active` added. */
  function Mark(links: seq<NavLink>, k: Option<nat>): seq<NavLink>
  {
    if k.Some? && k.value < |links| then links[k.value := links[k.value].(active := true)]
    else links
  }

  /** One round of the `sections.forEach` body. */
  function VisitSection(links: seq<NavLink>, s: Section, scrollY: int): seq<NavLink>
  {
    if InSection(s, scrollY) then Mark(ClearAll(links), FirstLink(links, "#" + s.id))
    else links
  }

  /** The links once `highlightNavigation` has visited `sections` in order:
      the same links with the same targets; only `active` classes differ. */
  function Highlighted(links: seq<NavLink>, sections: seq<Section>, scrollY: int): (r: seq<NavLink>)
    ensures |r| == |links|
    ensures forall i :: 0 <= i < |links| ==> r[i].href == links[i].href
    decreases |sections|
  {
    if sections == [] then links
    else VisitSection(Highlighted(links, sections[..|sections| - 1], scrollY),
                      sections[|sections| - 1], scrollY)
  }

  /** The last section, in document order, that the reader is in. */
  function LastSectionIn(sections: seq<Section>, scrollY: int): (r: Option<nat>)
    ensures r.Some? ==> r.value < |sections| && InSection(sections[r.value], scrollY) &&
                        forall j :: r.value < j < |sections| ==> !InSection(sections[j], scrollY)
    ensures r.None? ==> forall j :: 0 <= j < |sections| ==> !InSection(sections[j], scrollY)
    decreases |sections|
  {
    if sections == [] then None
    else if InSection(sections[|sections| - 1], scrollY) then Some(|sections| - 1)
    else LastSectionIn(sections[..|sections| - 1], scrollY)
  }

  lemma {:induction false} FirstLinkByHref(a: seq<NavLink>, b: seq<NavLink>, href: string)
    requires |a| == |b|
    requires forall i :: 0 <= i < |a| ==> a[i].href == b[i].href
    ensures FirstLink(a, href) == FirstLink(b, href)
  {
    if a != [] && a[0].href != href {
      FirstLinkByHref(a[1..], b[1..], href);
    }
  }

  /** When the reader is in no section, the links keep their classes; when
      they are, the only active link is the first one pointing at the last
      such section (none, when no link points at it). */
  lemma {:induction false} HighlightMarksCurrentSection(links: seq<NavLink>, sections: seq<Section>, scrollY: int)
    ensures LastSectionIn(sections, scrollY).None? ==> Highlighted(links, sections, scrollY) == links
    ensures LastSectionIn(sections, scrollY).Some? ==>
      var target := FirstLink(links, "#" + sections[LastSectionIn(sections, scrollY).value].id);
      forall i :: 0 <= i < |links| ==>
        (Highlighted(links, sections, scrollY)[i].active <==> target == Some(i))
    decreases |sections|
  {
    if sections != [] {
      var init := sections[..|sections| - 1];
      var last := sections[|sections| - 1];
      var before := Highlighted(links, init, scrollY);
      if InSection(last, scrollY) {
        var k := FirstLink(before, "#" + last.id);
        assert Highlighted(links, sections, scrollY) == Mark(ClearAll(before), k);
        assert LastSectionIn(sections, scrollY) == Some(|sections| - 1);
        FirstLinkByHref(before, links, "#" + last.id);
        MarkOnlyOne(before, k);
      } else {
        assert Highlighted(links, sections, scrollY) == before;
        assert LastSectionIn(sections, scrollY) == LastSectionIn(init, scrollY);
        HighlightMarksCurrentSection(links, init, scrollY);
        if LastSectionIn(init, scrollY).Some? {
          assert sections[LastSectionIn(init, scrollY).value] == init[LastSectionIn(init, scrollY).value];
        }
      }
    }
  }

  /** Clearing every link and marking one leaves exactly that one active. */
  lemma MarkOnlyOne(links: seq<NavLink>, k: Option<nat>)
    requires k.Some? ==> k.value < |links|
    ensures |Mark(ClearAll(links), k)| == |links|
    ensures forall i :: 0 <= i < |links| ==> (Mark(ClearAll(links), k)[i].active <==> k == Some(i))
  {
  }

  /** At most one navigation link is active after a scroll that lands in a
      section, whatever was active before. */
  lemma AtMostOneActiveLink(links: seq<NavLink>, sections: seq<Section>, scrollY: int, i: nat, j: nat)
    requires LastSectionIn(sections, scrollY).Some?
    requires i < j < |links|
    ensures !(Highlighted(links, sections, scrollY)[i].active && Highlighted(links, sections, scrollY)[j].active)
  {
    HighlightMarksCurrentSection(links, sections, scrollY);
  }

  /** The scroll listener `highlightNavigation`, over the page's sections and
      its `.nav-link`s. */
  method HighlightNavigation(sections: seq<Section>, links: array<NavLink>, scrollY: int)
    modifies links
    ensures links[..] == Highlighted(old(links[..]), sections, scrollY)
  {
    var n := 0;
    while n < |sections|
      invariant 0 <= n <= |sections|
      invariant links[..] == Highlighted(old(links[..]), sections[..n], scrollY)
    {
      var s := sections[n];
      var navLink := FirstLink(links[..], "#" + s.id);
      ghost var before := links[..];
      if InSection(s, scrollY) {
        var i := 0;
        while i < links.Length
          invariant 0 <= i <= links.Length
          invariant forall k :: 0 <= k < i ==> links[k] == before[k].(active := false)
          invariant forall k :: i <= k < links.Length ==> links[k] == before[k]
        {
          links[i] := links[i].(active := false);
          i := i + 1;
        }
        assert links[..] == ClearAll(before);
        if navLink.Some? {
          links[navLink.value] := links[navLink.value].(active := true);
        }
      }
      assert links[..] == VisitSection(before, s, scrollY);
      assert sections[..n + 1][..n] == sections[..n];
      n := n + 1;
    }
    assert sections[..n] == sections;
  }
}
