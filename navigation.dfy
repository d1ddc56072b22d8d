/** The fixed navigation bar: on every scroll the first section, in link order,
    whose box contains a probe 100 pixels below the top of the window becomes the
    active one; a click scrolls to 80 pixels above the section so it clears the bar.
    The page's elements are given as a map from element id to its box. */
module Navigation {
  import opened JsStrings

  /** An element's `offsetTop` and `offsetHeight`, in pixels. */
  datatype Box = Box(offsetTop: int, offsetHeight: int)

  datatype NavLink = NavLink(name: string, id: string)

  const NavLinks: seq<NavLink> := [
    NavLink("Home", "home"),
    NavLink("My Stack", "skills"),
    NavLink("About", "about"),
    NavLink("Projects", "projects"),
    NavLink("Contact Info", "contact")
  ]

  /** How far below the top of the window the scroll probe sits. */
  const ProbeOffset := 100

  /** The height of the navigation bar, kept clear above a section scrolled to. */
  const NavHeight := 80

  const InitialSection := "hero"

  /** The position the scroll spy tests for a window scrolled to `scrollY`. */
  function Probe(scrollY: int): int {
    scrollY + ProbeOffset
  }

  /** Where a click on a section's link scrolls the window to. */
  function ScrollTarget(b: Box): int {
    b.offsetTop - NavHeight
  }

  /** `navLinks.map(link => link.id)` */
  function SectionIds(links: seq<NavLink>): (r: seq<string>)
    ensures |r| == |links|
    ensures forall k :: 0 <= k < |links| ==> r[k] == links[k].id
  {
    if links == [] then [] else [links[0].id] + SectionIds(links[1..])
  }

  /** `y` lies in `[offsetTop, offsetTop + offsetHeight)`. */
  predicate Covers(b: Box, y: int) {
    b.offsetTop <= y < b.offsetTop + b.offsetHeight
  }

  /** The `j`-th section exists on the page and its box contains `y`. */
  predicate CoversAt(ids: seq<string>, elements: map<string, Box>, y: int, j: int)
    requires 0 <= j < |ids|
  {
    ids[j] in elements && Covers(elements[ids[j]], y)
  }

  /** The index of the first section from `from` on that contains `y`. */
  function FirstCoveringFrom(ids: seq<string>, elements: map<string, Box>, y: int, from: nat): (r: Option<nat>)
    requires from <= |ids|
    ensures r.Some? ==> from <= r.value < |ids| && CoversAt(ids, elements, y, r.value)
    ensures r.Some? ==> forall j :: from <= j < r.value ==> !CoversAt(ids, elements, y, j)
    ensures r.None? <==> forall j :: from <= j < |ids| ==> !CoversAt(ids, elements, y, j)
    decreases |ids| - from
  {
    if from == |ids| then None
    else if CoversAt(ids, elements, y, from) then Some(from)
    else FirstCoveringFrom(ids, elements, y, from + 1)
  }

  /** The index of the first section that contains `y`, if any. */
  function FirstCovering(ids: seq<string>, elements: map<string, Box>, y: int): Option<nat> {
    FirstCoveringFrom(ids, elements, y, 0)
  }

  /** Where the window ends up when asked to scroll to `target`: the browser keeps
      the position between the top of the page and `maxScroll`, the furthest the
      page can scroll. */
  function ScrolledTo(target: int, maxScroll: nat): (r: int)
    ensures 0 <= r <= maxScroll
    ensures 0 <= target <= maxScroll ==> r == target
  {
    if target < 0 then 0 else if target > maxScroll then maxScroll else target
  }

  /** The section a click scrolls to becomes the active one, provided the page can
      scroll exactly to the click's target, the section is taller than the gap
      between the bar and the probe, and no earlier section also contains the
      probe.  A section less than 80 pixels from the top, or one the page cannot
      scroll far enough for, leaves the window elsewhere and is not covered. */
  lemma ClickedSectionBecomesActive(ids: seq<string>, elements: map<string, Box>, k: nat, maxScroll: nat)
    requires k < |ids| && ids[k] in elements && elements[ids[k]].offsetHeight > ProbeOffset - NavHeight
    requires 0 <= ScrollTarget(elements[ids[k]]) <= maxScroll
    requires forall j :: 0 <= j < k ==> !CoversAt(ids, elements, Probe(ScrollTarget(elements[ids[k]])), j)
    ensures FirstCovering(ids, elements, Probe(ScrolledTo(ScrollTarget(elements[ids[k]]), maxScroll))) == Some(k)
  {
    var y := Probe(ScrolledTo(ScrollTarget(elements[ids[k]]), maxScroll));
    assert y == Probe(ScrollTarget(elements[ids[k]]));
    assert CoversAt(ids, elements, y, k);
    var r := FirstCovering(ids, elements, y);
    assert r.Some?;
    assert !(r.value < k);
    assert !(k < r.value);
  }

  /** The initial active section is none of the nav links, so none is highlighted
      before the mount-time check. */
  lemma InitialSectionIsNoLink()
    ensures InitialSection !in SectionIds(NavLinks)
  {
    var ids := SectionIds(NavLinks);
    assert ids == ["home", "skills", "about", "projects", "contact"];
  }

  class NavigationBar {
    var activeSection: string

    constructor ()
      ensures activeSection == InitialSection
    {
      activeSection := InitialSection;
    }

    /** `handleScroll`: the first section whose box contains `scrollY + 100` becomes
        active; when none does (or none is on the page) nothing changes. */
    method HandleScroll(scrollY: int, elements: map<string, Box>)
      modifies this
      ensures var k := FirstCovering(SectionIds(NavLinks), elements, Probe(scrollY));
              (k.Some? ==> activeSection == SectionIds(NavLinks)[k.value])
              && (k.None? ==> activeSection == old(activeSection))
    {
      var sections := SectionIds(NavLinks);
      var scrollPosition := Probe(scrollY);
      ghost var first := FirstCovering(sections, elements, scrollPosition);
      var i := 0;
      while i < |sections|
        invariant 0 <= i <= |sections|
        invariant FirstCoveringFrom(sections, elements, scrollPosition, i) == first
        invariant activeSection == old(activeSection)
      {
        var sectionId := sections[i];
        if sectionId in elements {
          var b := elements[sectionId];
          if scrollPosition >= b.offsetTop && scrollPosition < b.offsetTop + b.offsetHeight {
            assert first == Some(i);
            activeSection := sectionId;
            return;
          }
        }
        i := i + 1;
      }
    }

    /** `handleClick`: the scroll target of a section is its top less the bar's
        height; with no such element there is no scroll. */
    method HandleClick(id: string, elements: map<string, Box>) returns (scrollTop: Option<int>)
      ensures id in elements ==> scrollTop == Some(ScrollTarget(elements[id]))
      ensures id !in elements ==> scrollTop == None
    {
      if id in elements {
        var elementPosition := elements[id].offsetTop - NavHeight;
        return Some(elementPosition);
      }
      return None;
    }
  }
}
