/**
 * The Bloom case-study page: a floating header that appears once the page has
 * scrolled, and a section menu that highlights the section under the top of
 * the viewport. Its `scrollToSection` is `SectionScan.HighlightAndScroll`.
 */
module ProjectBloom {
  import opened SectionScan

  /** The header shows once `scrollY` passes this many pixels. */
  const ScrollThreshold: real := 50.0

  /** The section highlighted when no window holds the scroll position. */
  const DefaultSection: string := "overview"

  /** Half-open windows `[offsetTop - 150, offsetTop - 150 + offsetHeight)`. */
  const Rule: Window := Window(HalfOpen, 150.0)

  const Initial: PageState := PageState(false, DefaultSection)

  /**
   * `handleScroll`: the header flag, and the last section, in document order,
   * whose window holds `scrollY`, or `"overview"` when there is none. The
   * previous highlight is not consulted.
   */
  function HandleScroll(scrollY: real, sections: seq<Section>): (p: PageState)
    ensures p.isScrolled <==> scrollY > ScrollThreshold
    ensures !AnyHit(Rule, sections, scrollY) ==> p.active == DefaultSection
    ensures AnyHit(Rule, sections, scrollY) ==>
      exists i :: IsLastHit(Rule, sections, scrollY, i) && p.active == sections[i].id
    ensures p.active == DefaultSection || exists i :: 0 <= i < |sections| && sections[i].id == p.active && p.active != ""
  {
    LastHitIsLast(Rule, sections, scrollY, DefaultSection);
    PageState(scrollY > ScrollThreshold, LastHit(Rule, sections, scrollY, DefaultSection))
  }

  /**
   * A click on a stacked section taller than 50 px highlights it, and once the
   * smooth scroll it requests has ended, the next scroll event keeps it
   * highlighted: the landing point `offsetTop - 100` lies in its window and
   * above every later one. The element's document position, its viewport top
   * plus `pageYOffset`, is its `offsetTop`.
   */
  lemma ClickedSectionStaysActive(p: PageState, sections: seq<Section>, i: nat, elementTops: map<string, real>, pageYOffset: real)
    requires Stacked(sections) && i < |sections|
    requires sections[i].id != "" && sections[i].offsetHeight > 50.0
    requires sections[i].id in elementTops && elementTops[sections[i].id] + pageYOffset == sections[i].offsetTop
    ensures var c := HighlightAndScroll(p, sections[i].id, elementTops, pageYOffset);
      c.state.active == sections[i].id && c.request.Some? && c.request.value.ScrollTo? &&
      HandleScroll(c.request.value.top, sections).active == sections[i].id
  {
    StackedPick(Rule, sections, sections[i].offsetTop - HeaderOffset, DefaultSection, i);
  }
}
