/**
 * The RidEase case-study page: the same floating header and section menu as
 * the other case studies, with windows open at the top and closed at the
 * bottom, and a highlight that stays put when no section matches.
 */
module ProjectRidEase {
  import opened Options
  import opened SectionScan

  /** The header shows once `scrollY` passes this many pixels. */
  const ScrollThreshold: real := 50.0

  /** Windows `(offsetTop - 100, offsetTop - 100 + offsetHeight]`. */
  const Rule: Window := Window(OpenBelow, 100.0)

  const Initial: PageState := PageState(false, "student-journey")

  /**
   * `handleScroll`: the header flag, and the highlight overwritten by every
   * section whose window holds `scrollY`, so the last one wins; with no such
   * section the highlight is kept.
   */
  function HandleScroll(p: PageState, scrollY: real, sections: seq<Section>): (p': PageState)
    ensures p'.isScrolled <==> scrollY > ScrollThreshold
    ensures !AnyHit(Rule, sections, scrollY) ==> p'.active == p.active
    ensures AnyHit(Rule, sections, scrollY) ==>
      exists i :: IsLastHit(Rule, sections, scrollY, i) && p'.active == sections[i].id
  {
    LastHitIsLast(Rule, sections, scrollY, p.active);
    PageState(scrollY > ScrollThreshold, LastHit(Rule, sections, scrollY, p.active))
  }

  /**
   * `scrollToSection`: ask an existing element to scroll into view; the
   * highlight is left to the scroll events that follow.
   */
  function ScrollToSection(p: PageState, id: string, elementIds: set<string>): (c: Click)
    ensures c.state == p
    ensures c.request.Some? <==> id in elementIds
    ensures c.request.Some? ==> c.request.value == ScrollIntoView(id)
  {
    if id in elementIds then Click(p, Some(ScrollIntoView(id))) else Click(p, None)
  }

  /**
   * A click on an existing section asks it to scroll into view, which lands
   * with the section's top at `scrollY == offsetTop`; on a stacked page the
   * next scroll event then highlights that section as long as it is taller
   * than 100 px.
   */
  lemma ClickedSectionBecomesActive(p: PageState, sections: seq<Section>, i: nat, elementIds: set<string>)
    requires Stacked(sections) && i < |sections|
    requires sections[i].id != "" && sections[i].offsetHeight > HeaderOffset
    requires sections[i].id in elementIds
    ensures var c := ScrollToSection(p, sections[i].id, elementIds);
      c.request == Some(ScrollIntoView(sections[i].id)) &&
      HandleScroll(c.state, sections[i].offsetTop, sections).active == sections[i].id
  {
    StackedPick(Rule, sections, sections[i].offsetTop, p.active, i);
  }
}
