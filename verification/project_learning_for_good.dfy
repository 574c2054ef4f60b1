/**
 * The Learning for Good case-study page: the section menu follows the middle
 * of the viewport rather than its top, with closed windows, and keeps the
 * highlight when no section matches. Its `scrollToSection` is
 * `SectionScan.HighlightAndScroll`.
 */
module ProjectLearningForGood {
  import opened SectionScan

  /** The header shows once `scrollY` passes this many pixels. */
  const ScrollThreshold: real := 50.0

  /** Windows `[offsetTop - 100, offsetTop - 100 + offsetHeight]`. */
  const Rule: Window := Window(Closed, 100.0)

  const Initial: PageState := PageState(false, "overview")

  /** The point the windows are tested against: the middle of the viewport. */
  function Probe(scrollY: real, innerHeight: real): real {
    scrollY + innerHeight / 2.0
  }

  /**
   * `handleScroll`: the header flag, and the last section whose window holds
   * the middle of the viewport; a matching section with an empty id does not
   * overwrite the choice, and with no match the highlight is kept.
   */
  function HandleScroll(p: PageState, scrollY: real, innerHeight: real, sections: seq<Section>): (p': PageState)
    ensures p'.isScrolled <==> scrollY > ScrollThreshold
    ensures !AnyHit(Rule, sections, Probe(scrollY, innerHeight)) ==> p'.active == p.active
    ensures AnyHit(Rule, sections, Probe(scrollY, innerHeight)) ==>
      exists i :: IsLastHit(Rule, sections, Probe(scrollY, innerHeight), i) && p'.active == sections[i].id
  {
    var probe := Probe(scrollY, innerHeight);
    LastHitIsLast(Rule, sections, probe, p.active);
    PageState(scrollY > ScrollThreshold, LastHit(Rule, sections, probe, p.active))
  }

  /**
   * A click on a stacked section highlights it, and once the smooth scroll it
   * requests has ended at `offsetTop - 100`, the next scroll event keeps that
   * section highlighted as long as it is taller than half the viewport. The
   * element's document position, its viewport top plus `pageYOffset`, is its
   * `offsetTop`.
   */
  lemma ClickedSectionStaysActive(p: PageState, sections: seq<Section>, innerHeight: real, i: nat,
                                  elementTops: map<string, real>, pageYOffset: real)
    requires Stacked(sections) && i < |sections|
    requires sections[i].id != "" && 0.0 <= innerHeight && innerHeight / 2.0 < sections[i].offsetHeight
    requires sections[i].id in elementTops && elementTops[sections[i].id] + pageYOffset == sections[i].offsetTop
    ensures var c := HighlightAndScroll(p, sections[i].id, elementTops, pageYOffset);
      c.state.active == sections[i].id && c.request.Some? && c.request.value.ScrollTo? &&
      HandleScroll(c.state, c.request.value.top, innerHeight, sections).active == sections[i].id
  {
    StackedPick(Rule, sections, Probe(sections[i].offsetTop - HeaderOffset, innerHeight), p.active, i);
  }
}
