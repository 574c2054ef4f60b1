/**
 * The three case-study pages side by side, on two adjoining sections `a` and
 * `b` (where `a` ends exactly where `b` begins) with the probe on the shared
 * boundary: the bounds of each page's windows decide which one is highlighted.
 */
module ScrollRules {
  import opened SectionScan
  import ProjectBloom
  import ProjectRidEase
  import ProjectLearningForGood

  /** Two sections with ids, positive heights, and `b` starting where `a` ends. */
  predicate Adjoining(a: Section, b: Section) {
    a.id != "" && b.id != "" && a.offsetHeight > 0.0 && b.offsetHeight > 0.0 &&
    b.offsetTop == a.offsetTop + a.offsetHeight
  }

  /** Bloom's half-open windows hand the boundary to the later section. */
  lemma BloomBoundaryGoesDown(a: Section, b: Section)
    requires Adjoining(a, b)
    ensures ProjectBloom.HandleScroll(b.offsetTop - ProjectBloom.Rule.lift, [a, b]).active == b.id
  {
    LastHitAt(ProjectBloom.Rule, [a, b], b.offsetTop - ProjectBloom.Rule.lift, ProjectBloom.DefaultSection, 1);
  }

  /** RidEase's windows, closed at the bottom, hand the boundary to the earlier section. */
  lemma RidEaseBoundaryStaysUp(p: PageState, a: Section, b: Section)
    requires Adjoining(a, b)
    ensures ProjectRidEase.HandleScroll(p, b.offsetTop - ProjectRidEase.Rule.lift, [a, b]).active == a.id
  {
    LastHitAt(ProjectRidEase.Rule, [a, b], b.offsetTop - ProjectRidEase.Rule.lift, p.active, 0);
  }

  /** Learning for Good's closed windows both hold the boundary, and the later section wins. */
  lemma LearningForGoodBoundaryGoesDown(p: PageState, innerHeight: real, a: Section, b: Section)
    requires Adjoining(a, b)
    ensures var probe := ProjectLearningForGood.Probe(b.offsetTop - ProjectLearningForGood.Rule.lift - innerHeight / 2.0, innerHeight);
            Hit(ProjectLearningForGood.Rule, a, probe) && Hit(ProjectLearningForGood.Rule, b, probe)
    ensures ProjectLearningForGood.HandleScroll(p, b.offsetTop - ProjectLearningForGood.Rule.lift - innerHeight / 2.0, innerHeight, [a, b]).active == b.id
  {
    var probe := ProjectLearningForGood.Probe(b.offsetTop - ProjectLearningForGood.Rule.lift - innerHeight / 2.0, innerHeight);
    LastHitAt(ProjectLearningForGood.Rule, [a, b], probe, p.active, 1);
  }

  /**
   * Bloom forgets: with no window holding the position it falls back to
   * `"overview"`, while RidEase and Learning for Good keep what was highlighted.
   */
  lemma NoMatchFallbacks(p: PageState, scrollY: real, innerHeight: real, sections: seq<Section>)
    requires forall i :: 0 <= i < |sections| ==> sections[i].id == ""
    ensures ProjectBloom.HandleScroll(scrollY, sections).active == ProjectBloom.DefaultSection
    ensures ProjectRidEase.HandleScroll(p, scrollY, sections).active == p.active
    ensures ProjectLearningForGood.HandleScroll(p, scrollY, innerHeight, sections).active == p.active
  {
  }
}
