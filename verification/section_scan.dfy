/**
 * The scan the project pages run on every scroll event: walk the page's
 * `<section id=…>` elements in document order, and let every section whose
 * window contains the probe point overwrite the running choice. The pages
 * differ only in the window's bounds, how far the window is lifted above the
 * section, and what the running choice starts from.
 */
module SectionScan {
  import opened Options

  /** A measured section: its id attribute ("" when empty), `offsetTop` and `offsetHeight`. */
  datatype Section = Section(id: string, offsetTop: real, offsetHeight: real)

  /** Which ends of the window `[lo, lo + height]` belong to it. */
  datatype Bounds =
    | HalfOpen   // lo <= probe < lo + height
    | OpenBelow  // lo < probe <= lo + height
    | Closed     // lo <= probe <= lo + height

  /** A page's matching rule: the bounds, and how far above `offsetTop` the window starts. */
  datatype Window = Window(bounds: Bounds, lift: real)

  predicate InWindow(bounds: Bounds, lo: real, height: real, probe: real) {
    match bounds
    case HalfOpen => lo <= probe < lo + height
    case OpenBelow => lo < probe <= lo + height
    case Closed => lo <= probe <= lo + height
  }

  /** The section takes part (its id is not empty, which JavaScript treats as false) and its window holds the probe. */
  predicate Hit(w: Window, s: Section, probe: real) {
    s.id != "" && InWindow(w.bounds, s.offsetTop - w.lift, s.offsetHeight, probe)
  }

  /** The `forEach` pass: starting from `current`, every hit in document order overwrites the choice. */
  function LastHit(w: Window, sections: seq<Section>, probe: real, current: string): (r: string)
    ensures r == current || exists i :: 0 <= i < |sections| && r == sections[i].id && Hit(w, sections[i], probe)
  {
    if |sections| == 0 then current
    else
      var n := |sections| - 1;
      var prior := LastHit(w, sections[..n], probe, current);
      if Hit(w, sections[n], probe) then sections[n].id
      else
        assert forall i :: 0 <= i < n ==> sections[..n][i] == sections[i];
        prior
  }

  /** Some section in the list is hit. */
  predicate AnyHit(w: Window, sections: seq<Section>, probe: real) {
    exists i :: 0 <= i < |sections| && Hit(w, sections[i], probe)
  }

  /** Section `i` is hit and no later section is. */
  predicate IsLastHit(w: Window, sections: seq<Section>, probe: real, i: int) {
    0 <= i < |sections| && Hit(w, sections[i], probe) &&
    forall j :: i < j < |sections| ==> !Hit(w, sections[j], probe)
  }

  /**
   * The pass picks the id of the last section, in document order, that is hit;
   * with no hit it returns the starting choice untouched.
   */
  lemma {:induction false} LastHitIsLast(w: Window, sections: seq<Section>, probe: real, current: string)
    ensures !AnyHit(w, sections, probe) ==> LastHit(w, sections, probe, current) == current
    ensures AnyHit(w, sections, probe) ==>
      exists i :: IsLastHit(w, sections, probe, i) && LastHit(w, sections, probe, current) == sections[i].id
    decreases |sections|
  {
    if |sections| > 0 {
      var n := |sections| - 1;
      var init := sections[..n];
      assert forall i :: 0 <= i < n ==> init[i] == sections[i];
      LastHitIsLast(w, init, probe, current);
      var r := LastHit(w, sections, probe, current);
      if Hit(w, sections[n], probe) {
        assert r == sections[n].id;
        assert IsLastHit(w, sections, probe, n);
      } else {
        assert r == LastHit(w, init, probe, current);
        if AnyHit(w, init, probe) {
          var i :| IsLastHit(w, init, probe, i) && LastHit(w, init, probe, current) == init[i].id;
          assert IsLastHit(w, sections, probe, i) && r == sections[i].id;
        } else {
          assert !AnyHit(w, sections, probe) by {
            forall i | 0 <= i < |sections|
              ensures !Hit(w, sections[i], probe)
            {
              if i < n {
                assert init[i] == sections[i];
              }
            }
          }
        }
      }
    }
  }

  /** When some section is hit, the starting choice plays no part in the result. */
  lemma {:induction false} HitForgetsStart(w: Window, sections: seq<Section>, probe: real, a: string, b: string)
    requires AnyHit(w, sections, probe)
    ensures LastHit(w, sections, probe, a) == LastHit(w, sections, probe, b)
  {
    LastHitIsLast(w, sections, probe, a);
    LastHitIsLast(w, sections, probe, b);
    var i :| IsLastHit(w, sections, probe, i) && LastHit(w, sections, probe, a) == sections[i].id;
    var j :| IsLastHit(w, sections, probe, j) && LastHit(w, sections, probe, b) == sections[j].id;
    assert i == j;
  }

  /** A hit with nothing hit after it decides the pass, whatever it started from. */
  lemma {:induction false} LastHitAt(w: Window, sections: seq<Section>, probe: real, current: string, i: nat)
    requires i < |sections| && Hit(w, sections[i], probe)
    requires forall j :: i < j < |sections| ==> !Hit(w, sections[j], probe)
    ensures LastHit(w, sections, probe, current) == sections[i].id
  {
    LastHitIsLast(w, sections, probe, current);
    var k :| IsLastHit(w, sections, probe, k) && LastHit(w, sections, probe, current) == sections[k].id;
    assert k == i;
  }

  /** The sections follow one another down the page without overlapping. */
  predicate Stacked(sections: seq<Section>) {
    forall i, j :: 0 <= i < j < |sections| ==> sections[i].offsetTop + sections[i].offsetHeight <= sections[j].offsetTop
  }

  /**
   * On a stacked page, a probe that falls in section `i`'s window and lies more
   * than the lift above section `i`'s bottom selects section `i`.
   */
  lemma {:induction false} StackedPick(w: Window, sections: seq<Section>, probe: real, current: string, i: nat)
    requires Stacked(sections)
    requires i < |sections| && Hit(w, sections[i], probe)
    requires probe < sections[i].offsetTop + sections[i].offsetHeight - w.lift
    ensures LastHit(w, sections, probe, current) == sections[i].id
  {
    forall j | i < j < |sections|
      ensures !Hit(w, sections[j], probe)
    {
      assert sections[i].offsetTop + sections[i].offsetHeight <= sections[j].offsetTop;
    }
    LastHitAt(w, sections, probe, current, i);
  }

  /** What a page asks the window to do. */
  datatype ScrollRequest =
    | ScrollTo(top: real)        // `window.scrollTo({ top, behavior: "smooth" })`
    | ScrollIntoView(id: string) // `element.scrollIntoView({ behavior: "smooth" })`

  /** The state a project page keeps: the header flag and the highlighted section. */
  datatype PageState = PageState(isScrolled: bool, active: string)

  /** The result of a navigation click: the new page state and the scroll, if any, it requests. */
  datatype Click = Click(state: PageState, request: Option<ScrollRequest>)

  /** The height of the fixed header the pages keep a clicked section below. */
  const HeaderOffset: real := 100.0

  /**
   * The `scrollToSection` of the pages that highlight on click: for an element
   * that exists, highlight it and scroll so that it lands `HeaderOffset` px
   * below the top of the viewport, that is at its document position (its
   * viewport top plus `pageYOffset`) less the header; for a missing element,
   * nothing. `elementTops` maps each element id to its
   * `getBoundingClientRect().top`.
   */
  function HighlightAndScroll(p: PageState, id: string, elementTops: map<string, real>, pageYOffset: real): (c: Click)
    ensures id !in elementTops ==> c == Click(p, None)
    ensures id in elementTops ==>
      c.state == PageState(p.isScrolled, id) &&
      c.request.Some? && c.request.value.ScrollTo? &&
      elementTops[id] + pageYOffset - c.request.value.top == HeaderOffset
  {
    if id in elementTops then Click(p.(active := id), Some(ScrollTo(elementTops[id] + pageYOffset - HeaderOffset)))
    else Click(p, None)
  }
}
