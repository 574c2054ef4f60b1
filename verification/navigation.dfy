/**
 * The site header: it turns opaque once the page has scrolled a little, and
 * on the home page it highlights the first of the home sections that crosses
 * the line 100 px below the top of the viewport.
 */
module Navigation {
  import opened Options

  /** An element's `getBoundingClientRect()` top and bottom, relative to the viewport. */
  datatype Rect = Rect(top: real, bottom: real)

  /** The header turns opaque once `scrollY` passes this many pixels. */
  const ScrollThreshold: real := 20.0

  /** The line, in viewport pixels, a section must straddle to be highlighted. */
  const Line: real := 100.0

  const HomePath: string := "/"

  /** The home sections, in the order they are tried. */
  const HomeSections: seq<string> := ["hero", "about", "projects"]

  datatype NavState = NavState(isScrolled: bool, active: string)

  const Initial: NavState := NavState(false, "hero")

  /** The element with this id exists and straddles the line: its top at or above it, its bottom below it. */
  predicate Crosses(rects: map<string, Rect>, id: string) {
    id in rects && rects[id].top <= Line < rects[id].bottom
  }

  /** `Array.prototype.find` over the ids: the first one that crosses the line. */
  function Find(ids: seq<string>, rects: map<string, Rect>): (r: Option<string>)
    ensures r.Some? ==> r.value in ids && Crosses(rects, r.value)
  {
    if |ids| == 0 then None
    else if Crosses(rects, ids[0]) then Some(ids[0])
    else Find(ids[1..], rects)
  }

  /** `Find` answers the first crossing id, and answers nothing exactly when no id crosses. */
  lemma {:induction false} FindIsFirst(ids: seq<string>, rects: map<string, Rect>)
    ensures Find(ids, rects).None? <==> forall i :: 0 <= i < |ids| ==> !Crosses(rects, ids[i])
    ensures Find(ids, rects).Some? ==>
      exists i :: 0 <= i < |ids| && ids[i] == Find(ids, rects).value &&
        forall j :: 0 <= j < i ==> !Crosses(rects, ids[j])
    decreases |ids|
  {
    if |ids| > 0 && !Crosses(rects, ids[0]) {
      var rest := ids[1..];
      FindIsFirst(rest, rects);
      assert forall i :: 0 <= i < |rest| ==> rest[i] == ids[i + 1];
      if Find(rest, rects).Some? {
        var i :| 0 <= i < |rest| && rest[i] == Find(rest, rects).value &&
          forall j :: 0 <= j < i ==> !Crosses(rects, rest[j]);
        assert ids[i + 1] == Find(ids, rects).value;
        assert forall j :: 0 <= j < i + 1 ==> !Crosses(rects, ids[j]) by {
          forall j | 0 <= j < i + 1
            ensures !Crosses(rects, ids[j])
          {
            if j > 0 {
              assert ids[j] == rest[j - 1];
            }
          }
        }
      } else {
        forall i | 0 <= i < |ids|
          ensures !Crosses(rects, ids[i])
        {
          if i > 0 {
            assert ids[i] == rest[i - 1];
          }
        }
      }
    }
  }

  /**
   * `handleScroll`: the header flag, and on the home page the first home
   * section crossing the line; a missing element is skipped, and with no
   * crossing section, or away from the home page, the highlight is kept.
   */
  function HandleScroll(n: NavState, pathname: string, scrollY: real, rects: map<string, Rect>): (n': NavState)
    ensures n'.isScrolled <==> scrollY > ScrollThreshold
    ensures pathname != HomePath ==> n'.active == n.active
    ensures n'.active == n.active || n'.active in HomeSections
    ensures pathname == HomePath && (exists i :: 0 <= i < |HomeSections| && Crosses(rects, HomeSections[i])) ==>
      Crosses(rects, n'.active) && n'.active in HomeSections
    ensures pathname == HomePath && (forall i :: 0 <= i < |HomeSections| ==> !Crosses(rects, HomeSections[i])) ==>
      n'.active == n.active
    ensures pathname == HomePath ==>
      forall i :: (0 <= i < |HomeSections| && Crosses(rects, HomeSections[i]) &&
                   forall j :: 0 <= j < i ==> !Crosses(rects, HomeSections[j])) ==> n'.active == HomeSections[i]
  {
    FindIsFirst(HomeSections, rects);
    var active :=
      if pathname == HomePath then
        match Find(HomeSections, rects)
        case Some(id) => id
        case None => n.active
      else n.active;
    NavState(scrollY > ScrollThreshold, active)
  }

  /** The rectangles follow one another down the page: each bottom is at or above the next top. */
  predicate Stacked(ids: seq<string>, rects: map<string, Rect>) {
    forall i, j :: 0 <= i < j < |ids| && ids[i] in rects && ids[j] in rects ==> rects[ids[i]].bottom <= rects[ids[j]].top
  }

  /**
   * When the home sections do not overlap, at most one straddles the line, so
   * "first match" is simply "the match": any crossing home section is the one
   * highlighted.
   */
  lemma StackedHighlightsCrossing(n: NavState, scrollY: real, rects: map<string, Rect>, k: nat)
    requires Stacked(HomeSections, rects)
    requires k < |HomeSections| && Crosses(rects, HomeSections[k])
    ensures HandleScroll(n, HomePath, scrollY, rects).active == HomeSections[k]
  {
    FindIsFirst(HomeSections, rects);
    var i :| 0 <= i < |HomeSections| && HomeSections[i] == Find(HomeSections, rects).value &&
      forall j :: 0 <= j < i ==> !Crosses(rects, HomeSections[j]);
    assert Crosses(rects, HomeSections[i]);
    assert i == k;
  }
}
