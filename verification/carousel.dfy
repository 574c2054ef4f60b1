/**
 * The image sliders of the About page: index rotation on next/previous, the
 * swipe rule on drag release, the progress dots, the per-slider state, and the
 * image path each slide loads.
 */
module Carousel {
  import opened Text
  import opened Options

  /** JavaScript's `%` on integers: the remainder takes the sign of the dividend. */
  function JsRem(a: int, n: int): (r: int)
    requires n > 0
    ensures a >= 0 ==> 0 <= r < n && r == a % n
    ensures a < 0 ==> -n < r <= 0
  {
    if a >= 0 then a % n else -((-a) % n)
  }

  /** `(prev + 1) % n`: the next slide, wrapping from the last slide to the first. */
  function Next(i: int, n: int): (r: int)
    requires n > 0
    ensures 0 <= i < n ==> 0 <= r < n
    ensures 0 <= i < n - 1 ==> r == i + 1
    ensures i == n - 1 ==> r == 0
  {
    JsRem(i + 1, n)
  }

  /** `(prev - 1 + n) % n`: the previous slide, wrapping from the first slide to the last. */
  function Prev(i: int, n: int): (r: int)
    requires n > 0
    ensures 0 <= i < n ==> 0 <= r < n
    ensures 0 < i < n ==> r == i - 1
    ensures i == 0 ==> r == n - 1
  {
    JsRem(i - 1 + n, n)
  }

  /** Next and previous undo each other on every valid index. */
  lemma NextPrevInverse(i: int, n: int)
    requires n > 0 && 0 <= i < n
    ensures Next(Prev(i, n), n) == i
    ensures Prev(Next(i, n), n) == i
  {
  }

  /** The index after `k` presses of next. */
  function Rotate(i: int, n: int, k: nat): int
    requires n > 0
  {
    if k == 0 then i else Next(Rotate(i, n, k - 1), n)
  }

  /** Pressing next `a` times and then `b` times is pressing it `a + b` times. */
  lemma {:induction false} RotateCompose(i: int, n: int, a: nat, b: nat)
    requires n > 0
    ensures Rotate(i, n, a + b) == Rotate(Rotate(i, n, a), n, b)
    decreases b
  {
    if b > 0 {
      RotateCompose(i, n, a, b - 1);
    }
  }

  /** Below the last slide, `k` presses of next just count up. */
  lemma {:induction false} RotateCountsUp(i: int, n: int, k: nat)
    requires n > 0 && 0 <= i && i + k < n
    ensures Rotate(i, n, k) == i + k
  {
    if k > 0 {
      RotateCountsUp(i, n, k - 1);
    }
  }

  /** `n` presses of next bring every slide back to itself, and no press leaves the range. */
  lemma {:induction false} FullTurn(i: int, n: int)
    requires n > 0 && 0 <= i < n
    ensures Rotate(i, n, n) == i
  {
    RotateCountsUp(i, n, n - 1 - i);
    assert Rotate(i, n, n - i) == 0;
    RotateCompose(i, n, n - i, i);
    RotateCountsUp(0, n, i);
  }

  /** What a drag release does to the slider. */
  datatype Swipe = Advance | GoBack | Stay

  /** The horizontal drag distance, in pixels, beyond which a release changes slide. */
  const SwipeThreshold: real := 50.0

  /** `onDragEnd`: a drag more than 50 px to the left advances, more than 50 px to the right goes back. */
  function Release(offsetX: real): (s: Swipe)
    ensures s == Advance <==> offsetX < -SwipeThreshold
    ensures s == GoBack <==> offsetX > SwipeThreshold
    ensures s == Stay <==> -SwipeThreshold <= offsetX <= SwipeThreshold
  {
    if offsetX < -SwipeThreshold then Advance
    else if offsetX > SwipeThreshold then GoBack
    else Stay
  }

  /** The index after a drag released at horizontal offset `offsetX`. */
  function DragEnd(i: int, n: int, offsetX: real): (r: int)
    requires n > 0
  {
    match Release(offsetX)
    case Advance => Next(i, n)
    case GoBack => Prev(i, n)
    case Stay => i
  }

  /** A swipe one way followed by a swipe the other way returns to the starting slide; a short drag changes nothing. */
  lemma OppositeSwipesCancel(i: int, n: int, d: real)
    requires n > 0 && 0 <= i < n
    ensures d > SwipeThreshold ==> DragEnd(DragEnd(i, n, -d), n, d) == i
    ensures d > SwipeThreshold ==> DragEnd(DragEnd(i, n, d), n, -d) == i
    ensures -SwipeThreshold <= d <= SwipeThreshold ==> DragEnd(i, n, d) == i
  {
    NextPrevInverse(i, n);
  }

  /** The progress dots of a slider with `n` slides: one per slide, dot `k` selecting slide `k`. */
  function Dots(n: nat): (ks: seq<int>)
    ensures |ks| == n
    ensures forall k :: k in ks <==> 0 <= k < n
  {
    var ks := seq(n, j requires 0 <= j < n => j);
    assert forall k :: k in ks <==> 0 <= k < n by {
      forall k ensures k in ks <==> 0 <= k < n {
        if 0 <= k < n {
          assert ks[k] == k;
        }
      }
    }
    ks
  }

  /** The sliders of the page, each with its own index state. */
  datatype SliderId = Main | Design | Sketch | Model | Render | Other

  /** The number of slides in each slider's data list. */
  function Length(s: SliderId): nat {
    match s
    case Main => 7
    case Design => 10
    case Sketch => 5
    case Model => 4
    case Render => 4
    case Other => 6
  }

  /**
   * The slide indices of the page. `research` is declared but no handler ever
   * changes it.
   */
  datatype Board = Board(main: int, design: int, sketch: int, model: int, render: int, research: int, other: int)

  /** Every slider starts at its first slide. */
  const Initial: Board := Board(0, 0, 0, 0, 0, 0, 0)

  function Index(b: Board, s: SliderId): int {
    match s
    case Main => b.main
    case Design => b.design
    case Sketch => b.sketch
    case Model => b.model
    case Render => b.render
    case Other => b.other
  }

  /** The board with slider `s` moved to `v` and nothing else changed. */
  function WithIndex(b: Board, s: SliderId, v: int): (b': Board)
    ensures Index(b', s) == v
    ensures forall t :: t != s ==> Index(b', t) == Index(b, t)
    ensures b'.research == b.research
  {
    match s
    case Main => b.(main := v)
    case Design => b.(design := v)
    case Sketch => b.(sketch := v)
    case Model => b.(model := v)
    case Render => b.(render := v)
    case Other => b.(other := v)
  }

  /** A user action on one slider. */
  datatype Action = NextSlide | PrevSlide | SetSlide(k: int) | DragRelease(offsetX: real)

  /** The state update a handler makes: only the slider acted on moves. */
  function Apply(b: Board, s: SliderId, a: Action): (b': Board)
    ensures forall t :: t != s ==> Index(b', t) == Index(b, t)
    ensures b'.research == b.research
    ensures a.SetSlide? ==> Index(b', s) == a.k
    ensures a.DragRelease? && Release(a.offsetX) == Stay ==> b' == b
  {
    var i := Index(b, s);
    var n := Length(s);
    match a
    case NextSlide => WithIndex(b, s, Next(i, n))
    case PrevSlide => WithIndex(b, s, Prev(i, n))
    case SetSlide(k) => WithIndex(b, s, k)
    case DragRelease(offsetX) =>
      if Release(offsetX) == Stay then b else WithIndex(b, s, DragEnd(i, n, offsetX))
  }

  /** Every slider's index points at one of its slides. */
  predicate WellFormed(b: Board) {
    forall s :: 0 <= Index(b, s) < Length(s)
  }

  /** A dot click names one of the slider's own dots. */
  predicate Permitted(s: SliderId, a: Action) {
    a.SetSlide? ==> a.k in Dots(Length(s))
  }

  /** From any board whose indices are in range, every handler and dot click keeps every index in range. */
  lemma ApplyKeepsWellFormed(b: Board, s: SliderId, a: Action)
    requires WellFormed(b) && Permitted(s, a)
    ensures WellFormed(Apply(b, s, a))
  {
    assert 0 <= Index(b, s) < Length(s);
  }

  /** A run of actions, each on a named slider. */
  function ApplyAll(b: Board, steps: seq<(SliderId, Action)>): Board
    requires forall j :: 0 <= j < |steps| ==> Permitted(steps[j].0, steps[j].1)
    decreases |steps|
  {
    if |steps| == 0 then b else ApplyAll(Apply(b, steps[0].0, steps[0].1), steps[1..])
  }

  /** Whatever the users do, every slider index stays in range. */
  lemma {:induction false} ApplyAllKeepsWellFormed(b: Board, steps: seq<(SliderId, Action)>)
    requires WellFormed(b)
    requires forall j :: 0 <= j < |steps| ==> Permitted(steps[j].0, steps[j].1)
    ensures WellFormed(ApplyAll(b, steps))
    decreases |steps|
  {
    if |steps| > 0 {
      ApplyKeepsWellFormed(b, steps[0].0, steps[0].1);
      ApplyAllKeepsWellFormed(Apply(b, steps[0].0, steps[0].1), steps[1..]);
    }
  }

  /** Every slider starts on its first slide, so every board the page can reach has its indices in range. */
  lemma ReachableWellFormed(steps: seq<(SliderId, Action)>)
    requires forall j :: 0 <= j < |steps| ==> Permitted(steps[j].0, steps[j].1)
    ensures WellFormed(Initial)
    ensures WellFormed(ApplyAll(Initial, steps))
  {
    ApplyAllKeepsWellFormed(Initial, steps);
  }

  /** The image prefix a slider uses when none is given. */
  const DefaultPrefix: string := "la"

  /** `/images/<prefix><id>.jpg`: the picture a slide shows. */
  function ImageSrc(prefix: Option<string>, id: nat): string {
    "/images/" + prefix.GetOr(DefaultPrefix) + NatToString(id) + ".jpg"
  }

  /** `/images/<prefix><id>.gif`: the picture loaded when the `.jpg` fails. */
  function FallbackSrc(prefix: Option<string>, id: nat): string {
    "/images/" + prefix.GetOr(DefaultPrefix) + NatToString(id) + ".gif"
  }

  /** The slide number inside an image path: what lies between `/images/<prefix>` and the extension. */
  function SlideNumberOf(path: string, prefix: string): string
    requires |path| >= 8 + |prefix| + 4
  {
    path[8 + |prefix|..|path| - 4]
  }

  /** How an image path splits into directory, prefix, slide number and extension. */
  lemma PathParts(p: string, d: string, ext: string)
    requires |ext| == 4
    ensures var path := "/images/" + p + d + ext;
            && |path| >= 8 + |p| + 4
            && path[..|path| - 4] == "/images/" + p + d
            && path[|path| - 4..] == ext
            && path[..8] == "/images/" && path[8..8 + |p|] == p
            && SlideNumberOf(path, p) == d
  {
    var path := "/images/" + p + d + ext;
    assert path[..|path| - 4] == "/images/" + p + d;
    assert path[8..8 + |p|] == p;
    assert SlideNumberOf(path, p) == d;
  }

  /**
   * The two paths of a slide share everything but the extension, the default
   * prefix is `la`, and the slide id can be read back from either path.
   */
  lemma {:induction false} ImagePaths(prefix: Option<string>, id: nat)
    ensures var p := prefix.GetOr(DefaultPrefix);
            var jpg, gif := ImageSrc(prefix, id), FallbackSrc(prefix, id);
            && |jpg| == |gif| >= 8 + |p| + 4
            && jpg[..|jpg| - 4] == gif[..|gif| - 4]
            && jpg[|jpg| - 4..] == ".jpg" && gif[|gif| - 4..] == ".gif"
            && jpg[..8] == "/images/" && jpg[8..8 + |p|] == p
            && ParseNat(SlideNumberOf(jpg, p)) == id
            && ParseNat(SlideNumberOf(gif, p)) == id
    ensures prefix.None? ==> ImageSrc(prefix, id) == "/images/la" + NatToString(id) + ".jpg"
  {
    var p := prefix.GetOr(DefaultPrefix);
    PathParts(p, NatToString(id), ".jpg");
    PathParts(p, NatToString(id), ".gif");
    ParseNatToString(id);
  }

  /** Two slides of one slider never share an image. */
  lemma DistinctSlidesDistinctImages(prefix: Option<string>, id1: nat, id2: nat)
    requires id1 != id2
    ensures ImageSrc(prefix, id1) != ImageSrc(prefix, id2)
    ensures FallbackSrc(prefix, id1) != FallbackSrc(prefix, id2)
  {
    ImagePaths(prefix, id1);
    ImagePaths(prefix, id2);
  }

  /** The ids of a slider's slides: every data list numbers its slides 1, 2, ... in order. */
  function SlideIds(s: SliderId): (ids: seq<nat>)
    ensures |ids| == Length(s)
  {
    seq(Length(s), k requires 0 <= k < Length(s) => k + 1)
  }

  /** The prefix each rendered slider passes; the main slider's data has no slider on the page. */
  function RenderedPrefix(s: SliderId): string
    requires s != Main
  {
    match s
    case Design => "la-diagram"
    case Sketch => "la-sketch"
    case Model => "la-model"
    case Render => "la-construction"
    case Other => "la-others"
  }

  /** The picture a rendered slider currently shows. */
  function CurrentImage(b: Board, s: SliderId): string
    requires s != Main && 0 <= Index(b, s) < Length(s)
  {
    ImageSrc(Some(RenderedPrefix(s)), SlideIds(s)[Index(b, s)])
  }

  /** Moving a rendered slider to another slide always changes the picture it shows. */
  lemma NewSlideNewImage(b: Board, s: SliderId, a: Action)
    requires s != Main && WellFormed(b) && Permitted(s, a)
    ensures 0 <= Index(Apply(b, s, a), s) < Length(s)
    ensures Index(Apply(b, s, a), s) != Index(b, s) ==> CurrentImage(Apply(b, s, a), s) != CurrentImage(b, s)
  {
    ApplyKeepsWellFormed(b, s, a);
    var b' := Apply(b, s, a);
    if Index(b', s) != Index(b, s) {
      DistinctSlidesDistinctImages(Some(RenderedPrefix(s)), SlideIds(s)[Index(b', s)], SlideIds(s)[Index(b, s)]);
    }
  }
}
