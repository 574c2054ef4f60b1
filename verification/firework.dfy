/**
 * The click-triggered particle burst drawn over the hero sections: a round-robin
 * colour palette, a batch emitter, and the per-frame physics step that moves,
 * ages and removes particles. Drawing itself is not modelled.
 */
module Firework {
  import opened Text

  /** One particle of a burst. Positions, velocities and angles are in canvas pixels and radians. */
  datatype Particle = Particle(
    x: real, y: real,
    vx: real, vy: real,
    color: string,
    life: real,
    size: real,
    rotation: real, rotationSpeed: real)

  /** Added to `vy` on every frame. */
  const Gravity: real := 0.01
  /** Taken from `life` on every frame. */
  const Decay: real := 0.001

  /** A colour given by its red, green and blue channels, 0 to 255. */
  datatype Rgb = Rgb(r: nat, g: nat, b: nat)

  /** The four colour sets the palette cycles through: pink/purple/blue, green/yellow/orange, cyan/indigo/violet, rose/fuchsia/sky. */
  const RgbSets: seq<seq<Rgb>> := [
    [Rgb(244, 114, 182), Rgb(168, 85, 247), Rgb(59, 130, 246)],
    [Rgb(34, 197, 94), Rgb(234, 179, 8), Rgb(249, 115, 22)],
    [Rgb(6, 182, 212), Rgb(99, 102, 241), Rgb(139, 92, 246)],
    [Rgb(244, 63, 94), Rgb(217, 70, 239), Rgb(14, 165, 233)]
  ]

  /** Colour `j mod 3` of colour set `palette mod 4`. */
  function Shade(palette: nat, j: nat): Rgb {
    RgbSets[palette % 4][j % 3]
  }

  /** The channel list as CSS writes it: `244, 114, 182`. */
  function ChannelList(c: Rgb): string {
    NatToString(c.r) + ", " + NatToString(c.g) + ", " + NatToString(c.b)
  }

  /** The CSS text `rgb(r, g, b)` the colour sets are written in. */
  function CssRgb(c: Rgb): string {
    "rgb(" + ChannelList(c) + ")"
  }

  /** The CSS text `rgba(r, g, b, 0.8)`. */
  function CssRgba80(c: Rgb): string {
    "rgba(" + ChannelList(c) + ", 0.8)"
  }

  /** `c.replace('rgb(', 'rgba(').replace(')', ', 0.8)')`: turns an opaque colour into one at 80% opacity. */
  function ToRgba(c: string): string {
    ReplaceFirst(ReplaceFirst(c, "rgb(", "rgba("), ")", ", 0.8)")
  }

  predicate NoCloseParen(s: string) {
    forall i :: 0 <= i < |s| ==> s[i] != ')'
  }

  /** The rewrite keeps the channels and adds an alpha of 0.8, for any `rgb(...)` text whose channels hold no `)`. */
  lemma ToRgbaOfRgb(body: string)
    requires NoCloseParen(body)
    ensures ToRgba("rgb(" + body + ")") == "rgba(" + body + ", 0.8)"
  {
    var c := "rgb(" + body + ")";
    assert c[0..4] == "rgb(";
    assert FirstOccurrence(c, "rgb(", 0);
    var t := ReplaceFirst(c, "rgb(", "rgba(");
    assert t == "rgba(" + body + ")";
    var k := 5 + |body|;
    assert t[k..k + 1] == ")";
    forall j | 0 <= j < k ensures !OccursAt(t, ")", j) {
      assert t[j..j + 1] == [t[j]];
      if j >= 5 {
        assert t[j] == body[j - 5];
      }
    }
    assert FirstOccurrence(t, ")", k);
    assert t[..k] == "rgba(" + body;
  }

  /** Every colour of the palette comes out of the rewrite as the same channels at alpha 0.8. */
  lemma ToRgbaOfPaletteColor(c: Rgb)
    ensures ToRgba(CssRgb(c)) == CssRgba80(c)
  {
    var body := ChannelList(c);
    var r, g, b := NatToString(c.r), NatToString(c.g), NatToString(c.b);
    forall i | 0 <= i < |body| ensures body[i] != ')' {
      if i < |r| {
        assert body[i] == r[i];
      } else if i < |r| + 2 {
      } else if i < |r| + 2 + |g| {
        assert body[i] == g[i - |r| - 2];
      } else if i < |r| + 4 + |g| {
      } else {
        assert body[i] == b[i - |r| - 4 - |g|];
      }
    }
    ToRgbaOfRgb(body);
  }

  /** The colours handed out by one palette call, and the cursor after it. */
  datatype Gradient = Gradient(colors: seq<string>, cursor: nat)

  /** The colour sets as the CSS `rgb(...)` texts the palette starts from. */
  const ColorSets: seq<seq<string>> :=
    seq(|RgbSets|, k requires 0 <= k < |RgbSets| =>
      seq(|RgbSets[k]|, j requires 0 <= j < |RgbSets[k]| => CssRgb(RgbSets[k][j])))

  /**
   * `createGradientColors(count)`: picks the colour set the cursor points at
   * (round-robin over the four sets), advances the cursor by one whatever
   * `count` is, and cycles through the set's three colours, each rewritten to
   * alpha 0.8, to fill `count` slots.
   */
  function CreateGradientColors(cursor: nat, count: int): (g: Gradient)
    ensures g.cursor == cursor + 1
    ensures |g.colors| == if count > 0 then count else 0
    ensures forall i :: 0 <= i < |g.colors| ==> g.colors[i] == CssRgba80(Shade(cursor, i))
  {
    var current := ColorSets[cursor % |ColorSets|];
    var n := if count > 0 then count else 0;
    var colors := seq(n, i requires 0 <= i => ToRgba(current[i % |current|]));
    assert forall i :: 0 <= i < n ==> colors[i] == CssRgba80(Shade(cursor, i)) by {
      forall i | 0 <= i < n ensures colors[i] == CssRgba80(Shade(cursor, i)) {
        SetText(cursor, i % 3);
        ToRgbaOfPaletteColor(Shade(cursor, i));
      }
    }
    Gradient(colors, cursor + 1)
  }

  /** The set the cursor points at holds three texts, text j being colour j of set `cursor mod 4` in CSS. */
  lemma SetText(cursor: nat, j: nat)
    requires j < 3
    ensures |ColorSets[cursor % |ColorSets|]| == 3
    ensures ColorSets[cursor % |ColorSets|][j] == CssRgb(RgbSets[cursor % 4][j])
  {
  }

  /** The gradients handed out by successive palette calls asking for `counts[0]`, `counts[1]`, ... colours. */
  function PaletteCalls(cursor: nat, counts: seq<int>): (gs: seq<Gradient>)
    ensures |gs| == |counts|
    decreases |counts|
  {
    if |counts| == 0 then []
    else
      var g := CreateGradientColors(cursor, counts[0]);
      [g] + PaletteCalls(g.cursor, counts[1..])
  }

  /** The k-th call (from 0) leaves the cursor at `cursor + k + 1` and hands out as many colours as it was asked for. */
  lemma {:induction false} KthCallShape(cursor: nat, counts: seq<int>, k: nat)
    requires k < |counts|
    ensures PaletteCalls(cursor, counts)[k].cursor == cursor + k + 1
    ensures |PaletteCalls(cursor, counts)[k].colors| == if counts[k] > 0 then counts[k] else 0
    decreases k
  {
    var g := CreateGradientColors(cursor, counts[0]);
    var rest := PaletteCalls(cursor + 1, counts[1..]);
    assert PaletteCalls(cursor, counts) == [g] + rest;
    if k > 0 {
      KthCallShape(cursor + 1, counts[1..], k - 1);
      assert counts[1..][k - 1] == counts[k];
      assert ([g] + rest)[k] == rest[k - 1];
    } else {
      assert ([g] + rest)[0] == g;
    }
  }

  /** Colour i of the k-th call is colour `i mod 3` of colour set `palette mod 4`, where `palette` is `cursor + k`. */
  lemma {:induction false} KthCallUsesSetKMod4(cursor: nat, counts: seq<int>, k: nat, i: nat, palette: nat)
    requires k < |counts| && i < |PaletteCalls(cursor, counts)[k].colors| && palette == cursor + k
    ensures PaletteCalls(cursor, counts)[k].colors[i] == CssRgba80(Shade(palette, i))
    decreases k
  {
    var g := CreateGradientColors(cursor, counts[0]);
    var rest := PaletteCalls(cursor + 1, counts[1..]);
    assert PaletteCalls(cursor, counts) == [g] + rest;
    if k > 0 {
      assert ([g] + rest)[k] == rest[k - 1];
      KthCallUsesSetKMod4(cursor + 1, counts[1..], k - 1, i, palette);
    } else {
      assert ([g] + rest)[0] == g;
      assert palette == cursor;
    }
  }

  /** From mount, the k-th call uses colour set `k mod 4` and leaves the cursor at `k + 1`. */
  lemma {:induction false} MountedCallsCycleSets(counts: seq<int>, k: nat)
    requires k < |counts|
    ensures PaletteCalls(Mounted.cursor, counts)[k].cursor == k + 1
    ensures forall i :: 0 <= i < |PaletteCalls(Mounted.cursor, counts)[k].colors| ==>
      PaletteCalls(Mounted.cursor, counts)[k].colors[i] == CssRgba80(Shade(k, i))
  {
    KthCallShape(0, counts, k);
    forall i | 0 <= i < |PaletteCalls(0, counts)[k].colors|
      ensures PaletteCalls(0, counts)[k].colors[i] == CssRgba80(Shade(k, i))
    {
      KthCallUsesSetKMod4(0, counts, k, i, k);
    }
  }

  /**
   * The host services a click draws on: `random(k)` is the k-th value `Math.random`
   * returns during the click, and `cos`, `sin` and `pi` stand for `Math.cos`,
   * `Math.sin` and `Math.PI`.
   */
  datatype Host = Host(random: nat -> real, cos: real -> real, sin: real -> real, pi: real)

  /** `Math.random` returns values in [0, 1). */
  ghost predicate RandomInUnit(h: Host) {
    forall k: nat :: 0.0 <= h.random(k) < 1.0
  }

  /**
   * The position of a particle's draws in the click's random stream: draw 0 picks
   * the batch size, then each particle takes five draws in source order.
   */
  const Jitter: nat := 0
  const SpeedDraw: nat := 1
  const SizeDraw: nat := 2
  const RotationDraw: nat := 3
  const SpinDraw: nat := 4

  function DrawIndex(i: nat, which: nat): nat
    requires which < 5
  {
    1 + 5 * i + which
  }

  /** `30 + Math.floor(Math.random() * 10)`. */
  function ParticleCount(r: real): (n: int)
    requires 0.0 <= r < 1.0
    ensures 30 <= n <= 39
  {
    30 + (r * 10.0).Floor
  }

  /** `0.3 + Math.random() * 0.5`. */
  function Speed(r: real): (v: real)
    requires 0.0 <= r < 1.0
    ensures 0.3 <= v < 0.8
  {
    0.3 + r * 0.5
  }

  /** `1 + Math.random() * 2`. */
  function Size(r: real): (v: real)
    requires 0.0 <= r < 1.0
    ensures 1.0 <= v < 3.0
  {
    1.0 + r * 2.0
  }

  /** `(Math.random() - 0.5) * 0.02`. */
  function RotationSpeed(r: real): (v: real)
    requires 0.0 <= r < 1.0
    ensures -0.01 <= v < 0.01
  {
    (r - 0.5) * 0.02
  }

  /** The emission angle of particle `i` of `n`: evenly spaced around the circle plus up to 0.3 rad of jitter. */
  function Angle(h: Host, i: nat, n: nat): real
    requires n > 0
  {
    (h.pi * 2.0 * i as real) / n as real + h.random(DrawIndex(i, Jitter)) * 0.3
  }

  /** Particle `i` of a batch of `n` spawned at (x, y). */
  function Spawn(h: Host, i: nat, n: nat, colors: seq<string>, x: real, y: real): Particle
    requires RandomInUnit(h) && n > 0 && |colors| > 0
  {
    var angle := Angle(h, i, n);
    var speed := Speed(h.random(DrawIndex(i, SpeedDraw)));
    Particle(
      x, y,
      h.cos(angle) * speed, h.sin(angle) * speed,
      colors[i % |colors|],
      1.0,
      Size(h.random(DrawIndex(i, SizeDraw))),
      h.random(DrawIndex(i, RotationDraw)) * h.pi * 2.0,
      RotationSpeed(h.random(DrawIndex(i, SpinDraw))))
  }

  /** The batch one click creates at canvas point (x, y) with a three-colour palette. */
  function Burst(h: Host, colors: seq<string>, x: real, y: real): (batch: seq<Particle>)
    requires RandomInUnit(h) && |colors| == 3
    ensures 30 <= |batch| <= 39
    ensures |batch| == ParticleCount(h.random(0))
    ensures forall i :: 0 <= i < |batch| ==>
      && batch[i].x == x && batch[i].y == y
      && batch[i].life == 1.0
      && batch[i].color == colors[i % 3]
      && 1.0 <= batch[i].size < 3.0
      && -0.01 <= batch[i].rotationSpeed < 0.01
  {
    var n := ParticleCount(h.random(0));
    seq(n, i requires 0 <= i < n => Spawn(h, i, n, colors, x, y))
  }

  /**
   * Particle `i` of a batch of `n` flies off at its own speed, between 0.3 and
   * 0.8, along the angle `2πi/n` plus its jitter.
   */
  lemma BurstVelocity(h: Host, colors: seq<string>, x: real, y: real, i: nat)
    requires RandomInUnit(h) && |colors| == 3 && i < |Burst(h, colors, x, y)|
    ensures var batch := Burst(h, colors, x, y);
            var speed := Speed(h.random(DrawIndex(i, SpeedDraw)));
            && 0.3 <= speed < 0.8
            && batch[i].vx == h.cos(Angle(h, i, |batch|)) * speed
            && batch[i].vy == h.sin(Angle(h, i, |batch|)) * speed
  {
  }

  /** The effect's state: the live particles and the palette cursor. */
  datatype Effect = Effect(particles: seq<Particle>, cursor: nat)

  /** The state when the effect mounts. */
  const Mounted: Effect := Effect([], 0)

  datatype Click = Click(clientX: real, clientY: real)
  /** The canvas's bounding rectangle in viewport coordinates. */
  datatype CanvasRect = CanvasRect(left: real, top: real)

  /**
   * `handleClick`: one palette call for three colours, then a batch of 30 to 39
   * particles appended after the existing ones, all at the click point in canvas
   * coordinates with full life, particle i coloured `colors[i mod 3]`.
   */
  function HandleClick(e: Effect, h: Host, click: Click, canvas: CanvasRect): (e': Effect)
    requires RandomInUnit(h)
    ensures e'.cursor == e.cursor + 1
    ensures |e.particles| + 30 <= |e'.particles| <= |e.particles| + 39
    ensures e'.particles[..|e.particles|] == e.particles
    ensures forall i :: |e.particles| <= i < |e'.particles| ==>
      && e'.particles[i].x == click.clientX - canvas.left
      && e'.particles[i].y == click.clientY - canvas.top
      && e'.particles[i].life == 1.0
      && e'.particles[i].color == CssRgba80(Shade(e.cursor, i - |e.particles|))
  {
    var g := CreateGradientColors(e.cursor, 3);
    var x, y := click.clientX - canvas.left, click.clientY - canvas.top;
    var batch := Burst(h, g.colors, x, y);
    BatchTakesPalette(e.cursor, g.colors, batch);
    AppendBatch(e.particles, batch, e.cursor, x, y);
    Effect(e.particles + batch, g.cursor)
  }

  /** Particle j of a batch built from one three-colour palette call has that call's colour `j mod 3`. */
  lemma BatchTakesPalette(cursor: nat, colors: seq<string>, batch: seq<Particle>)
    requires colors == CreateGradientColors(cursor, 3).colors
    requires forall j :: 0 <= j < |batch| ==> batch[j].color == colors[j % 3]
    ensures forall j :: 0 <= j < |batch| ==> batch[j].color == CssRgba80(Shade(cursor, j))
  {
    forall j | 0 <= j < |batch| ensures batch[j].color == CssRgba80(Shade(cursor, j)) {
      ResidueIsFixed(j);
    }
  }

  /** Appending a batch keeps the earlier particles in front and puts batch particle j at index `|prior| + j`. */
  lemma AppendBatch(prior: seq<Particle>, batch: seq<Particle>, cursor: nat, x: real, y: real)
    requires forall j :: 0 <= j < |batch| ==>
      && batch[j].x == x && batch[j].y == y && batch[j].life == 1.0
      && batch[j].color == CssRgba80(Shade(cursor, j))
    ensures (prior + batch)[..|prior|] == prior
    ensures forall i :: |prior| <= i < |prior + batch| ==>
      && (prior + batch)[i].x == x && (prior + batch)[i].y == y && (prior + batch)[i].life == 1.0
      && (prior + batch)[i].color == CssRgba80(Shade(cursor, i - |prior|))
  {
    assert (prior + batch)[..|prior|] == prior;
    forall i | |prior| <= i < |prior + batch| ensures (prior + batch)[i] == batch[i - |prior|] {
    }
  }

  /** Taking a residue modulo 3 a second time changes nothing. */
  lemma ResidueIsFixed(j: int)
    ensures (j % 3) % 3 == j % 3
  {
    var k := j % 3;
    assert 0 <= k < 3;
    if k == 0 {} else if k == 1 {} else {}
  }

  /** Two clicks before any frame: both batches are kept, and they use consecutive colour sets. */
  lemma TwoRapidClicks(e: Effect, h1: Host, c1: Click, h2: Host, c2: Click, canvas: CanvasRect)
    requires RandomInUnit(h1) && RandomInUnit(h2)
    ensures var e1 := HandleClick(e, h1, c1, canvas);
            var e2 := HandleClick(e1, h2, c2, canvas);
            && |e2.particles| == |e.particles| + ParticleCount(h1.random(0)) + ParticleCount(h2.random(0))
            && e2.cursor == e.cursor + 2
            && e2.particles[|e.particles|].color == CssRgba80(Shade(e.cursor, 0))
            && e2.particles[|e1.particles|].color == CssRgba80(Shade(e.cursor + 1, 0))
  {
    var e1 := HandleClick(e, h1, c1, canvas);
    var e2 := HandleClick(e1, h2, c2, canvas);
    assert e2.particles[|e.particles|] == e1.particles[|e.particles|];
  }

  /**
   * One particle's update in a frame: the position moves by the velocity it had
   * before gravity, then gravity, ageing and spin are applied.
   */
  function Step(p: Particle): (q: Particle)
    ensures q.x - p.x == p.vx && q.y - p.y == p.vy
    ensures q.vy - p.vy == Gravity && q.life - p.life == -Decay
    ensures q.rotation - p.rotation == p.rotationSpeed
    ensures q.vx == p.vx && q.color == p.color && q.size == p.size && q.rotationSpeed == p.rotationSpeed
  {
    p.(x := p.x + p.vx, y := p.y + p.vy, vy := p.vy + Gravity, life := p.life - Decay,
       rotation := p.rotation + p.rotationSpeed)
  }

  /** Every particle in the collection is alive. */
  predicate Live(ps: seq<Particle>) {
    forall i :: 0 <= i < |ps| ==> ps[i].life > 0.0
  }

  /**
   * The collection after one frame: every particle stepped, those whose life
   * dropped to zero or below removed, the rest in their original order.
   */
  function Frame(ps: seq<Particle>): (qs: seq<Particle>)
    ensures |qs| <= |ps|
  {
    if |ps| == 0 then []
    else
      var q := Step(ps[0]);
      (if q.life > 0.0 then [q] else []) + Frame(ps[1..])
  }

  /** After a frame the collection holds exactly the stepped particles that are still alive. */
  lemma {:induction false} FrameContents(ps: seq<Particle>)
    ensures Live(Frame(ps))
    ensures forall i :: 0 <= i < |ps| && Step(ps[i]).life > 0.0 ==> Step(ps[i]) in Frame(ps)
    ensures forall q :: q in Frame(ps) ==> exists i :: 0 <= i < |ps| && q == Step(ps[i])
  {
    if |ps| > 0 {
      var tail := ps[1..];
      FrameContents(tail);
      var q := Step(ps[0]);
      var head := if q.life > 0.0 then [q] else [];
      assert Frame(ps) == head + Frame(tail);
      forall i | 0 <= i < |ps| && Step(ps[i]).life > 0.0
        ensures Step(ps[i]) in Frame(ps)
      {
        if i > 0 {
          assert ps[i] == tail[i - 1];
        }
      }
      forall r | r in Frame(ps)
        ensures exists i :: 0 <= i < |ps| && r == Step(ps[i])
      {
        if r !in head {
          var j :| 0 <= j < |tail| && r == Step(tail[j]);
          assert tail[j] == ps[j + 1];
        }
      }
    }
  }

  /** A frame treats the two halves of a collection independently and keeps their order. */
  lemma {:induction false} FrameAppend(a: seq<Particle>, b: seq<Particle>)
    ensures Frame(a + b) == Frame(a) + Frame(b)
    decreases |a|
  {
    if |a| > 0 {
      assert (a + b)[1..] == a[1..] + b;
      FrameAppend(a[1..], b);
    } else {
      assert a + b == b;
    }
  }

  /**
   * `animate`'s update pass: walks the collection from the last particle to the
   * first, steps each in place and splices it out when its life has run out.
   */
  method AnimateFrame(ps: seq<Particle>) returns (out: seq<Particle>)
    ensures out == Frame(ps)
  {
    out := ps;
    var i := |ps| - 1;
    while i >= 0
      invariant -1 <= i < |ps|
      invariant out == ps[..i + 1] + Frame(ps[i + 1..])
    {
      ghost var before := out;
      var p := Step(out[i]);
      out := out[i := p];
      ghost var stepped := out;
      if p.life <= 0.0 {
        out := out[..i] + out[i + 1..];
      }
      BackwardStep(ps, i, before, stepped, out);
      i := i - 1;
    }
    assert ps[0..] == ps;
  }

  /** One iteration of the backward pass: with the suffix after `i` done, particle `i` is stepped, then kept or spliced out. */
  lemma BackwardStep(ps: seq<Particle>, i: nat, before: seq<Particle>, stepped: seq<Particle>, after: seq<Particle>)
    requires i < |ps| && before == ps[..i + 1] + Frame(ps[i + 1..])
    requires stepped == before[i := Step(before[i])]
    requires after == if stepped[i].life <= 0.0 then stepped[..i] + stepped[i + 1..] else stepped
    ensures after == ps[..i] + Frame(ps[i..])
  {
    var rest := Frame(ps[i + 1..]);
    var q := Step(ps[i]);
    assert stepped == ps[..i] + [q] + rest by {
      assert ps[..i + 1] == ps[..i] + [ps[i]];
      assert before == ps[..i] + [ps[i]] + rest;
      UpdateMiddle(ps[..i], ps[i], rest, q);
    }
    assert Frame(ps[i..]) == (if q.life > 0.0 then [q] else []) + rest by {
      FrameUnfold(ps, i);
    }
    if q.life <= 0.0 {
      assert after == ps[..i] + rest by {
        RemoveMiddle(ps[..i], q, rest);
      }
    } else {
      assert after == ps[..i] + ([q] + rest);
    }
  }

  /** `Frame` on a suffix, peeled by one particle. */
  lemma FrameUnfold(ps: seq<Particle>, i: nat)
    requires i < |ps|
    ensures Frame(ps[i..]) == (if Step(ps[i]).life > 0.0 then [Step(ps[i])] else []) + Frame(ps[i + 1..])
  {
    assert ps[i..][1..] == ps[i + 1..];
  }

  /** Overwriting the element between `a` and `b`. */
  lemma UpdateMiddle<T>(a: seq<T>, x: T, b: seq<T>, y: T)
    ensures (a + [x] + b)[|a| := y] == a + [y] + b
  {
  }

  /** Splicing out the element between `a` and `b`. */
  lemma RemoveMiddle<T>(a: seq<T>, y: T, b: seq<T>)
    ensures (a + [y] + b)[..|a|] + (a + [y] + b)[|a| + 1..] == a + b
  {
    assert (a + [y] + b)[..|a|] == a;
    assert (a + [y] + b)[|a| + 1..] == b;
  }

  /** The collection after `k` frames with no clicks. */
  function Frames(k: nat, ps: seq<Particle>): seq<Particle> {
    if k == 0 then ps else Frames(k - 1, Frame(ps))
  }

  /** Without clicks an empty collection stays empty, frame after frame. */
  lemma {:induction false} EmptyStaysEmpty(k: nat)
    ensures Frames(k, []) == []
  {
    if k > 0 {
      EmptyStaysEmpty(k - 1);
    }
  }

  /** A frame removes every particle whose life would drop to zero or below. */
  lemma {:induction false} NoneSurvive(ps: seq<Particle>)
    requires forall i :: 0 <= i < |ps| ==> ps[i].life <= Decay
    ensures Frame(ps) == []
  {
    if |ps| > 0 {
      NoneSurvive(ps[1..]);
    }
  }

  /** Particles whose life is at most `k` decay steps are all gone after `k` frames. */
  lemma {:induction false} AllExpireWithin(k: nat, ps: seq<Particle>)
    requires k >= 1
    requires forall i :: 0 <= i < |ps| ==> ps[i].life <= k as real * Decay
    ensures Frames(k, ps) == []
  {
    var qs := Frame(ps);
    if k == 1 {
      NoneSurvive(ps);
    } else {
      FrameContents(ps);
      forall j | 0 <= j < |qs| ensures qs[j].life <= (k - 1) as real * Decay {
        assert qs[j] in qs;
      }
      AllExpireWithin(k - 1, qs);
    }
  }

  /** Particles whose life exceeds `k` decay steps all survive `k` frames. */
  lemma {:induction false} NoneExpireBefore(k: nat, ps: seq<Particle>)
    requires forall i :: 0 <= i < |ps| ==> ps[i].life > k as real * Decay
    ensures |Frames(k, ps)| == |ps|
  {
    if k > 0 {
      SurvivingFrame(ps, (k - 1) as real * Decay);
      NoneExpireBefore(k - 1, Frame(ps));
    }
  }

  /** When every particle outlives this frame, a frame keeps them all and ages each by one step. */
  lemma {:induction false} SurvivingFrame(ps: seq<Particle>, floor: real)
    requires floor >= 0.0
    requires forall i :: 0 <= i < |ps| ==> ps[i].life > floor + Decay
    ensures |Frame(ps)| == |ps|
    ensures forall i :: 0 <= i < |ps| ==> Frame(ps)[i] == Step(ps[i])
    ensures forall i :: 0 <= i < |Frame(ps)| ==> Frame(ps)[i].life > floor
  {
    if |ps| > 0 {
      SurvivingFrame(ps[1..], floor);
    }
  }

  /** A fresh batch (life 1) lives through 999 frames intact and is gone after the 1000th. */
  lemma {:induction false} FreshBatchLifetime(ps: seq<Particle>)
    requires forall i :: 0 <= i < |ps| ==> ps[i].life == 1.0
    ensures |Frames(999, ps)| == |ps|
    ensures Frames(1000, ps) == []
  {
    NoneExpireBefore(999, ps);
    AllExpireWithin(1000, ps);
  }
}
