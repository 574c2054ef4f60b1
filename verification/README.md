# Portfolio site: the decision rules behind the pages

A model of the small, deterministic pieces of logic inside the React components
of a personal portfolio site. Each piece is shown here with the DOM, canvas,
timer and random-number calls replaced by parameters.

- **Firework** (`FireworkEffect`): the click-triggered particle burst.
  - A round-robin palette over four colour sets, each colour rewritten from `rgb(...)` to `rgba(..., 0.8)`.
  - A batch emitter that spawns 30 to 39 particles per click.
  - The per-frame physics step, which moves, ages and removes particles. The removal is an in-place backward `splice` loop.
- **Carousel** (the About page sliders):
  - next/previous rotation modulo the slide count;
  - the drag-release swipe rule;
  - the progress dots;
  - per-slider independence;
  - the `/images/<prefix><id>.jpg` / `.gif` image paths.
- **ImageGrid** and **RowStyle** (`JustifiedImageGrid`): images are broken greedily into rows at a target height of 300 px. Each row is then scaled so that its images span the container width.
- **SectionScan**, **ProjectBloom**, **ProjectRidEase** and **ProjectLearningForGood**: the case-study pages.
  - A `handleScroll` walks the `section[id]` elements in document order and highlights the last one whose window holds the probe point.
  - The pages differ in three ways: the window's bounds, its lift above the section, and what happens when nothing matches.
  - A `scrollToSection` click handler asks the window to scroll.
  - **ScrollRules** sets the three pages side by side on the boundary between two adjoining sections.
- **Navigation**: the site header. It becomes opaque past 20 px of scroll. On the home page it highlights the first of `hero`, `about` and `projects` that straddles the line 100 px below the top of the viewport.
- **Text** and **Options**: helpers.
  - JavaScript's `String.prototype.replace` with a string pattern (first occurrence only).
  - Decimal rendering of numbers, with its inverse.
  - An option type.

Modelling choices:
- Positions, widths, offsets and `life` are Dafny `real`s.
- `Math.random` is the stream `random(k)` of one click's draws, each in [0, 1). Draw 0 picks the batch size; then each particle takes five draws in source order.
- `Math.cos`, `Math.sin` and `Math.PI` are the host parameters `cos`, `sin` and `pi`.
- DOM measurements are inputs: `offsetTop`, `offsetHeight`, bounding rectangles, `naturalWidth`/`naturalHeight`, `clientWidth`, `scrollY` and `innerHeight`. A lookup by id that may find nothing is a `map` or a `set` of ids.

Facts about the particle effect the model keeps:
- Speed and size come from `Math.random()` in [0, 1), so they lie in the half-open ranges [0.3, 0.8) and [1, 3).
- Each frame steps every particle, then draws it, then splices it out when its life is at most 0. A particle is therefore still drawn in the frame its life reaches 0 or below, before it is removed. Drawing is not modelled; `Frame` removes the particle in that same frame.
- The palette returns no colours for a count of 0 or less and still advances the cursor, and `CreateGradientColors` does the same.

## Model

| member | source | states |
|---|---|---|
| Firework.ToRgbaOfPaletteColor | src/components/FireworkEffect.tsx:53 | Rewriting any palette colour `rgb(r, g, b)` with the two first-occurrence replaces gives exactly `rgba(r, g, b, 0.8)`. The first `)` is the closing one, because the decimal channels hold none. |
| Firework.ToRgbaOfRgb | src/components/FireworkEffect.tsx:53 | For any `rgb(` text whose body holds no `)`, the two replaces add an alpha of 0.8 and keep the body unchanged. |
| Firework.CreateGradientColors | src/components/FireworkEffect.tsx:36-57 | One palette call returns `max(count, 0)` colours. Colour i is colour `i mod 3` of set `cursor mod 4`, at alpha 0.8. The cursor advances by exactly one whatever `count` is. |
| Firework.KthCallShape | src/components/FireworkEffect.tsx:49-50 | Over a run of palette calls, the k-th call (from 0) leaves the cursor at `cursor + k + 1` and returns as many colours as it was asked for. |
| Firework.KthCallUsesSetKMod4 | src/components/FireworkEffect.tsx:49-56 | Colour i of the k-th call is colour `i mod 3` of set `(cursor + k) mod 4`. |
| Firework.MountedCallsCycleSets | src/components/FireworkEffect.tsx:49-50 | Starting from mount (cursor 0), the k-th call uses colour set `k mod 4` and leaves the cursor at `k + 1`. |
| Firework.ParticleCount | src/components/FireworkEffect.tsx:65 | For a random value in [0, 1), `30 + floor(10r)` lies in 30..39. |
| Firework.Speed | src/components/FireworkEffect.tsx:68 | For a random value in [0, 1), the speed lies in [0.3, 0.8). |
| Firework.Size | src/components/FireworkEffect.tsx:70 | For a random value in [0, 1), the size lies in [1, 3). |
| Firework.RotationSpeed | src/components/FireworkEffect.tsx:86 | For a random value in [0, 1), the spin lies in [-0.01, 0.01). |
| Firework.Burst | src/components/FireworkEffect.tsx:65-88 | A batch has 30 to 39 particles, its size set by the first draw. Every particle starts at the click point with life 1. Particle i takes `colors[i mod 3]`. Sizes lie in [1, 3) and spins in [-0.01, 0.01). |
| Firework.BurstVelocity | src/components/FireworkEffect.tsx:67-81 | Particle i of a batch of n moves at its own speed, in [0.3, 0.8), along the angle `2πi/n` plus its jitter. |
| Firework.HandleClick | src/components/FireworkEffect.tsx:60-89 | A click advances the palette cursor by one and keeps the existing particles in front. It appends 30 to 39 new ones, all at the click point less the canvas offset, with life 1. New particle j has colour `j mod 3` of the cursor's set. |
| Firework.BatchTakesPalette | src/components/FireworkEffect.tsx:61-69 | When particle j takes `colors[j mod 3]` from one three-colour palette call, its colour is colour `j mod 3` of that call's set at alpha 0.8. |
| Firework.TwoRapidClicks | src/components/FireworkEffect.tsx:60-89 | Two clicks with no frame between them keep both batches, in order. They advance the cursor by two, and the two batches open with the first colour of consecutive sets. |
| Firework.Step | src/components/FireworkEffect.tsx:99-103 | One frame moves a particle by its pre-gravity velocity. It adds 0.01 to `vy`, takes 0.001 from `life` and adds the spin to the rotation. `vx`, colour, size and spin are unchanged. |
| Firework.Frame | src/components/FireworkEffect.tsx:94-132 | A frame never adds particles. |
| Firework.FrameContents | src/components/FireworkEffect.tsx:97-131 | After a frame, every remaining particle is alive and is a stepped particle from before. Every stepped particle that is still alive remains. |
| Firework.FrameAppend | src/components/FireworkEffect.tsx:97-131 | A frame handles the two halves of a collection independently and keeps their relative order. |
| Firework.AnimateFrame | src/components/FireworkEffect.tsx:97-132 | The backward in-place pass computes exactly `Frame`. It steps every particle and splices out those whose post-decrement life is at most 0, keeping the order of the rest. |
| Firework.BackwardStep | src/components/FireworkEffect.tsx:97-131 | One iteration of the backward pass extends the processed suffix by one particle. |
| Firework.EmptyStaysEmpty | src/components/FireworkEffect.tsx:94-132 | With no clicks, an empty collection stays empty frame after frame. |
| Firework.NoneSurvive | src/components/FireworkEffect.tsx:102-131 | Particles with life at most 0.001 are all removed by the next frame. |
| Firework.AllExpireWithin | src/components/FireworkEffect.tsx:102-131 | Particles with life at most `k * 0.001` are all gone after k frames. |
| Firework.NoneExpireBefore | src/components/FireworkEffect.tsx:102-131 | Particles with life above `k * 0.001` all survive k frames. |
| Firework.SurvivingFrame | src/components/FireworkEffect.tsx:97-131 | When every particle outlives the frame, the frame keeps them all, each stepped in place. |
| Firework.FreshBatchLifetime | src/components/FireworkEffect.tsx:83-131 | A fresh batch (life 1) is intact after 999 frames and gone after the 1000th, in exact arithmetic. |
| Text.ReplaceFirst | src/components/FireworkEffect.tsx:53 | `replace` with a string pattern, and a replacement holding no `$` patterns, replaces the first occurrence only. It returns the text unchanged when the pattern does not occur. |
| Text.NatToString | src/pages/About.tsx:270 | The decimal rendering of a slide id is a non-empty run of digits, one digit long exactly below 10. |
| Text.ParseNatToString | src/pages/About.tsx:270 | Reading back the rendered decimal gives the number. |
| Text.NatToStringInjective | src/pages/About.tsx:270 | Different ids render to different strings. |
| Carousel.JsRem | src/pages/About.tsx:123 | JavaScript's `%` agrees with the mathematical remainder on non-negative operands. It is non-positive for negative ones. |
| Carousel.Next | src/pages/About.tsx:122-309 | `(i + 1) % n` stays in [0, n), counts up below the last slide, and wraps the last slide to 0. |
| Carousel.Prev | src/pages/About.tsx:126-310 | `(i - 1 + n) % n` stays in [0, n), counts down above 0, and wraps 0 to the last slide. |
| Carousel.NextPrevInverse | src/pages/About.tsx:122-128 | Next undoes previous and previous undoes next on every valid index. |
| Carousel.RotateCompose | src/pages/About.tsx:122-124 | a presses of next followed by b presses are a + b presses. |
| Carousel.RotateCountsUp | src/pages/About.tsx:122-124 | Below the last slide, k presses of next add k. |
| Carousel.FullTurn | src/pages/About.tsx:122-124 | n presses of next bring every slide back to itself. |
| Carousel.Release | src/pages/About.tsx:242-248 | A drag released beyond -50 px advances and one beyond 50 px goes back. Anything in [-50, 50] stays: each case holds if and only if its condition does. |
| Carousel.OppositeSwipesCancel | src/pages/About.tsx:242-248 | A long swipe one way followed by one the other way returns to the start. A short drag changes nothing. |
| Carousel.Dots | src/pages/About.tsx:286-294 | A slider with n slides has exactly n dots, and the dot values are exactly 0..n-1. |
| Carousel.WithIndex | src/pages/About.tsx:130-171 | Setting one slider's index leaves every other slider, and the unused research index, unchanged. |
| Carousel.Apply | src/pages/About.tsx:130-171 | A handler changes only the slider it belongs to. Dot k sets that slider to exactly k. A short drag changes nothing. |
| Carousel.ApplyKeepsWellFormed | src/pages/About.tsx:286-319 | Next, previous, drag release and a dot click keep every index in range. |
| Carousel.ApplyAllKeepsWellFormed | src/pages/About.tsx:308-319 | Any sequence of user actions keeps every slider index in range. |
| Carousel.ReachableWellFormed | src/pages/About.tsx:42-48 | Every slider starts at slide 0, which is in range, so every board reachable by user actions has every index in range. |
| Carousel.ImagePaths | src/pages/About.tsx:189-277 | The picture path is `/images/` + prefix + id + `.jpg`, and the fallback differs only in `.gif`. The default prefix is `la`. The id can be read back from either path. |
| Carousel.PathParts | src/pages/About.tsx:270-277 | An image path splits into `/images/`, the prefix, the slide number and a four-character extension. |
| Carousel.DistinctSlidesDistinctImages | src/pages/About.tsx:270-277 | Two different slide ids of one slider never share a picture or a fallback. |
| Carousel.SlideIds | src/pages/About.tsx:62-109 | Each slider has as many slide ids as its data list has entries. |
| Carousel.NewSlideNewImage | src/pages/About.tsx:269-278 | On a rendered slider, any action that changes the index changes the picture shown. |
| ImageGrid.WidthAtTarget | src/components/JustifiedImageGrid.tsx:23-24 | An image's width at height 300 is never negative. |
| ImageGrid.Run | src/components/JustifiedImageGrid.tsx:19-42 | The running width the pass keeps is always the unscaled width of the open row. |
| ImageGrid.GreedyMeetsBreaks | src/components/JustifiedImageGrid.tsx:19-42 | The rows meet the line-breaking rule. Concatenated, they are the images in order. Only the first row may be empty. Each image joins its row exactly when the row plus the image fits. Every row ends exactly where the next row's first image would overflow. |
| ImageGrid.BreaksDetermineRows | src/components/JustifiedImageGrid.tsx:19-42 | Any row split that meets the line-breaking rule is the pass's: the rule fixes the rows uniquely. |
| ImageGrid.CrowdedRowsFit | src/components/JustifiedImageGrid.tsx:26-40 | A row with two or more images, and each image in it, is no wider than the container. An image wider than the container is alone in its row. |
| ImageGrid.EmptyFirstRow | src/components/JustifiedImageGrid.tsx:26-37 | The pass flushes an empty first row exactly when the first image is wider than the container. |
| ImageGrid.JoinedRun | src/components/JustifiedImageGrid.tsx:38-41 | An image that fits beside the open row joins it. |
| ImageGrid.FlushedRun | src/components/JustifiedImageGrid.tsx:26-37 | An image that does not fit flushes the open row and opens a new row holding just itself. |
| RowStyle.StyleRow | src/components/JustifiedImageGrid.tsx:29-34 | Flushing a row styles exactly its images, each at height 300. An empty row styles nothing. |
| RowStyle.RowWidthIsSum | src/components/JustifiedImageGrid.tsx:20-40 | The running row width equals the sum of the images' widths at height 300. |
| RowStyle.WidthAt | src/components/JustifiedImageGrid.tsx:28-49 | With total width W > 0, the image of width w at height 300 is styled `w * (C / W)` px. This is `300 * aspect * scale`. |
| RowStyle.WidthsFill | src/components/JustifiedImageGrid.tsx:28-52 | When the widths sum to W > 0, the scaled widths sum to the container width C. |
| RowStyle.RowFillsContainer | src/components/JustifiedImageGrid.tsx:28-52 | Every flushed row of positive width, the last row included, has styled widths summing to the container width. |
| RowStyle.ScaledSum | src/components/JustifiedImageGrid.tsx:28-31 | Scaling every width by one factor scales their total by that factor. |
| RowStyle.ZeroWidthRow | src/components/JustifiedImageGrid.tsx:28 | A row has zero width exactly when every image in it has natural width 0. That is the case in which the scale divides by zero. |
| RowStyle.Layout | src/components/JustifiedImageGrid.tsx:12-53 | A resize styles every image exactly once, each at height 300. |
| SectionScan.LastHit | src/pages/ProjectBloom.tsx:61-70 | The pass over the sections returns the starting choice or the id of a section whose window holds the probe. |
| SectionScan.LastHitIsLast | src/pages/ProjectRidEase.tsx:20-29 | With no hit, the pass returns the starting choice. Otherwise it returns the id of the last section, in document order, that is hit. Sections with an empty id never hit. |
| SectionScan.HitForgetsStart | src/pages/ProjectLearningForGood.tsx:22-34 | When some section is hit, the starting choice does not affect the result. |
| SectionScan.LastHitAt | src/pages/ProjectBloom.tsx:61-70 | A hit section with no later hit decides the pass. |
| SectionScan.StackedPick | src/pages/ProjectBloom.tsx:61-70 | On a page whose sections do not overlap, a probe in section i's window more than the lift above its bottom selects section i. |
| ProjectBloom.HandleScroll | src/pages/ProjectBloom.tsx:55-73 | The header flag holds exactly when `scrollY > 50`. The highlight is the last section whose half-open window `[top-150, top-150+height)` holds the position, or `overview` when none does. The result is `overview` or the non-empty id of a section. |
| SectionScan.HighlightAndScroll | src/pages/ProjectBloom.tsx:79-92 | For an existing element, the click highlights it and scrolls to its document position less 100. For a missing one it does nothing. Learning for Good's handler (src/pages/ProjectLearningForGood.tsx:43-56) follows the same rule; it only sets the highlight before the scroll instead of after. |
| ProjectBloom.ClickedSectionStaysActive | src/pages/ProjectBloom.tsx:55-92 | Clicking a stacked section taller than 50 px highlights it and requests a scroll to `offsetTop - 100`. The next scroll event at that position keeps the same section highlighted. |
| ProjectRidEase.HandleScroll | src/pages/ProjectRidEase.tsx:13-30 | The header flag holds exactly when `scrollY > 50`. The highlight becomes the last section whose window `(top-100, top-100+height]` holds the position. With none, the previous highlight is kept. |
| ProjectRidEase.ScrollToSection | src/pages/ProjectRidEase.tsx:36-41 | The click never changes the page state. It requests `scrollIntoView` exactly when the element exists. |
| ProjectRidEase.ClickedSectionBecomesActive | src/pages/ProjectRidEase.tsx:13-41 | Clicking an existing stacked section taller than 100 px requests `scrollIntoView` for it. Once that lands the section's top at the top of the viewport, the next scroll event highlights it. |
| ProjectLearningForGood.HandleScroll | src/pages/ProjectLearningForGood.tsx:15-37 | The header flag holds exactly when `scrollY > 50`. The highlight is the last section whose closed window `[top-100, top-100+height]` holds `scrollY + innerHeight/2`. With none, the previous highlight is kept. |
| ProjectLearningForGood.ClickedSectionStaysActive | src/pages/ProjectLearningForGood.tsx:15-56 | Clicking a stacked section taller than half the viewport highlights it and requests a scroll to `offsetTop - 100`. The next scroll event at that position keeps it highlighted. |
| ScrollRules.BloomBoundaryGoesDown | src/pages/ProjectBloom.tsx:67 | On the boundary of two adjoining sections, Bloom's half-open windows highlight the later section. |
| ScrollRules.RidEaseBoundaryStaysUp | src/pages/ProjectRidEase.tsx:26 | On the same boundary, RidEase's windows, open below and closed above, highlight the earlier section. |
| ScrollRules.LearningForGoodBoundaryGoesDown | src/pages/ProjectLearningForGood.tsx:30-32 | On the boundary, both of Learning for Good's closed windows hold the probe, and the later section wins. |
| ScrollRules.NoMatchFallbacks | src/pages/ProjectBloom.tsx:60-72 | With no section carrying an id, Bloom falls back to `overview` while the other two pages keep the previous highlight. |
| Navigation.Find | src/components/Navigation.tsx:18-24 | A found id is one of the candidates, and its element exists and straddles the line. |
| Navigation.FindIsFirst | src/components/Navigation.tsx:17-24 | `find` returns nothing exactly when no candidate straddles the line. Otherwise it returns the first candidate that does. Missing elements are skipped. |
| Navigation.HandleScroll | src/components/Navigation.tsx:9-29 | The header flag holds exactly when `scrollY > 20`. Off the home page `/` the highlight is kept. On it, the highlight becomes the first home section, in the order hero, about, projects, that straddles the line. With none, the highlight is kept. |
| Navigation.StackedHighlightsCrossing | src/components/Navigation.tsx:17-28 | When the home sections do not overlap, a straddling section is the one highlighted. |

The initial states are constants:
- Bloom starts at `overview` (src/pages/ProjectBloom.tsx:19).
- RidEase starts at `student-journey` (src/pages/ProjectRidEase.tsx:8).
- Learning for Good starts at `overview` (src/pages/ProjectLearningForGood.tsx:12).
- The header starts at `hero` (src/components/Navigation.tsx:7).

## Left out

- Canvas drawing in `animate` is not modelled because it is rendering only: `clearRect`, save/translate/rotate, the star-or-circle choice and its random draw, fill and `globalAlpha`.
- The emission angle and velocity are not computed: `Math.cos`, `Math.sin` and `Math.PI` are host parameters, and `BurstVelocity` states the velocity in terms of them.
- IEEE-754 arithmetic is not modelled: all values are exact reals, so the frame on which a float `life` first drops to 0 or below can differ from `FreshBatchLifetime`'s count.
- Firework.CreateGradientColors: the cursor is an unbounded `nat`; the source's number stops counting exactly past 2^53 calls.
- `requestAnimationFrame`, the `setInterval` autoplay timers, event-listener registration and teardown, canvas resizing and the `IntersectionObserver` visibility switch are left out: they are host-runtime lifecycle.
- The main slider (`sliderData`) has handlers but no slider renders it, so it has no image prefix in the model; its next/previous handlers are modelled.
- DOM measurement and smooth scrolling are left out; the measured values are inputs.
- Images are assumed loaded (natural height above 0). An image not yet loaded has natural height 0, so its width at height 300 is `NaN`. That `NaN` joins the open row, and every later fit test with it is false, so no later row break happens. The model covers only the case where every image has loaded.
- The styled width of an image in a zero-width row is `NaN`, and that is all the model says about it.
- Layout determinism needs no lemma: `Rows` and `Layout` are functions of the container width and the natural sizes alone.
- RowStyle.WidthAt: the per-image width `300 * aspect * C / rowWidth` is stated on the row's width list, which `Widths` and `RowWidthIsSum` connect to the row; there is no separate per-row form.
- The `window.scrollTo(0, 0)` on mount of Bloom (src/pages/ProjectBloom.tsx:23) and RidEase (src/pages/ProjectRidEase.tsx:11) is left out, because it is a lifecycle step.
- The pages read `window.scrollY` for the header flag and `window.pageYOffset` for the scan. Browsers keep these equal, so the model uses one value.
- ProjectBloom.ClickedSectionStaysActive: requires the clicked element's document top, its viewport top plus `pageYOffset`, to equal its `offsetTop`, which holds when its offset parent is the document.
- ProjectLearningForGood.ClickedSectionStaysActive: requires the same equality of document top and `offsetTop`.
- ProjectRidEase.ClickedSectionBecomesActive: takes `scrollIntoView` to land the page at `scrollY == offsetTop`; smooth scrolling itself is not modelled.
- Learning for Good re-registers its scroll listener whenever the highlight changes, so each event sees the current highlight; the model passes that highlight in.
