/**
 * The justified photo grid: images are laid out greedily in rows at a target
 * height of 300 px, and each row is then rescaled so that it spans the
 * container exactly.
 */
module ImageGrid {

  /** An image's intrinsic size in pixels. */
  datatype Image = Image(naturalWidth: nat, naturalHeight: nat)

  /** An image that has loaded, so its aspect ratio is defined. */
  type LoadedImage = img: Image | img.naturalHeight > 0 witness Image(0, 1)

  /** The height every row is laid out at and finally styled with. */
  const TargetHeight: real := 300.0

  /** `targetHeight * (naturalWidth / naturalHeight)`: the image's width at the target height. */
  function WidthAtTarget(img: LoadedImage): (w: real)
    ensures w >= 0.0
  {
    TargetHeight * (img.naturalWidth as real / img.naturalHeight as real)
  }

  /** The unscaled width of a row: its images side by side at the target height. */
  function RowWidth(row: seq<LoadedImage>): (w: real)
    ensures w >= 0.0
  {
    if |row| == 0 then 0.0 else RowWidth(row[..|row| - 1]) + WidthAtTarget(row[|row| - 1])
  }

  type Row = seq<LoadedImage>

  /** The rows laid end to end. */
  function Flatten(rows: seq<Row>): seq<LoadedImage> {
    if |rows| == 0 then [] else Flatten(rows[..|rows| - 1]) + rows[|rows| - 1]
  }

  /** The state of the pass over the images: the rows already flushed, the row being filled, and its width. */
  datatype Pass = Pass(done: seq<Row>, row: Row, width: real)

  /**
   * One step of the pass: when the image does not fit beside the current row,
   * the row is flushed (even an empty one) and the image starts the next row;
   * otherwise it joins the current row.
   */
  function Place(st: Pass, img: LoadedImage, containerWidth: nat): Pass {
    var w := WidthAtTarget(img);
    if st.width + w > containerWidth as real then Pass(st.done + [st.row], [img], w)
    else Pass(st.done, st.row + [img], st.width + w)
  }

  /** The pass over `images` in document order. */
  function Run(images: seq<LoadedImage>, containerWidth: nat): (st: Pass)
    ensures st.width == RowWidth(st.row)
  {
    if |images| == 0 then Pass([], [], 0.0)
    else
      var prior := Run(images[..|images| - 1], containerWidth);
      var img := images[|images| - 1];
      assert (prior.row + [img])[..|prior.row|] == prior.row;
      assert [img][..0] == [];
      Place(prior, img, containerWidth)
  }

  /** Every row the pass produces: the flushed ones followed by the row still open at the end. */
  function Rows(images: seq<LoadedImage>, containerWidth: nat): seq<Row> {
    var st := Run(images, containerWidth);
    st.done + [st.row]
  }

  /** The unscaled width of the row's first `j + 1` images. */
  function PrefixWidth(row: Row, j: nat): real
    requires j < |row|
  {
    RowWidth(row[..j + 1])
  }

  /** From index `from` on, every prefix of the row fits in the container. */
  predicate Fits(row: Row, from: nat, containerWidth: nat) {
    forall j :: from <= j < |row| ==> PrefixWidth(row, j) <= containerWidth as real
  }

  /** The image that opens row `k` is checked against the width the pass starts that row from: 0 for the first row. */
  function Start(k: nat): nat {
    if k == 0 then 0 else 1
  }

  /** `next` is non-empty and its first image does not fit beside `row`. */
  predicate Overflows(row: Row, next: Row, containerWidth: nat) {
    |next| > 0 && RowWidth(row) + WidthAtTarget(next[0]) > containerWidth as real
  }

  /** Only the first row may be empty. */
  predicate TailNonEmpty(rows: seq<Row>) {
    forall k :: 1 <= k < |rows| ==> |rows[k]| > 0
  }

  /** Within every row, each image after the one that opened it fit beside the images before it. */
  predicate RowsFit(rows: seq<Row>, containerWidth: nat) {
    forall k :: 0 <= k < |rows| ==> Fits(rows[k], Start(k), containerWidth)
  }

  /** Every row ends because the next row's first image would overflow it. */
  predicate BreaksForced(rows: seq<Row>, containerWidth: nat) {
    forall k :: 0 <= k < |rows| - 1 ==> Overflows(rows[k], rows[k + 1], containerWidth)
  }

  /**
   * The line-breaking rule, stated without the pass: the rows hold the images
   * in order; only the first row may be empty; an image joins a row exactly
   * when the row plus that image fits (the first row starts from width 0, so
   * its first image must fit too); and a row ends exactly where adding the next
   * row's first image would overflow.
   */
  predicate GreedyBreaks(images: seq<LoadedImage>, containerWidth: nat, rows: seq<Row>) {
    && |rows| >= 1
    && Flatten(rows) == images
    && TailNonEmpty(rows)
    && RowsFit(rows, containerWidth)
    && BreaksForced(rows, containerWidth)
  }

  /** How each part of the rule splits over the last row. */
  lemma {:induction false} SnocRow(rows: seq<Row>, r: Row, containerWidth: nat)
    ensures Flatten(rows + [r]) == Flatten(rows) + r
    ensures TailNonEmpty(rows + [r]) <==> TailNonEmpty(rows) && (|rows| >= 1 ==> |r| > 0)
    ensures RowsFit(rows + [r], containerWidth) <==> RowsFit(rows, containerWidth) && Fits(r, Start(|rows|), containerWidth)
    ensures BreaksForced(rows + [r], containerWidth) <==>
      BreaksForced(rows, containerWidth) && (|rows| >= 1 ==> Overflows(rows[|rows| - 1], r, containerWidth))
  {
    var all := rows + [r];
    assert all[..|rows|] == rows;
    SnocTailNonEmpty(rows, r);
    SnocRowsFit(rows, r, containerWidth);
    SnocBreaksForced(rows, r, containerWidth);
  }

  lemma SnocTailNonEmpty(rows: seq<Row>, r: Row)
    ensures TailNonEmpty(rows + [r]) <==> TailNonEmpty(rows) && (|rows| >= 1 ==> |r| > 0)
  {
    var all := rows + [r];
    if TailNonEmpty(all) {
      forall k | 1 <= k < |rows| ensures |rows[k]| > 0 {
        assert all[k] == rows[k];
      }
      assert all[|rows|] == r;
    }
  }

  lemma SnocRowsFit(rows: seq<Row>, r: Row, containerWidth: nat)
    ensures RowsFit(rows + [r], containerWidth) <==> RowsFit(rows, containerWidth) && Fits(r, Start(|rows|), containerWidth)
  {
    var all := rows + [r];
    if RowsFit(all, containerWidth) {
      forall k | 0 <= k < |rows| ensures Fits(rows[k], Start(k), containerWidth) {
        assert all[k] == rows[k];
      }
      assert all[|rows|] == r;
    }
  }

  lemma SnocBreaksForced(rows: seq<Row>, r: Row, containerWidth: nat)
    ensures BreaksForced(rows + [r], containerWidth) <==>
      BreaksForced(rows, containerWidth) && (|rows| >= 1 ==> Overflows(rows[|rows| - 1], r, containerWidth))
  {
    var all := rows + [r];
    if BreaksForced(all, containerWidth) {
      forall k | 0 <= k < |rows| - 1 ensures Overflows(rows[k], rows[k + 1], containerWidth) {
        assert all[k] == rows[k] && all[k + 1] == rows[k + 1];
      }
      if |rows| >= 1 {
        assert all[|rows| - 1] == rows[|rows| - 1] && all[|rows|] == r;
      }
    }
  }

  lemma {:induction false} RowWidthSnoc(row: Row, img: LoadedImage)
    ensures RowWidth(row + [img]) == RowWidth(row) + WidthAtTarget(img)
  {
    assert (row + [img])[..|row|] == row;
  }

  /** Adding an image that fits beside a row keeps the row fitting. */
  lemma {:induction false} FitsExtend(row: Row, from: nat, img: LoadedImage, containerWidth: nat)
    requires Fits(row, from, containerWidth)
    requires RowWidth(row) + WidthAtTarget(img) <= containerWidth as real
    ensures Fits(row + [img], from, containerWidth)
  {
    var r := row + [img];
    forall j | from <= j < |r| ensures PrefixWidth(r, j) <= containerWidth as real {
      if j < |row| {
        assert r[..j + 1] == row[..j + 1];
        assert PrefixWidth(row, j) <= containerWidth as real;
      } else {
        assert r[..j + 1] == r;
        RowWidthSnoc(row, img);
      }
    }
  }

  /** A row with its last image dropped still fits. */
  lemma FitsTrim(row: Row, from: nat, containerWidth: nat)
    requires |row| > 0 && Fits(row, from, containerWidth)
    ensures Fits(row[..|row| - 1], from, containerWidth)
  {
    var r := row[..|row| - 1];
    forall j | from <= j < |r| ensures PrefixWidth(r, j) <= containerWidth as real {
      assert r[..j + 1] == row[..j + 1];
      assert PrefixWidth(row, j) <= containerWidth as real;
    }
  }

  /** The pass over the images plus one more is one more `Place`. */
  lemma {:induction false} RunSnoc(prefix: seq<LoadedImage>, img: LoadedImage, containerWidth: nat)
    ensures Run(prefix + [img], containerWidth) == Place(Run(prefix, containerWidth), img, containerWidth)
  {
    assert (prefix + [img])[..|prefix|] == prefix;
  }

  /** The greedy pass obeys the line-breaking rule. */
  lemma {:induction false} GreedyMeetsBreaks(images: seq<LoadedImage>, containerWidth: nat)
    ensures GreedyBreaks(images, containerWidth, Rows(images, containerWidth))
  {
    if |images| == 0 {
      SnocRow([], [], containerWidth);
    } else {
      var prefix := images[..|images| - 1];
      var img := images[|images| - 1];
      assert images == prefix + [img];
      GreedyMeetsBreaks(prefix, containerWidth);
      RunSnoc(prefix, img, containerWidth);
      PlaceKeepsBreaks(prefix, img, containerWidth);
    }
  }

  /** One step of the pass keeps the rule: flushing a row is a forced break, and joining a row fits. */
  lemma {:induction false} PlaceKeepsBreaks(prefix: seq<LoadedImage>, img: LoadedImage, containerWidth: nat)
    requires GreedyBreaks(prefix, containerWidth, Rows(prefix, containerWidth))
    ensures var st := Place(Run(prefix, containerWidth), img, containerWidth);
            GreedyBreaks(prefix + [img], containerWidth, st.done + [st.row])
  {
    var st := Run(prefix, containerWidth);
    if st.width + WidthAtTarget(img) > containerWidth as real {
      FlushKeepsBreaks(prefix, st, img, containerWidth);
    } else {
      JoinKeepsBreaks(prefix, st, img, containerWidth);
    }
  }

  lemma FlushKeepsBreaks(prefix: seq<LoadedImage>, st: Pass, img: LoadedImage, containerWidth: nat)
    requires GreedyBreaks(prefix, containerWidth, st.done + [st.row]) && st.width == RowWidth(st.row)
    requires st.width + WidthAtTarget(img) > containerWidth as real
    ensures GreedyBreaks(prefix + [img], containerWidth, st.done + [st.row] + [[img]])
  {
    var rows0 := st.done + [st.row];
    assert rows0[|rows0| - 1] == st.row;
    assert Fits([img], 1, containerWidth);
    SnocRow(rows0, [img], containerWidth);
  }

  lemma JoinKeepsBreaks(prefix: seq<LoadedImage>, st: Pass, img: LoadedImage, containerWidth: nat)
    requires GreedyBreaks(prefix, containerWidth, st.done + [st.row]) && st.width == RowWidth(st.row)
    requires st.width + WidthAtTarget(img) <= containerWidth as real
    ensures GreedyBreaks(prefix + [img], containerWidth, st.done + [st.row + [img]])
  {
    var c := containerWidth;
    SnocRow(st.done, st.row, c);
    var K := |st.done|;
    var last := st.row + [img];
    FitsExtend(st.row, Start(K), img, c);
    if K >= 1 {
      assert last[0] == st.row[0];
    }
    SnocRow(st.done, last, c);
  }

  /** Every row sequence obeying the line-breaking rule is the one the greedy pass builds. */
  lemma {:induction false} BreaksDetermineRows(images: seq<LoadedImage>, containerWidth: nat, rows: seq<Row>)
    requires GreedyBreaks(images, containerWidth, rows)
    ensures rows == Rows(images, containerWidth)
    decreases |images|, 2
  {
    var K := |rows| - 1;
    var L := rows[K];
    var init := rows[..K];
    assert rows == init + [L];
    SnocRow(init, L, containerWidth);
    if |images| == 0 {
      assert |L| == 0;
      assert K == 0;
    } else if |L| >= 2 || K == 0 {
      LastRowJoined(images, containerWidth, rows);
    } else {
      LastRowFlushed(images, containerWidth, rows);
    }
  }

  /** The last image joined the last row: the rows without it are the pass over the other images. */
  lemma {:induction false} LastRowJoined(images: seq<LoadedImage>, containerWidth: nat, rows: seq<Row>)
    requires GreedyBreaks(images, containerWidth, rows) && |images| > 0
    requires |rows[|rows| - 1]| >= 2 || |rows| == 1
    ensures rows == Rows(images, containerWidth)
    decreases |images|, 1
  {
    var c := containerWidth;
    var K := |rows| - 1;
    var L := rows[K];
    var init := rows[..K];
    var n := |images|;
    var prefix := images[..n - 1];
    var img := images[n - 1];
    JoinedPrefix(images, c, rows);
    var trimmed := L[..|L| - 1];
    JoinedRun(prefix, img, c, init, trimmed);
    assert images == prefix + [img];
    assert rows == init + [L];
  }

  /** The rows with the last image dropped from the last row are the pass over the other images. */
  lemma {:induction false} JoinedPrefix(images: seq<LoadedImage>, containerWidth: nat, rows: seq<Row>)
    requires GreedyBreaks(images, containerWidth, rows) && |images| > 0
    requires |rows[|rows| - 1]| >= 2 || |rows| == 1
    ensures var L := rows[|rows| - 1];
            && |L| > 0
            && L == L[..|L| - 1] + [images[|images| - 1]]
            && Rows(images[..|images| - 1], containerWidth) == rows[..|rows| - 1] + [L[..|L| - 1]]
            && RowWidth(L[..|L| - 1]) + WidthAtTarget(images[|images| - 1]) <= containerWidth as real
    decreases |images|, 0
  {
    TrimLastRow(images, containerWidth, rows);
    var L := rows[|rows| - 1];
    BreaksDetermineRows(images[..|images| - 1], containerWidth, rows[..|rows| - 1] + [L[..|L| - 1]]);
  }

  /** When the pass over `prefix` ends with `trimmed` open and the next image fits beside it, the image joins that row. */
  lemma {:induction false} JoinedRun(prefix: seq<LoadedImage>, img: LoadedImage, containerWidth: nat, init: seq<Row>, trimmed: Row)
    requires Rows(prefix, containerWidth) == init + [trimmed]
    requires RowWidth(trimmed) + WidthAtTarget(img) <= containerWidth as real
    ensures Rows(prefix + [img], containerWidth) == init + [trimmed + [img]]
  {
    var st := Run(prefix, containerWidth);
    SnocInjective(st.done, st.row, init, trimmed);
    RunSnoc(prefix, img, containerWidth);
  }

  /** When the pass over `prefix` ends with `init` and the next image does not fit beside the open row, the image opens a new row. */
  lemma FlushedRun(prefix: seq<LoadedImage>, img: LoadedImage, containerWidth: nat, init: seq<Row>)
    requires |init| >= 1 && Rows(prefix, containerWidth) == init
    requires RowWidth(init[|init| - 1]) + WidthAtTarget(img) > containerWidth as real
    ensures Rows(prefix + [img], containerWidth) == init + [[img]]
  {
    var st := Run(prefix, containerWidth);
    var k := |init| - 1;
    SnocInjective(st.done, st.row, init[..k], init[k]);
    RunSnoc(prefix, img, containerWidth);
  }

  lemma SnocInjective<T>(a: seq<T>, x: T, b: seq<T>, y: T)
    requires a + [x] == b + [y]
    ensures a == b && x == y
  {
    assert a == (a + [x])[..|a|];
    assert b == (b + [y])[..|b|];
  }

  /** Dropping the last image from a last row it joined leaves rows that obey the rule for the other images. */
  lemma TrimLastRow(images: seq<LoadedImage>, containerWidth: nat, rows: seq<Row>)
    requires GreedyBreaks(images, containerWidth, rows) && |images| > 0
    requires |rows[|rows| - 1]| >= 2 || |rows| == 1
    ensures var L := rows[|rows| - 1];
            && |L| > 0
            && L == L[..|L| - 1] + [images[|images| - 1]]
            && GreedyBreaks(images[..|images| - 1], containerWidth, rows[..|rows| - 1] + [L[..|L| - 1]])
            && RowWidth(L[..|L| - 1]) + WidthAtTarget(images[|images| - 1]) <= containerWidth as real
  {
    var K := |rows| - 1;
    var L := rows[K];
    var init := rows[..K];
    assert rows == init + [L];
    SnocRow(init, L, containerWidth);
    if K == 0 {
      assert Flatten(init) == [];
    }
    assert images == Flatten(init) + L;
    TrimRow(init, L, containerWidth);
    var n := |images|;
    assert images[n - 1] == L[|L| - 1];
    assert images[..n - 1] == Flatten(init) + L[..|L| - 1];
  }

  /** The rule, split over its last row, still holds once that row's last image is dropped, provided the row keeps an image or is the first. */
  lemma {:induction false} TrimRow(init: seq<Row>, L: Row, containerWidth: nat)
    requires |L| > 0 && (|L| >= 2 || |init| == 0)
    requires TailNonEmpty(init) && RowsFit(init, containerWidth) && BreaksForced(init, containerWidth)
    requires Fits(L, Start(|init|), containerWidth)
    requires |init| >= 1 ==> Overflows(init[|init| - 1], L, containerWidth)
    ensures L == L[..|L| - 1] + [L[|L| - 1]]
    ensures GreedyBreaks(Flatten(init) + L[..|L| - 1], containerWidth, init + [L[..|L| - 1]])
    ensures RowWidth(L[..|L| - 1]) + WidthAtTarget(L[|L| - 1]) <= containerWidth as real
  {
    var c := containerWidth;
    var trimmed := L[..|L| - 1];
    var img := L[|L| - 1];
    assert L == trimmed + [img];
    assert Fits(trimmed, Start(|init|), c) by {
      FitsTrim(L, Start(|init|), c);
    }
    assert |init| >= 1 ==> |trimmed| > 0 && Overflows(init[|init| - 1], trimmed, c) by {
      if |init| >= 1 {
        assert trimmed[0] == L[0];
      }
    }
    assert TailNonEmpty(init + [trimmed]) by {
      SnocTailNonEmpty(init, trimmed);
    }
    assert RowsFit(init + [trimmed], c) by {
      SnocRowsFit(init, trimmed, c);
    }
    assert BreaksForced(init + [trimmed], c) by {
      SnocBreaksForced(init, trimmed, c);
    }
    assert Flatten(init + [trimmed]) == Flatten(init) + trimmed by {
      assert (init + [trimmed])[..|init|] == init;
    }
    assert RowWidth(trimmed) + WidthAtTarget(img) <= c as real by {
      RowWidthSnoc(trimmed, img);
      assert PrefixWidth(L, |L| - 1) <= c as real;
      assert L[..|L| - 1 + 1] == L;
    }
  }

  /** The last image opened a row of its own: the earlier rows are the pass over the other images. */
  lemma {:induction false} LastRowFlushed(images: seq<LoadedImage>, containerWidth: nat, rows: seq<Row>)
    requires GreedyBreaks(images, containerWidth, rows) && |images| > 0
    requires |rows[|rows| - 1]| < 2 && |rows| >= 2
    ensures rows == Rows(images, containerWidth)
    decreases |images|, 1
  {
    var c := containerWidth;
    var K := |rows| - 1;
    var L := rows[K];
    var init := rows[..K];
    assert rows == init + [L];
    SnocRow(init, L, c);
    assert |L| > 0;
    var n := |images|;
    var prefix := images[..n - 1];
    var img := images[n - 1];
    assert images == Flatten(init) + L;
    assert L == [img];
    assert Flatten(init) == prefix;
    BreaksDetermineRows(prefix, c, init);
    assert Overflows(init[K - 1], L, c);
    FlushedRun(prefix, img, c, init);
    assert images == prefix + [img];
  }

  /** The width of a row prefix grows with the prefix and covers each image in it. */
  lemma {:induction false} PrefixWidthCovers(row: Row, i: nat, j: nat)
    requires i <= j < |row|
    ensures PrefixWidth(row, j) >= WidthAtTarget(row[i])
    ensures PrefixWidth(row, |row| - 1) == RowWidth(row)
    decreases j
  {
    assert row[..|row|] == row;
    assert row[..j + 1][..j] == row[..j];
    if j > i {
      PrefixWidthCovers(row, i, j - 1);
    }
  }

  /**
   * A row holding two or more images is no wider than the container, and so is
   * each image in it: an image wider than the container is always alone in its row.
   */
  lemma CrowdedRowsFit(images: seq<LoadedImage>, containerWidth: nat, k: nat, j: nat)
    requires k < |Rows(images, containerWidth)| && j < |Rows(images, containerWidth)[k]|
    ensures var row := Rows(images, containerWidth)[k];
            |row| >= 2 ==> RowWidth(row) <= containerWidth as real && WidthAtTarget(row[j]) <= containerWidth as real
    ensures WidthAtTarget(Rows(images, containerWidth)[k][j]) > containerWidth as real ==> |Rows(images, containerWidth)[k]| == 1
  {
    var rows := Rows(images, containerWidth);
    var row := rows[k];
    GreedyMeetsBreaks(images, containerWidth);
    if |row| >= 2 {
      assert Fits(row, Start(k), containerWidth);
      var last := |row| - 1;
      PrefixWidthCovers(row, j, last);
      assert PrefixWidth(row, last) <= containerWidth as real;
    }
  }

  /**
   * The pass flushes an empty first row exactly when the very first image is
   * wider than the container.
   */
  lemma EmptyFirstRow(images: seq<LoadedImage>, containerWidth: nat)
    ensures |images| > 0 ==>
      (Rows(images, containerWidth)[0] == [] <==> WidthAtTarget(images[0]) > containerWidth as real)
  {
    var rows := Rows(images, containerWidth);
    GreedyMeetsBreaks(images, containerWidth);
    var first := rows[0];
    if |images| > 0 {
      if first == [] {
        FlattenFront(rows);
        assert |Flatten(rows[1..])| > 0;
        assert |rows| >= 2;
        assert Overflows(rows[0], rows[1], containerWidth);
        FlattenFront(rows[1..]);
        assert rows[1..][0] == rows[1] && |rows[1]| > 0;
        assert images[0] == rows[1][0];
      } else {
        FlattenFront(rows);
        assert images[0] == first[0];
        assert Fits(first, 0, containerWidth);
        assert PrefixWidth(first, 0) <= containerWidth as real;
        assert first[..1] == [first[0]];
        assert RowWidth([first[0]]) == RowWidth([]) + WidthAtTarget(first[0]);
      }
    }
  }

  /** The rows laid end to end begin with the first row, then the rest. */
  lemma {:induction false} FlattenFront(rows: seq<Row>)
    requires |rows| >= 1
    ensures Flatten(rows) == rows[0] + Flatten(rows[1..])
    decreases |rows|
  {
    if |rows| > 1 {
      var init := rows[..|rows| - 1];
      FlattenFront(init);
      assert init[1..] == rows[1..][..|rows[1..]| - 1];
    } else {
      assert Flatten(rows) == Flatten([]) + rows[0];
    }
  }
}
