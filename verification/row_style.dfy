/**
 * The styling half of the justified grid: every flushed row is scaled so that
 * its images, kept at height 300, span the container width.
 */
module RowStyle {
  import opened ImageGrid

  /** A CSS width in pixels, or NaN when the scale factor divided by a zero row width. */
  datatype Width = Px(px: real) | NaN

  /** The inline style an image receives. */
  datatype Style = Style(width: Width, height: real)

  /**
   * The styles a flushed row gives its images: height 300 and the width at 300
   * scaled by `containerWidth / rowWidth`, which is NaN when the row has no width.
   */
  function StyleRow(row: Row, containerWidth: nat): (styles: seq<Style>)
    ensures |styles| == |row|
    ensures forall j :: 0 <= j < |row| ==> styles[j].height == TargetHeight
  {
    StyleWidths(Widths(row), containerWidth)
  }

  /** The same, for images `ws` wide at height 300 whose sum is the row width. */
  function StyleWidths(ws: seq<real>, containerWidth: nat): (styles: seq<Style>)
    ensures |styles| == |ws|
    ensures forall j :: 0 <= j < |ws| ==> styles[j].height == TargetHeight
  {
    if Sum(ws) == 0.0 then Unscaled(|ws|)
    else ScaleWidths(ws, containerWidth as real / Sum(ws))
  }

  /** The widths of the row's images at height 300, in order. */
  function Widths(row: Row): (ws: seq<real>)
    ensures |ws| == |row|
    ensures forall j :: 0 <= j < |row| ==> ws[j] == WidthAtTarget(row[j])
  {
    if |row| == 0 then [] else [WidthAtTarget(row[0])] + Widths(row[1..])
  }

  /** The sum of a list of reals. */
  function Sum(ws: seq<real>): real {
    if |ws| == 0 then 0.0 else ws[0] + Sum(ws[1..])
  }

  /** Summing from the front and from the back agree. */
  lemma {:induction false} SumSnoc(ws: seq<real>)
    requires |ws| > 0
    ensures Sum(ws) == Sum(ws[..|ws| - 1]) + ws[|ws| - 1]
    decreases |ws|
  {
    if |ws| > 1 {
      SumSnoc(ws[1..]);
      assert ws[1..][..|ws| - 2] == ws[..|ws| - 1][1..];
    }
  }

  /** The unscaled row width is the sum of its images' widths at height 300. */
  lemma {:induction false} RowWidthIsSum(row: Row)
    ensures RowWidth(row) == Sum(Widths(row))
    decreases |row|
  {
    if |row| > 0 {
      var n := |row| - 1;
      RowWidthIsSum(row[..n]);
      SumSnoc(Widths(row));
      assert Widths(row)[..n] == Widths(row[..n]);
    }
  }

  /** `n` images whose width is NaN, at height 300. */
  function Unscaled(n: nat): (styles: seq<Style>)
    ensures |styles| == n
    ensures forall j :: 0 <= j < n ==> styles[j] == Style(NaN, TargetHeight)
  {
    if n == 0 then [] else [Style(NaN, TargetHeight)] + Unscaled(n - 1)
  }

  /** Every width scaled by the same factor, at height 300. */
  function ScaleWidths(ws: seq<real>, scale: real): (styles: seq<Style>)
    ensures |styles| == |ws|
    ensures forall j :: 0 <= j < |ws| ==> styles[j].height == TargetHeight
  {
    if |ws| == 0 then [] else [Style(Px(ws[0] * scale), TargetHeight)] + ScaleWidths(ws[1..], scale)
  }

  /** Image `j`, of width `w`, gets width `w * scale`. */
  lemma {:induction false} ScaleWidthsAt(ws: seq<real>, scale: real, j: nat, w: real)
    requires j < |ws| && ws[j] == w
    ensures ScaleWidths(ws, scale)[j].width == Px(w * scale)
    decreases |ws|
  {
    if j > 0 {
      ScaleWidthsAt(ws[1..], scale, j - 1, w);
      assert ScaleWidths(ws, scale)[j] == ScaleWidths(ws[1..], scale)[j - 1];
    }
  }

  /** The pixel value of a width; NaN adds nothing. */
  function PxOf(w: Width): real {
    match w
    case Px(x) => x
    case NaN => 0.0
  }

  /** The pixel widths of the styles added up. */
  function TotalPx(styles: seq<Style>): real {
    if |styles| == 0 then 0.0 else PxOf(styles[0].width) + TotalPx(styles[1..])
  }

  /** Scaling every width by the same factor scales their sum by it. */
  lemma {:induction false} ScaledSum(ws: seq<real>, scale: real)
    ensures TotalPx(ScaleWidths(ws, scale)) == Sum(ws) * scale
    decreases |ws|
  {
    if |ws| > 0 {
      ScaledSum(ws[1..], scale);
      ScaleStep(ws, scale);
      Distribute(ws[0], Sum(ws[1..]), scale);
    }
  }

  lemma {:induction false} ScaleStep(ws: seq<real>, scale: real)
    requires |ws| > 0
    ensures TotalPx(ScaleWidths(ws, scale)) == ws[0] * scale + TotalPx(ScaleWidths(ws[1..], scale))
  {
    assert ScaleWidths(ws, scale)[1..] == ScaleWidths(ws[1..], scale);
  }

  lemma {:induction false} Distribute(a: real, b: real, k: real)
    ensures a * k + b * k == (a + b) * k
  {
  }

  /** Image `j`, of width `w` in a row of width `total > 0`, is styled `w * containerWidth / total` wide. */
  lemma {:induction false} WidthAt(ws: seq<real>, containerWidth: nat, j: nat, w: real, total: real)
    requires j < |ws| && ws[j] == w && Sum(ws) == total && total > 0.0
    ensures StyleWidths(ws, containerWidth)[j].width == Px(w * (containerWidth as real / total))
  {
    ScaleWidthsAt(ws, containerWidth as real / total, j, w);
  }

  /** Widths of positive sum, scaled by `containerWidth / sum`, add up to the container width. */
  lemma {:induction false} WidthsFill(ws: seq<real>, containerWidth: nat)
    requires Sum(ws) > 0.0
    ensures TotalPx(StyleWidths(ws, containerWidth)) == containerWidth as real
  {
    ScaledSum(ws, containerWidth as real / Sum(ws));
    Cancel(Sum(ws), containerWidth as real);
  }

  lemma {:induction false} Cancel(w: real, target: real)
    requires w > 0.0
    ensures w * (target / w) == target
  {
  }

  /** A row of positive width is styled to span the container exactly. */
  lemma {:induction false} RowFillsContainer(row: Row, containerWidth: nat)
    requires RowWidth(row) > 0.0
    ensures TotalPx(StyleRow(row, containerWidth)) == containerWidth as real
  {
    RowWidthIsSum(row);
    WidthsFill(Widths(row), containerWidth);
  }

  /** A row has zero width exactly when all its images have zero natural width; only then do the styles read NaN. */
  lemma {:induction false} ZeroWidthRow(row: Row)
    ensures RowWidth(row) == 0.0 <==> forall j :: 0 <= j < |row| ==> row[j].naturalWidth == 0
    decreases |row|
  {
    if |row| > 0 {
      var n := |row| - 1;
      ZeroWidthRow(row[..n]);
      assert forall j :: 0 <= j < n ==> row[..n][j] == row[j];
    }
  }

  /** The styles of all rows, in row order. */
  function StyleRows(rows: seq<Row>, containerWidth: nat): (styles: seq<Style>)
    ensures |styles| == |Flatten(rows)|
  {
    if |rows| == 0 then []
    else StyleRows(rows[..|rows| - 1], containerWidth) + StyleRow(rows[|rows| - 1], containerWidth)
  }

  /**
   * `handleResize`: the style of every image, in document order. It reads only
   * the container width and the images' natural sizes.
   */
  function Layout(images: seq<LoadedImage>, containerWidth: nat): (styles: seq<Style>)
    ensures |styles| == |images|
    ensures forall i :: 0 <= i < |images| ==> styles[i].height == TargetHeight
  {
    GreedyMeetsBreaks(images, containerWidth);
    var rows := Rows(images, containerWidth);
    AllHeightsTarget(rows, containerWidth);
    StyleRows(rows, containerWidth)
  }

  lemma {:induction false} AllHeightsTarget(rows: seq<Row>, containerWidth: nat)
    ensures forall i :: 0 <= i < |StyleRows(rows, containerWidth)| ==> StyleRows(rows, containerWidth)[i].height == TargetHeight
    decreases |rows|
  {
    if |rows| > 0 {
      AllHeightsTarget(rows[..|rows| - 1], containerWidth);
    }
  }
}
