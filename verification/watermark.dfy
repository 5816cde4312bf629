/** Watermark geometry (`core/watermark.py`): the nine-anchor placement table,
    the aspect-preserving resize, the opacity rule and the error guards. The
    pixels themselves (resampling, compositing) are not modelled; a successful
    application is described by where and how large the watermark lands. */
module Watermark {
  import opened Base
  import opened Text
  import Config

  /** How a coordinate is aligned against its axis. */
  datatype Align = Start | Middle | End

  /** The nine anchors of the position table. */
  datatype Anchor =
    | TopLeft | TopCenter | TopRight
    | CenterLeft | Center | CenterRight
    | BottomLeft | BottomCenter | BottomRight
  {
    /** The position string naming this anchor. */
    function Name(): string {
      match this
      case TopLeft => "top_left"
      case TopCenter => "top_center"
      case TopRight => "top_right"
      case CenterLeft => "center_left"
      case Center => "center"
      case CenterRight => "center_right"
      case BottomLeft => "bottom_left"
      case BottomCenter => "bottom_center"
      case BottomRight => "bottom_right"
    }

    function Column(): Align {
      match this
      case TopLeft | CenterLeft | BottomLeft => Start
      case TopCenter | Center | BottomCenter => Middle
      case _ => End
    }

    function Row(): Align {
      match this
      case TopLeft | TopCenter | TopRight => Start
      case CenterLeft | Center | CenterRight => Middle
      case _ => End
    }
  }

  /** `positions.get(position, positions["top_right"])`: the anchor a position
      string names, `top_right` for any string outside the table. */
  function ParseAnchor(position: string): (a: Anchor)
    ensures a != TopRight ==> a.Name() == position
  {
    if position == "top_left" then TopLeft
    else if position == "top_center" then TopCenter
    else if position == "center_left" then CenterLeft
    else if position == "center" then Center
    else if position == "center_right" then CenterRight
    else if position == "bottom_left" then BottomLeft
    else if position == "bottom_center" then BottomCenter
    else if position == "bottom_right" then BottomRight
    else TopRight
  }

  /** Every anchor's name reads back as that anchor, so the table has one entry
      per name. */
  lemma ParseAnchorName(a: Anchor)
    ensures ParseAnchor(a.Name()) == a
  {
  }

  /** The nine anchors are exactly the nine cells of a three-by-three grid. */
  function AnchorAt(column: Align, row: Align): (a: Anchor)
    ensures a.Column() == column && a.Row() == row
  {
    match (row, column)
    case (Start, Start) => TopLeft
    case (Start, Middle) => TopCenter
    case (Start, End) => TopRight
    case (Middle, Start) => CenterLeft
    case (Middle, Middle) => Center
    case (Middle, End) => CenterRight
    case (End, Start) => BottomLeft
    case (End, Middle) => BottomCenter
    case (End, End) => BottomRight
  }

  lemma AnchorsAreGridCells(a: Anchor, b: Anchor)
    ensures a == AnchorAt(a.Column(), a.Row())
    ensures a.Column() == b.Column() && a.Row() == b.Row() ==> a == b
  {
  }

  /** `_calculate_position`: the table entry for the position's anchor. */
  function CalculatePosition(baseWidth: int, baseHeight: int, wmWidth: int, wmHeight: int,
                             position: string, marginX: int, marginY: int): (p: (int, int))
    ensures var a := ParseAnchor(position);
            && (a.Column() == Start ==> p.0 == marginX)
            && (a.Column() == End ==> p.0 + wmWidth + marginX == baseWidth)
            && (a.Column() == Middle ==> 2 * p.0 <= baseWidth - wmWidth < 2 * p.0 + 2)
            && (a.Row() == Start ==> p.1 == marginY)
            && (a.Row() == End ==> p.1 + wmHeight + marginY == baseHeight)
            && (a.Row() == Middle ==> 2 * p.1 <= baseHeight - wmHeight < 2 * p.1 + 2)
  {
    var cx := (baseWidth - wmWidth) / 2;
    var cy := (baseHeight - wmHeight) / 2;
    var right := baseWidth - wmWidth - marginX;
    var bottom := baseHeight - wmHeight - marginY;
    match ParseAnchor(position)
    case TopLeft => (marginX, marginY)
    case TopCenter => (cx, marginY)
    case TopRight => (right, marginY)
    case CenterLeft => (marginX, cy)
    case Center => (cx, cy)
    case CenterRight => (right, cy)
    case BottomLeft => (marginX, bottom)
    case BottomCenter => (cx, bottom)
    case BottomRight => (right, bottom)
  }

  /** A position string outside the table is placed exactly like `top_right`. */
  lemma UnknownPositionIsTopRight(bw: int, bh: int, ww: int, wh: int, position: string, mx: int, my: int)
    requires forall a: Anchor :: a.Name() != position
    ensures CalculatePosition(bw, bh, ww, wh, position, mx, my) == CalculatePosition(bw, bh, ww, wh, "top_right", mx, my)
    ensures CalculatePosition(bw, bh, ww, wh, position, mx, my) == (bw - ww - mx, my)
  {
  }

  /** The worked example: a 200×100 watermark at the bottom right of a
      1000×800 image with 20-pixel margins lands at (780, 680). */
  lemma BottomRightExample()
    ensures CalculatePosition(1000, 800, 200, 100, "bottom_right", 20, 20) == (780, 680)
  {
  }

  /** `int(min(base_w, base_h) * scale)`: the length of the watermark's longer side. */
  function WatermarkSize(baseWidth: nat, baseHeight: nat, scale: Config.Fraction): (t: nat)
    ensures t * scale.den <= Min(baseWidth, baseHeight) * scale.num
    ensures Min(baseWidth, baseHeight) * scale.num < (t + 1) * scale.den
    ensures Config.AtMost(scale, 1) ==> t <= Min(baseWidth, baseHeight)
  {
    var m := Min(baseWidth, baseHeight);
    var t := Config.Scale(m, scale);
    if Config.AtMost(scale, 1) then
      MulMono(m, scale.num, scale.den);
      MulCancel(t, m, scale.den);
      t
    else t
  }

  /** The resized watermark: the longer side becomes `target`, the other side
      shrinks in proportion, rounded down. `None` stands for the two ways the
      resize raises: a zero height divides by zero, and the imaging library
      refuses a zero-sized result. */
  function ResizedDims(target: nat, width: nat, height: nat): (r: Option<(nat, nat)>)
    ensures r.Some? ==> r.value.0 > 0 && r.value.1 > 0
    ensures r.Some? ==> Max(r.value.0, r.value.1) == target
    ensures r.Some? && width >= height ==> r.value.0 == target && r.value.1 * width <= target * height < (r.value.1 + 1) * width
    ensures r.Some? && width < height ==> r.value.1 == target && r.value.0 * height <= target * width < (r.value.0 + 1) * height
    ensures r.None? <==> height == 0 || target == 0 || (width >= height && target * height < width) || (width < height && target * width < height)
  {
    if height == 0 then None
    else if width >= height then
      var h := ShrinkSide(target, height, width);
      if target == 0 || h == 0 then None else Some((target, h))
    else
      var w := ShrinkSide(target, width, height);
      if target == 0 || w == 0 then None else Some((w, target))
  }

  /** `int(target * short / long)`: the shorter side scaled with the longer. */
  function ShrinkSide(target: nat, short: nat, long: nat): (s: nat)
    requires 0 < long && short <= long
    ensures s * long <= target * short < (s + 1) * long
    ensures s <= target
    ensures s == 0 <==> target * short < long
  {
    var s := (target * short) / long;
    FloorDiv(target * short, long);
    MulMono(target, short, long);
    MulCancel(s, target, long);
    s
  }

  /** The floor of a division brackets the quotient. */
  lemma FloorDiv(a: nat, b: nat)
    requires b > 0
    ensures (a / b) * b <= a < (a / b + 1) * b
  {
  }

  lemma MulMono(k: nat, a: nat, b: nat)
    requires a <= b
    ensures k * a <= k * b
  {
  }

  lemma MulCancel(a: nat, b: nat, c: nat)
    requires c > 0 && a * c <= b * c
    ensures a <= b
  {
  }

  /** `alpha.point(lambda p: int(p * opacity))`, done only when the opacity is
      below one. */
  function ScaleAlpha(p: nat, opacity: Config.Fraction): (q: nat)
    ensures !Config.Below(opacity, 1) ==> q == p
    ensures Config.Below(opacity, 1) ==> q * opacity.den <= p * opacity.num < (q + 1) * opacity.den
  {
    if Config.Below(opacity, 1) then Config.Scale(p, opacity) else p
  }

  /** With an opacity in [0, 1] no pixel becomes more opaque. */
  lemma AlphaNeverIncreases(p: nat, opacity: Config.Fraction)
    requires Config.AtMost(opacity, 1)
    ensures ScaleAlpha(p, opacity) <= p
  {
    if Config.Below(opacity, 1) {
      var q := ScaleAlpha(p, opacity);
      assert p * opacity.num <= p * opacity.den;
      assert q * opacity.den <= p * opacity.den;
    }
  }

  /** The watermark file as the code finds it at `config.path`. */
  datatype WatermarkFile = Missing | Unreadable | Readable(width: nat, height: nat)

  datatype WatermarkError = NotFound(path: string) | Failed

  /** Where the resized watermark is pasted, its size, and whether its alpha
      channel was rescaled. */
  datatype Placement = Placement(x: int, y: int, width: nat, height: nat, alphaScaled: bool)

  /** `apply_watermark`: a missing file is reported before any image work;
      every later failure becomes the generic error. */
  function ApplyWatermark(baseWidth: nat, baseHeight: nat, config: Config.WatermarkConfig, file: WatermarkFile)
    : (r: Result<Placement, WatermarkError>)
    ensures file.Missing? <==> r == Failure(NotFound(config.path))
    ensures file.Unreadable? ==> r == Failure(Failed)
    ensures r.Success? ==> file.Readable?
    ensures r.Success? ==>
              var t := WatermarkSize(baseWidth, baseHeight, config.scale);
              && Max(r.value.width, r.value.height) == t
              && r.value.width > 0 && r.value.height > 0
              && (r.value.x, r.value.y) == CalculatePosition(baseWidth, baseHeight, r.value.width, r.value.height,
                                                            config.position, config.marginX, config.marginY)
              && (r.value.alphaScaled <==> Config.Below(config.opacity, 1))
    ensures file.Readable? ==>
              (r.Success? <==> ResizedDims(WatermarkSize(baseWidth, baseHeight, config.scale), file.width, file.height).Some?)
  {
    match file
    case Missing => Failure(NotFound(config.path))
    case Unreadable => Failure(Failed)
    case Readable(w, h) =>
      var t := WatermarkSize(baseWidth, baseHeight, config.scale);
      match ResizedDims(t, w, h)
      case None => Failure(Failed)
      case Some(dims) =>
        var pos := CalculatePosition(baseWidth, baseHeight, dims.0, dims.1, config.position, config.marginX, config.marginY);
        Success(Placement(pos.0, pos.1, dims.0, dims.1, Config.Below(config.opacity, 1)))
  }

  /** `validate_watermark_file`: the file exists and the imaging library can
      read it. */
  function ValidateWatermarkFile(file: WatermarkFile): (ok: bool)
    ensures file.Missing? ==> !ok
  {
    file.Readable?
  }

  /** A file that does not validate makes every application fail, and a
      missing one fails with the not-found error. */
  lemma InvalidFileFails(baseWidth: nat, baseHeight: nat, config: Config.WatermarkConfig, file: WatermarkFile)
    requires !ValidateWatermarkFile(file)
    ensures ApplyWatermark(baseWidth, baseHeight, config, file).Failure?
    ensures file.Missing? ==> ApplyWatermark(baseWidth, baseHeight, config, file).error.NotFound?
  {
  }
}
