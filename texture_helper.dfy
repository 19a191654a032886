/**
 * Texture post-processing run once when material textures are generated:
 * tinting an image, alpha-compositing one image over another, and the
 * "double ingot" filter that overlays two vertically shifted copies of an
 * ingot sprite.
 *
 * An image is an `array2<Word>` indexed `[x, y]`: `Length0` is the width and
 * `Length1` the height, as `getWidth()` / `getHeight()` report them, and
 * `image[x, y]` is `getPixelColor(x, y)`. The floating-point arithmetic is
 * computed over the reals.
 */
module TextureHelper {
  import opened JavaInt
  import opened Pixels
  import opened Wrappers

  // ---------------------------------------------------------------------
  // colorize

  /** Relative luminance of a colour, scaled to 0..1. */
  function Luminance(color: Word): (l: real)
    ensures 0.0 <= l <= 1.0
  {
    (0.2126 * GetR(color) as real + 0.7152 * GetG(color) as real + 0.0722 * GetB(color) as real) / 255.0
  }

  /** A tint component scaled by a luminance: `l * r` in `colorize`. */
  function Scaled(l: real, tint: Channel): (v: real)
    requires 0.0 <= l <= 1.0
    ensures 0.0 <= v <= tint as real
    ensures l == 1.0 ==> v == tint as real
    ensures l == 0.0 ==> v == 0.0
  {
    MulNonneg(l, tint as real);
    MulMono(l, 1.0, tint as real);
    l * tint as real
  }

  /** The pixel `colorize` writes in place of `color`: the tint scaled by the luminance, same alpha. */
  function Colorized(color: Word, r: Channel, g: Channel, b: Channel): (px: Word)
    ensures GetA(px) == GetA(color)
    ensures GetR(px) <= r && GetG(px) <= g && GetB(px) <= b
  {
    var l := Luminance(color);
    FromArgbReal(GetA(color), Scaled(l, r), Scaled(l, g), Scaled(l, b))
  }

  /**
   * A white pixel takes the tint, up to one unit below it in each colour
   * channel (in doubles the luminance of white falls just short of 1); a
   * black one becomes black. Alpha is kept in both.
   */
  lemma ColorizeWhiteAndBlack(color: Word, r: Channel, g: Channel, b: Channel)
    ensures GetR(color) == GetG(color) == GetB(color) == 255 ==>
      var px := Colorized(color, r, g, b);
      && GetA(px) == GetA(color)
      && r - 1 <= GetR(px) <= r && g - 1 <= GetG(px) <= g && b - 1 <= GetB(px) <= b
    ensures GetR(color) == GetG(color) == GetB(color) == 0 ==>
      Colorized(color, r, g, b) == FromArgb(GetA(color), 0, 0, 0)
  {
    var px := Colorized(color, r, g, b);
    if GetR(color) == GetG(color) == GetB(color) == 255 {
      assert Luminance(color) == 1.0;
      assert px == FromArgb(GetA(color), r, g, b);
      PackUnpack(GetA(color), r, g, b);
    }
    if GetR(color) == GetG(color) == GetB(color) == 0 {
      assert Luminance(color) == 0.0;
      UnpackPack(px);
    }
  }

  /**
   * Tints every pixel in place. The tint components must be channel values
   * (the packing helper only accepts components in 0..255).
   */
  method Colorize(image: array2<Word>, r: Channel, g: Channel, b: Channel)
    modifies image
    ensures forall i, j :: 0 <= i < image.Length0 && 0 <= j < image.Length1 ==>
      image[i, j] == Colorized(old(image[i, j]), r, g, b)
  {
    for i := 0 to image.Length0
      invariant forall i', j :: 0 <= i' < i && 0 <= j < image.Length1 ==>
        image[i', j] == Colorized(old(image[i', j]), r, g, b)
      invariant forall i', j :: i <= i' < image.Length0 && 0 <= j < image.Length1 ==>
        image[i', j] == old(image[i', j])
    {
      for j := 0 to image.Length1
        invariant forall i', j' :: 0 <= i' < i && 0 <= j' < image.Length1 ==>
          image[i', j'] == Colorized(old(image[i', j']), r, g, b)
        invariant forall j' :: 0 <= j' < j ==> image[i, j'] == Colorized(old(image[i, j']), r, g, b)
        invariant forall j' :: j <= j' < image.Length1 ==> image[i, j'] == old(image[i, j'])
        invariant forall i', j' :: i < i' < image.Length0 && 0 <= j' < image.Length1 ==>
          image[i', j'] == old(image[i', j'])
      {
        var color := image[i, j];
        image[i, j] := Colorized(color, r, g, b);
      }
    }
  }

  // ---------------------------------------------------------------------
  // blend

  /** Opacity of a colour, 0..1. */
  function Opacity(color: Word): (alpha: real)
    ensures 0.0 <= alpha <= 1.0
  {
    GetA(color) as real / 255.0
  }

  /** Opacity of `top` composited over `source`. */
  function CompositeOpacity(alphaSource: real, alphaTop: real): (alphaOut: real)
    requires 0.0 <= alphaSource <= 1.0 && 0.0 <= alphaTop <= 1.0
    ensures alphaTop <= alphaOut <= 1.0 && alphaSource <= alphaOut
    ensures alphaOut == 0.0 <==> alphaSource == 0.0 && alphaTop == 0.0
  {
    var wSource := alphaSource * (1.0 - alphaTop);
    MulNonneg(alphaSource, 1.0 - alphaTop);
    MulMono(alphaSource, 1.0, 1.0 - alphaTop);
    assert wSource <= 1.0 - alphaTop;
    MulNonneg(alphaTop, 1.0 - alphaSource);
    assert wSource == alphaSource - alphaSource * alphaTop;
    assert alphaTop * (1.0 - alphaSource) == alphaTop - alphaSource * alphaTop;
    alphaTop + wSource
  }

  /** `(topValue * wTop + sourceValue * wSource) / (wTop + wSource)`, between the two values. */
  function WeightedAverage(sourceValue: int, topValue: int, wSource: real, wTop: real): (average: real)
    requires wTop >= 0.0 && wSource >= 0.0 && wTop + wSource > 0.0
    ensures Min(sourceValue, topValue) as real <= average <= Max(sourceValue, topValue) as real
  {
    var lo, hi := Min(sourceValue, topValue) as real, Max(sourceValue, topValue) as real;
    MulMono(lo, topValue as real, wTop);
    MulMono(lo, sourceValue as real, wSource);
    MulMono(topValue as real, hi, wTop);
    MulMono(sourceValue as real, hi, wSource);
    assert lo * (wTop + wSource) == lo * wTop + lo * wSource;
    assert hi * (wTop + wSource) == hi * wTop + hi * wSource;
    DivBounds(topValue as real * wTop + sourceValue as real * wSource, wTop + wSource, lo, hi);
    (topValue as real * wTop + sourceValue as real * wSource) / (wTop + wSource)
  }

  /** With all the weight on one side the average is that side's value. */
  lemma WeightedAverageOneSided(sourceValue: int, topValue: int, w: real)
    requires w > 0.0
    ensures WeightedAverage(sourceValue, topValue, w, 0.0) == sourceValue as real
    ensures WeightedAverage(sourceValue, topValue, 0.0, w) == topValue as real
  {
    assert topValue as real * 0.0 + sourceValue as real * w == sourceValue as real * w;
    assert 0.0 + w == w;
    DivSelf(sourceValue as real, w);
    assert topValue as real * w + sourceValue as real * 0.0 == topValue as real * w;
    assert w + 0.0 == w;
    DivSelf(topValue as real, w);
  }

  function Min(x: int, y: int): int { if x <= y then x else y }

  function Max(x: int, y: int): int { if x <= y then y else x }

  /**
   * One colour channel of the composite (`mergeAlpha`). When both pixels are
   * fully transparent the division is 0/0, a NaN, and `(int)` of NaN is 0.
   * Otherwise the channel lies between the two inputs, or one below the
   * smaller, since in doubles the quotient can fall just short of it before
   * the cast truncates.
   */
  function MergeChannel(sourceValue: Channel, topValue: Channel, alphaSource: real, alphaTop: real): (v: Channel)
    requires 0.0 <= alphaSource <= 1.0 && 0.0 <= alphaTop <= 1.0
    ensures alphaSource == 0.0 && alphaTop == 0.0 ==> v == 0
    ensures alphaSource > 0.0 || alphaTop > 0.0 ==> Min(sourceValue, topValue) - 1 <= v <= Max(sourceValue, topValue)
  {
    var alphaOut := CompositeOpacity(alphaSource, alphaTop);
    if alphaOut == 0.0 then 0
    else
      MulNonneg(alphaSource, 1.0 - alphaTop);
      DoubleToInt(WeightedAverage(sourceValue, topValue, alphaSource * (1.0 - alphaTop), alphaTop))
  }

  /**
   * The pixel `blend` writes over `source`: `top` alpha-composited over it.
   * Two invisible pixels give the all-zero pixel. The result is at least as
   * opaque as either input; each colour channel lies between the inputs', or
   * one unit below the smaller for the rounding of doubles.
   */
  function Blended(source: Word, top: Word): (px: Word)
    ensures GetA(source) == 0 && GetA(top) == 0 ==> px == 0
    ensures GetA(px) >= GetA(source) && GetA(px) >= GetA(top)
    ensures GetA(source) > 0 || GetA(top) > 0 ==>
      && Min(GetR(source), GetR(top)) - 1 <= GetR(px) <= Max(GetR(source), GetR(top))
      && Min(GetG(source), GetG(top)) - 1 <= GetG(px) <= Max(GetG(source), GetG(top))
      && Min(GetB(source), GetB(top)) - 1 <= GetB(px) <= Max(GetB(source), GetB(top))
  {
    var alphaSource, alphaTop := Opacity(source), Opacity(top);
    var alphaOut := CompositeOpacity(alphaSource, alphaTop);
    var a := DoubleToInt(alphaOut * 255.0);
    var red := MergeChannel(GetR(source), GetR(top), alphaSource, alphaTop);
    var green := MergeChannel(GetG(source), GetG(top), alphaSource, alphaTop);
    var blue := MergeChannel(GetB(source), GetB(top), alphaSource, alphaTop);
    assert a >= GetA(source) && a >= GetA(top) by {
      assert alphaOut * 255.0 >= alphaTop * 255.0 == GetA(top) as real;
      assert alphaOut * 255.0 >= alphaSource * 255.0 == GetA(source) as real;
    }
    assert GetA(source) == 0 && GetA(top) == 0 ==> alphaOut == 0.0;
    assert alphaOut == 0.0 ==> a == 0 && red == 0 && green == 0 && blue == 0;
    var px := FromArgb(a, red, green, blue);
    PackUnpack(a, red, green, blue);
    px
  }

  /** Under an opaque top pixel the merged channel is the top's. */
  lemma MergeUnderOpaqueTop(sourceValue: Channel, topValue: Channel, alphaSource: real)
    requires 0.0 <= alphaSource <= 1.0
    ensures MergeChannel(sourceValue, topValue, alphaSource, 1.0) == topValue
  {
    assert CompositeOpacity(alphaSource, 1.0) == 1.0;
    assert alphaSource * (1.0 - 1.0) == 0.0;
    WeightedAverageOneSided(sourceValue, topValue, 1.0);
  }

  /**
   * Under a transparent top pixel, over a visible source pixel, the merged
   * channel is the source's: exactly when the source is opaque, and up to
   * one unit below it otherwise (the quotient of doubles can fall short).
   */
  lemma MergeOverTransparentTop(sourceValue: Channel, topValue: Channel, alphaSource: real)
    requires 0.0 < alphaSource <= 1.0
    ensures sourceValue - 1 <= MergeChannel(sourceValue, topValue, alphaSource, 0.0) <= sourceValue
    ensures alphaSource == 1.0 ==> MergeChannel(sourceValue, topValue, alphaSource, 0.0) == sourceValue
  {
    assert CompositeOpacity(alphaSource, 0.0) == alphaSource;
    assert alphaSource * (1.0 - 0.0) == alphaSource;
    WeightedAverageOneSided(sourceValue, topValue, alphaSource);
  }

  /** An opaque top pixel hides the source pixel completely. */
  lemma BlendOpaqueTop(source: Word, top: Word)
    requires GetA(top) == 255
    ensures Blended(source, top) == top
  {
    var alphaSource, alphaTop := Opacity(source), Opacity(top);
    assert alphaTop == 1.0;
    assert CompositeOpacity(alphaSource, alphaTop) == 1.0;
    MergeUnderOpaqueTop(GetR(source), GetR(top), alphaSource);
    MergeUnderOpaqueTop(GetG(source), GetG(top), alphaSource);
    MergeUnderOpaqueTop(GetB(source), GetB(top), alphaSource);
    UnpackPack(top);
  }

  /**
   * A fully transparent top pixel leaves an opaque source pixel as it was.
   * Any other visible source pixel keeps its alpha, and each colour channel
   * is kept or, for the rounding of doubles, loses one unit. Over an
   * invisible source pixel the result is the all-zero pixel.
   */
  lemma BlendTransparentTop(source: Word, top: Word)
    requires GetA(top) == 0
    ensures GetA(source) == 255 ==> Blended(source, top) == source
    ensures GetA(source) > 0 ==>
      var px := Blended(source, top);
      && GetA(px) == GetA(source)
      && GetR(source) - 1 <= GetR(px) <= GetR(source)
      && GetG(source) - 1 <= GetG(px) <= GetG(source)
      && GetB(source) - 1 <= GetB(px) <= GetB(source)
    ensures GetA(source) == 0 ==> Blended(source, top) == 0
  {
    var alphaSource, alphaTop := Opacity(source), Opacity(top);
    assert alphaTop == 0.0;
    assert CompositeOpacity(alphaSource, alphaTop) == alphaSource;
    if GetA(source) > 0 {
      assert alphaSource * 255.0 == GetA(source) as real;
      var red := MergeChannel(GetR(source), GetR(top), alphaSource, alphaTop);
      var green := MergeChannel(GetG(source), GetG(top), alphaSource, alphaTop);
      var blue := MergeChannel(GetB(source), GetB(top), alphaSource, alphaTop);
      MergeOverTransparentTop(GetR(source), GetR(top), alphaSource);
      MergeOverTransparentTop(GetG(source), GetG(top), alphaSource);
      MergeOverTransparentTop(GetB(source), GetB(top), alphaSource);
      assert Blended(source, top) == FromArgb(GetA(source), red, green, blue);
      PackUnpack(GetA(source), red, green, blue);
      if GetA(source) == 255 {
        UnpackPack(source);
      }
    }
  }

  datatype BlendError =
    | WidthMismatch(sourceWidth: nat, topWidth: nat)
    | HeightMismatch(sourceHeight: nat, topHeight: nat)

  /**
   * The two loops of `blend`: every pixel of `source` replaced by `composite`
   * of itself and the pixel of `top` at the same place. A pixel is read from
   * both images before it is written, so this holds even when `top` is
   * `source`.
   */
  method CompositeEachPixel(source: array2<Word>, top: array2<Word>, composite: (Word, Word) -> Word)
    requires source.Length0 == top.Length0 && source.Length1 == top.Length1
    modifies source
    ensures forall i, j :: 0 <= i < source.Length0 && 0 <= j < source.Length1 ==>
      source[i, j] == composite(old(source[i, j]), old(top[i, j]))
  {
    for i := 0 to source.Length0
      invariant forall i', j :: 0 <= i' < i && 0 <= j < source.Length1 ==>
        source[i', j] == composite(old(source[i', j]), old(top[i', j]))
      invariant forall i', j :: i <= i' < source.Length0 && 0 <= j < source.Length1 ==>
        source[i', j] == old(source[i', j]) && top[i', j] == old(top[i', j])
    {
      for j := 0 to source.Length1
        invariant forall i', j' :: 0 <= i' < i && 0 <= j' < source.Length1 ==>
          source[i', j'] == composite(old(source[i', j']), old(top[i', j']))
        invariant forall j' :: 0 <= j' < j ==> source[i, j'] == composite(old(source[i, j']), old(top[i, j']))
        invariant forall j' :: j <= j' < source.Length1 ==>
          source[i, j'] == old(source[i, j']) && top[i, j'] == old(top[i, j'])
        invariant forall i', j' :: i < i' < source.Length0 && 0 <= j' < source.Length1 ==>
          source[i', j'] == old(source[i', j']) && top[i', j'] == old(top[i', j'])
      {
        var sourceColor := source[i, j];
        var topColor := top[i, j];
        source[i, j] := composite(sourceColor, topColor);
      }
    }
  }

  /**
   * Composites `top` over `source`, writing into `source`. Images of
   * different width, or else of different height, are refused and nothing is
   * written.
   */
  method Blend(source: array2<Word>, top: array2<Word>) returns (outcome: Outcome<BlendError>)
    modifies source
    ensures source.Length0 != top.Length0 ==>
      outcome == Fail(WidthMismatch(source.Length0, top.Length0))
    ensures source.Length0 == top.Length0 && source.Length1 != top.Length1 ==>
      outcome == Fail(HeightMismatch(source.Length1, top.Length1))
    ensures outcome.Pass? <==> source.Length0 == top.Length0 && source.Length1 == top.Length1
    ensures outcome.Fail? ==> unchanged(source)
    ensures source != top ==> unchanged(top)
    ensures outcome.Pass? ==> forall i, j :: 0 <= i < source.Length0 && 0 <= j < source.Length1 ==>
      source[i, j] == Blended(old(source[i, j]), old(top[i, j]))
  {
    if source.Length0 != top.Length0 {
      return Fail(WidthMismatch(source.Length0, top.Length0));
    }
    if source.Length1 != top.Length1 {
      return Fail(HeightMismatch(source.Length1, top.Length1));
    }
    CompositeEachPixel(source, top, Blended);
    return Pass;
  }

  // ---------------------------------------------------------------------
  // doubleIngot

  /** Column `x` of an image, top row first. */
  ghost function Column(image: array2<Word>, x: nat): (col: seq<Word>)
    requires x < image.Length0
    reads image
    ensures |col| == image.Length1
    ensures forall y :: 0 <= y < image.Length1 ==> col[y] == image[x, y]
  {
    seq(image.Length1, y requires 0 <= y < image.Length1 reads image => image[x, y])
  }

  /** `n` fully transparent black pixels. */
  function Blank(n: nat): (z: seq<Word>)
    ensures |z| == n && forall i :: 0 <= i < n ==> z[i] == 0
  {
    seq(n, _ => 0)
  }

  /** A column moved down by `s` rows: blank rows enter at the top, the bottom `s` rows drop off. */
  function ShiftDown(col: seq<Word>, s: nat): (shifted: seq<Word>)
    ensures |shifted| == |col|
    ensures forall y :: 0 <= y < |col| ==> shifted[y] == if y >= s then col[y - s] else 0
  {
    if s >= |col| then Blank(|col|) else Blank(s) + col[..|col| - s]
  }

  /** A column moved up by `s` rows: the top `s` rows drop off, blank rows enter at the bottom. */
  function ShiftUp(col: seq<Word>, s: nat): (shifted: seq<Word>)
    ensures |shifted| == |col|
    ensures forall y :: 0 <= y < |col| ==> shifted[y] == if y + s < |col| then col[y + s] else 0
  {
    if s >= |col| then Blank(|col|) else col[s..] + Blank(s)
  }

  /** Shifting up undoes shifting down exactly when the rows that dropped off the bottom were blank. */
  lemma ShiftUpUndoesShiftDown(col: seq<Word>, s: nat)
    ensures ShiftUp(ShiftDown(col, s), s) == col <==>
      forall y :: |col| - s <= y < |col| && 0 <= y ==> col[y] == 0
  {
    var back := ShiftUp(ShiftDown(col, s), s);
    if back == col {
      forall y | |col| - s <= y < |col| && 0 <= y ensures col[y] == 0 {
        assert back[y] == 0;
      }
    }
    if forall y :: |col| - s <= y < |col| && 0 <= y ==> col[y] == 0 {
      forall y | 0 <= y < |col| ensures back[y] == col[y] {
        if y + s < |col| {
          assert ShiftDown(col, s)[y + s] == col[y];
        }
      }
    }
  }

  /** Shifting down undoes shifting up exactly when the rows that dropped off the top were blank. */
  lemma ShiftDownUndoesShiftUp(col: seq<Word>, s: nat)
    ensures ShiftDown(ShiftUp(col, s), s) == col <==>
      forall y :: 0 <= y < s && y < |col| ==> col[y] == 0
  {
    var back := ShiftDown(ShiftUp(col, s), s);
    if back == col {
      forall y | 0 <= y < s && y < |col| ensures col[y] == 0 {
        assert back[y] == 0;
      }
    }
    if forall y :: 0 <= y < s && y < |col| ==> col[y] == 0 {
      forall y | 0 <= y < |col| ensures back[y] == col[y] {
        if y >= s {
          assert ShiftUp(col, s)[y - s] == col[y];
        }
      }
    }
  }

  /** Two shifts down add up. */
  lemma ShiftDownTwice(col: seq<Word>, s: nat, t: nat)
    ensures ShiftDown(ShiftDown(col, s), t) == ShiftDown(col, s + t)
  {
    var twice, once := ShiftDown(ShiftDown(col, s), t), ShiftDown(col, s + t);
    forall y | 0 <= y < |col| ensures twice[y] == once[y] {
      if y >= t {
        assert twice[y] == ShiftDown(col, s)[y - t];
      }
    }
  }

  /** Two shifts up add up. */
  lemma ShiftUpTwice(col: seq<Word>, s: nat, t: nat)
    ensures ShiftUp(ShiftUp(col, s), t) == ShiftUp(col, s + t)
  {
    var twice, once := ShiftUp(ShiftUp(col, s), t), ShiftUp(col, s + t);
    forall y | 0 <= y < |col| ensures twice[y] == once[y] {
      if y + t < |col| {
        assert twice[y] == ShiftUp(col, s)[y + t];
      }
    }
  }

  /** The number of rows each copy of the ingot is moved by: an eighth of the height, rounded down. */
  function IngotShift(height: nat): (s: nat)
    ensures 8 * s <= height < 8 * s + 8
  {
    height * 2 / 16
  }

  /** `copyFrom` between images of the same size: every pixel of `src` copied into `dst`. */
  method CopyFrom(dst: array2<Word>, src: array2<Word>)
    requires dst.Length0 == src.Length0 && dst.Length1 == src.Length1
    modifies dst
    ensures forall x, y :: 0 <= x < dst.Length0 && 0 <= y < dst.Length1 ==> dst[x, y] == old(src[x, y])
    ensures dst != src ==> unchanged(src)
  {
    for x := 0 to dst.Length0
      invariant forall x', y :: 0 <= x' < x && 0 <= y < dst.Length1 ==> dst[x', y] == old(src[x', y])
      invariant forall x', y :: x <= x' < dst.Length0 && 0 <= y < dst.Length1 ==> src[x', y] == old(src[x', y])
    {
      for y := 0 to dst.Length1
        invariant forall x', y' :: 0 <= x' < x && 0 <= y' < dst.Length1 ==> dst[x', y'] == old(src[x', y'])
        invariant forall y' :: 0 <= y' < y ==> dst[x, y'] == old(src[x, y'])
        invariant forall y' :: y <= y' < dst.Length1 ==> src[x, y'] == old(src[x, y'])
        invariant forall x', y' :: x < x' < dst.Length0 && 0 <= y' < dst.Length1 ==> src[x', y'] == old(src[x', y'])
      {
        dst[x, y] := src[x, y];
      }
    }
  }

  /**
   * The first loop of `doubleIngot`: every column moved down by `s` rows in
   * place. Row `y` reads row `y - s`, which is still unwritten because `y`
   * runs from the bottom row upwards.
   */
  method ShiftColumnsDown(image: array2<Word>, s: nat)
    modifies image
    ensures forall x, y :: 0 <= x < image.Length0 && 0 <= y < image.Length1 ==>
      image[x, y] == ShiftDown(old(Column(image, x)), s)[y]
  {
    for x := 0 to image.Length0
      invariant forall x', y :: 0 <= x' < x && 0 <= y < image.Length1 ==>
        image[x', y] == (if y >= s then old(image[x', y - s]) else 0)
      invariant forall x', y :: x <= x' < image.Length0 && 0 <= y < image.Length1 ==>
        image[x', y] == old(image[x', y])
    {
      var y := image.Length1;
      while y > 0
        invariant 0 <= y <= image.Length1
        invariant forall x', y' :: 0 <= x' < x && 0 <= y' < image.Length1 ==>
          image[x', y'] == (if y' >= s then old(image[x', y' - s]) else 0)
        invariant forall y' :: y <= y' < image.Length1 ==>
          image[x, y'] == (if y' >= s then old(image[x, y' - s]) else 0)
        invariant forall y' :: 0 <= y' < y ==> image[x, y'] == old(image[x, y'])
        invariant forall x', y' :: x < x' < image.Length0 && 0 <= y' < image.Length1 ==>
          image[x', y'] == old(image[x', y'])
      {
        y := y - 1;
        if y >= s {
          image[x, y] := image[x, y - s];
        } else {
          image[x, y] := 0;
        }
      }
    }
  }

  /**
   * The second loop of `doubleIngot`: every column moved up by `s` rows in
   * place. Row `y` reads row `y + s`, which is still unwritten because `y`
   * runs from the top row downwards.
   */
  method ShiftColumnsUp(image: array2<Word>, s: nat)
    modifies image
    ensures forall x, y :: 0 <= x < image.Length0 && 0 <= y < image.Length1 ==>
      image[x, y] == ShiftUp(old(Column(image, x)), s)[y]
  {
    for x := 0 to image.Length0
      invariant forall x', y :: 0 <= x' < x && 0 <= y < image.Length1 ==>
        image[x', y] == (if y + s < image.Length1 then old(image[x', y + s]) else 0)
      invariant forall x', y :: x <= x' < image.Length0 && 0 <= y < image.Length1 ==>
        image[x', y] == old(image[x', y])
    {
      for y := 0 to image.Length1
        invariant forall x', y' :: 0 <= x' < x && 0 <= y' < image.Length1 ==>
          image[x', y'] == (if y' + s < image.Length1 then old(image[x', y' + s]) else 0)
        invariant forall y' :: 0 <= y' < y ==>
          image[x, y'] == (if y' + s < image.Length1 then old(image[x, y' + s]) else 0)
        invariant forall y' :: y <= y' < image.Length1 ==> image[x, y'] == old(image[x, y'])
        invariant forall x', y' :: x < x' < image.Length0 && 0 <= y' < image.Length1 ==>
          image[x', y'] == old(image[x', y'])
      {
        if y + s < image.Length1 {
          image[x, y] := image[x, y + s];
        } else {
          image[x, y] := 0;
        }
      }
    }
  }

  /**
   * Overlays two copies of the ingot, one moved down and one moved up by an
   * eighth of the height, the upper copy composited over the lower one, and
   * writes the result back into `image`.
   */
  method DoubleIngot(image: array2<Word>)
    modifies image
    ensures forall x, y :: 0 <= x < image.Length0 && 0 <= y < image.Length1 ==>
      image[x, y] == Blended(ShiftDown(old(Column(image, x)), IngotShift(image.Length1))[y],
                             ShiftUp(old(Column(image, x)), IngotShift(image.Length1))[y])
  {
    ghost var columns := seq(image.Length0, x requires 0 <= x < image.Length0 reads image => Column(image, x));
    ghost var s := IngotShift(image.Length1);

    var lowerIngot := new Word[image.Length0, image.Length1];
    CopyFrom(lowerIngot, image);
    forall x | 0 <= x < image.Length0 ensures Column(lowerIngot, x) == columns[x] {
    }
    var shiftDown := lowerIngot.Length1 * 2 / 16;
    ShiftColumnsDown(lowerIngot, shiftDown);
    label LowerShifted:

    var upperIngot := new Word[image.Length0, image.Length1];
    CopyFrom(upperIngot, image);
    forall x | 0 <= x < image.Length0 ensures Column(upperIngot, x) == columns[x] {
    }
    var shiftUp := upperIngot.Length1 * 2 / 16;
    ShiftColumnsUp(upperIngot, shiftUp);
    label Shifted:
    var outcome := Blend(lowerIngot, upperIngot);
    label Composited:
    CopyFrom(image, lowerIngot);

    forall x, y | 0 <= x < image.Length0 && 0 <= y < image.Length1
      ensures image[x, y] == Blended(ShiftDown(columns[x], s)[y], ShiftUp(columns[x], s)[y])
    {
      var down, up := old@Shifted(lowerIngot[x, y]), old@Shifted(upperIngot[x, y]);
      assert old@LowerShifted(lowerIngot[x, y]) == ShiftDown(columns[x], s)[y];
      assert down == old@LowerShifted(lowerIngot[x, y]);
      assert up == ShiftUp(columns[x], s)[y];
      assert old@Composited(lowerIngot[x, y]) == Blended(down, up);
      assert image[x, y] == old@Composited(lowerIngot[x, y]);
    }
  }

  // ---------------------------------------------------------------------
  // real arithmetic

  lemma MulNonneg(a: real, b: real)
    requires a >= 0.0 && b >= 0.0
    ensures a * b >= 0.0
  {
  }

  lemma MulMono(a: real, b: real, c: real)
    requires a <= b && c >= 0.0
    ensures a * c <= b * c
  {
  }

  lemma DivBounds(x: real, y: real, lo: real, hi: real)
    requires y > 0.0 && lo * y <= x <= hi * y
    ensures lo <= x / y <= hi
  {
  }

  lemma DivSelf(v: real, y: real)
    requires y > 0.0
    ensures (v * y) / y == v
  {
  }
}
