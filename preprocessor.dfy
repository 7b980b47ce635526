/**
  Image preprocessing (`ImagePreprocessor`): the mode's size policy, the
  uniform resize scale, the interleaved-to-planar tensor layout and the
  division by 255. Decoding and resampling the image are done by the image
  library and are not part of this model: the resized image arrives as its
  width, height and interleaved RGB bytes.
*/
module Preprocessor {
  import opened Wrappers

  /** `:fast`, or any other mode, which behaves like the default `:slow`. */
  datatype Mode = Fast | Slow

  /** (min_side, max_side) of the size policy. */
  function SizePolicy(mode: Mode): (nat, nat)
  {
    if mode == Fast then (320, 320) else (800, 1333)
  }

  function MinNat(a: nat, b: nat): nat { if a <= b then a else b }
  function MaxNat(a: nat, b: nat): nat { if a >= b then a else b }
  function MinReal(a: real, b: real): real { if a <= b then a else b }

  /**
    The scale of `resize_image`: `min_side / smallest_side`, lowered to
    `max_side / largest_side` when the longer side would overshoot.
  */
  function ResizeScale(mode: Mode, width: nat, height: nat): real
    requires width >= 1 && height >= 1
  {
    var (minSide, maxSide) := SizePolicy(mode);
    var smallest := MinNat(width, height);
    var scale := minSide as real / smallest as real;
    var largest := MaxNat(width, height);
    if largest as real * scale > maxSide as real then MinReal(scale, maxSide as real / largest as real)
    else scale
  }

  lemma MulLeft(a: real, b: real, c: real)
    requires a > 0.0
    ensures b <= c <==> a * b <= a * c
    ensures b < c <==> a * b < a * c
  {
  }

  lemma DivCancel(n: real, d: real)
    requires d > 0.0
    ensures d * (n / d) == n
  {
  }

  /**
    The scale is the smaller of the two ratios the policy allows, which
    makes it the largest factor that respects both the short-side and the
    long-side limit.
  */
  lemma ResizeScaleIsMinOfRatios(mode: Mode, width: nat, height: nat)
    requires width >= 1 && height >= 1
    ensures var (minSide, maxSide) := SizePolicy(mode);
      ResizeScale(mode, width, height)
        == MinReal(minSide as real / MinNat(width, height) as real,
                   maxSide as real / MaxNat(width, height) as real)
  {
    var (minSide, maxSide) := SizePolicy(mode);
    var smallest, largest := MinNat(width, height) as real, MaxNat(width, height) as real;
    var s := minSide as real / smallest;
    var m := maxSide as real / largest;
    DivCancel(maxSide as real, largest);
    MulLeft(largest, s, m);
  }

  /**
    For positive sizes the scale is positive, the longer side ends up at most
    `max_side` and the shorter side at most `min_side`.
  */
  lemma ResizeScaleBounds(mode: Mode, width: nat, height: nat)
    requires width >= 1 && height >= 1
    ensures var (minSide, maxSide) := SizePolicy(mode);
      var scale := ResizeScale(mode, width, height);
      && scale > 0.0
      && MaxNat(width, height) as real * scale <= maxSide as real
      && MinNat(width, height) as real * scale <= minSide as real
  {
    ResizeScaleIsMinOfRatios(mode, width, height);
    var (minSide, maxSide) := SizePolicy(mode);
    var smallest, largest := MinNat(width, height) as real, MaxNat(width, height) as real;
    var s := minSide as real / smallest;
    var m := maxSide as real / largest;
    DivCancel(minSide as real, smallest);
    DivCancel(maxSide as real, largest);
    var scale := ResizeScale(mode, width, height);
    MulLeft(largest, scale, m);
    MulLeft(smallest, scale, s);
  }

  /** No factor larger than the scale meets both the short-side and the long-side limit. */
  lemma ResizeScaleIsLargestAllowed(mode: Mode, width: nat, height: nat, other: real)
    requires width >= 1 && height >= 1
    requires other > ResizeScale(mode, width, height)
    ensures var (minSide, maxSide) := SizePolicy(mode);
      MaxNat(width, height) as real * other > maxSide as real
      || MinNat(width, height) as real * other > minSide as real
  {
    ResizeScaleIsMinOfRatios(mode, width, height);
    var (minSide, maxSide) := SizePolicy(mode);
    var smallest, largest := MinNat(width, height) as real, MaxNat(width, height) as real;
    var s := minSide as real / smallest;
    var m := maxSide as real / largest;
    DivCancel(minSide as real, smallest);
    DivCancel(maxSide as real, largest);
    if ResizeScale(mode, width, height) == m {
      MulLeft(largest, m, other);
    } else {
      MulLeft(smallest, s, other);
    }
  }

  /** In fast mode both limits are 320, so the longer side sets the scale. */
  lemma FastScaleFromLongerSide(width: nat, height: nat)
    requires width >= 1 && height >= 1
    ensures ResizeScale(Fast, width, height) == 320.0 / MaxNat(width, height) as real
  {
    ResizeScaleIsMinOfRatios(Fast, width, height);
    var smallest, largest := MinNat(width, height) as real, MaxNat(width, height) as real;
    DivCancel(320.0, smallest);
    DivCancel(320.0, largest);
    MulLeft(smallest, 320.0 / largest, 320.0 / smallest);
    assert smallest * (320.0 / largest) <= largest * (320.0 / largest);
  }

  /** A 1000 x 500 image in fast mode is scaled by 0.32, which brings its longer side to 320. */
  lemma FastScaleExample()
    ensures ResizeScale(Fast, 1000, 500) == 0.32
  {
  }

  // ---------------------------------------------------------------------------
  // Tensor layout

  /** One unsigned 8-bit sample of the image library's pixel buffer. */
  newtype byte = x: int | 0 <= x < 256

  /** Why building the tensor fails: the buffer is not height x width x 3 samples. */
  datatype PreprocessError = ShapeMismatch

  /** Flat position of sample (y, x, c) in the interleaved buffer reshaped to [H, W, 3]. */
  function HwcIndex(width: nat, y: nat, x: nat, c: nat): nat
  {
    (y * width + x) * 3 + c
  }

  /** Every (y, x, c) of an H x W x 3 image lands inside the buffer. */
  lemma HwcIndexInRange(height: nat, width: nat, y: nat, x: nat, c: nat)
    requires y < height && x < width && c < 3
    ensures HwcIndex(width, y, x, c) < height * width * 3
  {
    RowStart(width, y, height);
    var p := y * width + x;
    assert p < height * width;
    assert p * 3 + c < height * width * 3;
  }

  /** Pixel rows do not overlap: row y ends before row y + 1 starts. */
  lemma RowStart(width: nat, y1: nat, y2: nat)
    requires y1 < y2
    ensures y1 * width + width <= y2 * width
  {
    var d := y2 - y1 - 1;
    assert y2 * width == y1 * width + width + d * width;
  }

  /** Distinct samples have distinct positions, so the layout change copies each byte once. */
  lemma HwcIndexInjective(width: nat, y1: nat, x1: nat, c1: nat, y2: nat, x2: nat, c2: nat)
    requires x1 < width && x2 < width && c1 < 3 && c2 < 3
    requires HwcIndex(width, y1, x1, c1) == HwcIndex(width, y2, x2, c2)
    ensures y1 == y2 && x1 == x2 && c1 == c2
  {
    var p1, p2 := y1 * width + x1, y2 * width + x2;
    assert c1 == c2 && p1 == p2;
    if y1 < y2 {
      RowStart(width, y1, y2);
    } else if y2 < y1 {
      RowStart(width, y2, y1);
    }
  }

  /** Every buffer position holds some sample (y, x, c). */
  lemma HwcIndexOnto(height: nat, width: nat, k: nat)
    requires k < height * width * 3
    ensures exists y: nat, x: nat, c: nat ::
      y < height && x < width && c < 3 && HwcIndex(width, y, x, c) == k
  {
    var p, c := k / 3, k % 3;
    assert width > 0;
    var y, x := p / width, p % width;
    assert p < height * width;
    assert y < height;
    assert HwcIndex(width, y, x, c) == k;
  }

  /** Sample (y, x, c) of an interleaved H x W x 3 buffer, cast to a real. */
  function Sample(buffer: seq<byte>, height: nat, width: nat, y: nat, x: nat, c: nat): (r: real)
    requires |buffer| == height * width * 3 && y < height && x < width && c < 3
    ensures 0.0 <= r <= 255.0
  {
    HwcIndexInRange(height, width, y, x, c);
    buffer[HwcIndex(width, y, x, c)] as real
  }

  /** `arr` is shaped [3, height, width]. */
  predicate IsChw(arr: array3<real>, height: nat, width: nat)
  {
    arr.Length0 == 3 && arr.Length1 == height && arr.Length2 == width
  }

  /**
    `rgb_chw[c, true, true] = rgb_hwc[true, true, c]`: writes plane c of the
    tensor from the c-th sample of every pixel and leaves the other planes.
  */
  method CopyPlane(chw: array3<real>, buffer: seq<byte>, height: nat, width: nat, c: nat)
    requires IsChw(chw, height, width) && |buffer| == height * width * 3 && c < 3
    modifies chw
    ensures forall y, x :: 0 <= y < height && 0 <= x < width ==>
      chw[c, y, x] == Sample(buffer, height, width, y, x, c)
    ensures forall p, y, x :: 0 <= p < 3 && p != c && 0 <= y < height && 0 <= x < width ==>
      chw[p, y, x] == old(chw[p, y, x])
  {
    for y := 0 to height
      invariant forall y', x :: 0 <= y' < y && 0 <= x < width ==>
        chw[c, y', x] == Sample(buffer, height, width, y', x, c)
      invariant forall p, y', x :: 0 <= p < 3 && p != c && 0 <= y' < height && 0 <= x < width ==>
        chw[p, y', x] == old(chw[p, y', x])
    {
      for x := 0 to width
        invariant forall y', x' :: 0 <= y' < y && 0 <= x' < width ==>
          chw[c, y', x'] == Sample(buffer, height, width, y', x', c)
        invariant forall x' :: 0 <= x' < x ==>
          chw[c, y, x'] == Sample(buffer, height, width, y, x', c)
        invariant forall p, y', x' :: 0 <= p < 3 && p != c && 0 <= y' < height && 0 <= x' < width ==>
          chw[p, y', x'] == old(chw[p, y', x'])
      {
        chw[c, y, x] := Sample(buffer, height, width, y, x, c);
      }
    }
  }

  /**
    `to_rgb_nchw`: reshape the interleaved bytes to [H, W, 3] (which fails
    unless there are exactly H * W * 3 of them), allocate a zero [3, H, W]
    tensor and fill its R, G and B planes, so that chw[c][y][x] == hwc[y][x][c].
  */
  method ToRgbNchw(buffer: seq<byte>, height: nat, width: nat)
    returns (r: Result<array3<real>, PreprocessError>)
    ensures r.Failure? <==> |buffer| != height * width * 3
    ensures r.Success? ==> fresh(r.value) && IsChw(r.value, height, width)
    ensures r.Success? ==> forall c, y, x :: 0 <= c < 3 && 0 <= y < height && 0 <= x < width ==>
      r.value[c, y, x] == Sample(buffer, height, width, y, x, c)
  {
    if |buffer| != height * width * 3 {
      return Failure(ShapeMismatch);
    }
    var chw := new real[3, height, width]((c, y, x) => 0.0);
    CopyPlane(chw, buffer, height, width, 0);
    CopyPlane(chw, buffer, height, width, 1);
    CopyPlane(chw, buffer, height, width, 2);
    return Success(chw);
  }

  /** `rgb_nchw / 255.0`: a new tensor of the same shape. */
  method Normalize(chw: array3<real>) returns (out: array3<real>)
    ensures fresh(out)
    ensures out.Length0 == chw.Length0 && out.Length1 == chw.Length1 && out.Length2 == chw.Length2
    ensures forall c, y, x :: 0 <= c < out.Length0 && 0 <= y < out.Length1 && 0 <= x < out.Length2 ==>
      out[c, y, x] == chw[c, y, x] / 255.0
  {
    out := new real[chw.Length0, chw.Length1, chw.Length2]((c, y, x) reads chw
      requires 0 <= c < chw.Length0 && 0 <= y < chw.Length1 && 0 <= x < chw.Length2 =>
      chw[c, y, x] / 255.0);
  }

  /**
    `preprocess`: the scale for the original size, and the resized image's
    bytes as a [3, H, W] tensor with every sample divided by 255, hence in
    [0, 1].
  */
  method Preprocess(mode: Mode, width: nat, height: nat,
                    resizedWidth: nat, resizedHeight: nat, buffer: seq<byte>)
    returns (r: Result<(array3<real>, real), PreprocessError>)
    requires width >= 1 && height >= 1
    ensures r.Failure? <==> |buffer| != resizedHeight * resizedWidth * 3
    ensures r.Success? ==> r.value.1 == ResizeScale(mode, width, height)
    ensures r.Success? ==> fresh(r.value.0) && IsChw(r.value.0, resizedHeight, resizedWidth)
    ensures r.Success? ==> forall c, y, x :: 0 <= c < 3 && 0 <= y < resizedHeight && 0 <= x < resizedWidth ==>
      r.value.0[c, y, x] == Sample(buffer, resizedHeight, resizedWidth, y, x, c) / 255.0
      && 0.0 <= r.value.0[c, y, x] <= 1.0
  {
    var scale := ResizeScale(mode, width, height);
    var chw := ToRgbNchw(buffer, resizedHeight, resizedWidth);
    if chw.Failure? {
      return Failure(chw.error);
    }
    var tensor := Normalize(chw.value);
    return Success((tensor, scale));
  }
}
