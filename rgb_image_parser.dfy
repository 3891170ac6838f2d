/** Raw pixel blobs of the legacy format: ARGB (4 bytes per pixel) or RGB (3 bytes per pixel,
    opaque), packed into 32-bit words `a << 24 | r << 16 | g << 8 | b`, with the image size
    guessed from the byte count when it is not stored. */
module RGBImageParser {
  import opened JavaTypes

  /** A pixel word from its four channels. */
  function Pack(a: byte, r: byte, g: byte, b: byte): int32
  {
    Word(b, g, r, a)
  }

  function Alpha(p: int32): byte { ByteOf(p, 3) }
  function Red(p: int32): byte { ByteOf(p, 2) }
  function Green(p: int32): byte { ByteOf(p, 1) }
  function Blue(p: int32): byte { ByteOf(p, 0) }

  /** Packing and unpacking are inverse: the channels of a packed word are the channels it
      was packed from, and every word is the packing of its own channels. */
  lemma PackUnpack(a: byte, r: byte, g: byte, b: byte, p: int32)
    ensures var q := Pack(a, r, g, b);
      Alpha(q) == a && Red(q) == r && Green(q) == g && Blue(q) == b
    ensures Pack(Alpha(p), Red(p), Green(p), Blue(p)) == p
  {
    WordBytes(b, g, r, a);
    BytesWord(p);
  }

  /** Pixel `i` of an ARGB blob: bytes `4i .. 4i + 3` as alpha, red, green, blue. */
  function ArgbPixel(data: ByteArray, i: nat): int32
    requires 4 * i + 4 <= |data|
  {
    Pack(data[4 * i], data[4 * i + 1], data[4 * i + 2], data[4 * i + 3])
  }

  /** Pixel `i` of an RGB blob: bytes `3i .. 3i + 2` as red, green, blue, fully opaque. */
  function RgbPixel(data: ByteArray, i: nat): int32
    requires 3 * i + 3 <= |data|
  {
    Pack(0xFF, data[3 * i], data[3 * i + 1], data[3 * i + 2])
  }

  function ArgbPixels(data: ByteArray, n: nat): (r: seq<int32>)
    requires 4 * n <= |data|
    ensures |r| == n
  {
    seq(n, i requires 0 <= i < n => ArgbPixel(data, i))
  }

  function RgbPixels(data: ByteArray, n: nat): (r: seq<int32>)
    requires 3 * n <= |data|
    ensures |r| == n
  {
    seq(n, i requires 0 <= i < n => RgbPixel(data, i))
  }

  /** What `parseRGBArray` returns, with `width * height` and the byte counts computed in
      32-bit ints. A negative pixel count ends in `NegativeArraySizeException`, and a count
      whose byte size wrapped ends in an out-of-bounds read. */
  function RgbArray(data: ByteArray, width: int32, height: int32): JResult<seq<int32>>
  {
    if width <= 0 || height <= 0 then Null
    else
      var pixelCount := Wrap(width as int * height);
      var expectedSize := Wrap(pixelCount as int * 4);
      if |data| < expectedSize then
        if |data| >= Wrap(pixelCount as int * 3) then RgbArray3Bytes(data, width, height) else Null
      else if pixelCount < 0 || 4 * pixelCount > |data| then Raised
      else Ok(ArgbPixels(data, pixelCount))
  }

  /** What `parseRGBArray3Bytes` returns. */
  function RgbArray3Bytes(data: ByteArray, width: int32, height: int32): JResult<seq<int32>>
  {
    var pixelCount := Wrap(width as int * height);
    if pixelCount < 0 || 3 * pixelCount > |data| then Raised
    else Ok(RgbPixels(data, pixelCount))
  }

  /** `parseRGBArray`: fills `int[width * height]`, four bytes per pixel, or hands over to the
      three-byte reader when the blob is too short for four. */
  method ParseRgbArray(data: ByteArray, width: int32, height: int32) returns (r: JResult<seq<int32>>)
    ensures r == RgbArray(data, width, height)
  {
    if width <= 0 || height <= 0 {
      return Null;
    }
    var pixelCount := Wrap(width as int * height);
    var expectedSize := Wrap(pixelCount as int * 4);
    if |data| < expectedSize {
      if |data| >= Wrap(pixelCount as int * 3) {
        r := ParseRgbArray3Bytes(data, width, height);
        return;
      }
      return Null;
    }
    if pixelCount < 0 {
      return Raised;
    }
    var rgb := new int32[pixelCount];
    var offset := 0;
    var i := 0;
    while i < pixelCount
      invariant 0 <= i <= pixelCount && offset == 4 * i && offset <= |data|
      invariant forall j :: 0 <= j < i ==> rgb[j] == ArgbPixel(data, j)
    {
      if offset + 4 > |data| {
        return Raised;
      }
      var a, red, g, b := data[offset], data[offset + 1], data[offset + 2], data[offset + 3];
      offset := offset + 4;
      rgb[i] := Pack(a, red, g, b);
      i := i + 1;
    }
    assert rgb[..] == ArgbPixels(data, pixelCount);
    return Ok(rgb[..]);
  }

  /** `parseRGBArray3Bytes`: three bytes per pixel, alpha forced to 0xFF. */
  method ParseRgbArray3Bytes(data: ByteArray, width: int32, height: int32) returns (r: JResult<seq<int32>>)
    ensures r == RgbArray3Bytes(data, width, height)
  {
    var pixelCount := Wrap(width as int * height);
    if pixelCount < 0 {
      return Raised;
    }
    var rgb := new int32[pixelCount];
    var offset := 0;
    var i := 0;
    while i < pixelCount
      invariant 0 <= i <= pixelCount && offset == 3 * i && offset <= |data|
      invariant forall j :: 0 <= j < i ==> rgb[j] == RgbPixel(data, j)
    {
      if offset + 3 > |data| {
        return Raised;
      }
      var red, g, b := data[offset], data[offset + 1], data[offset + 2];
      offset := offset + 3;
      rgb[i] := Pack(0xFF, red, g, b);
      i := i + 1;
    }
    assert rgb[..] == RgbPixels(data, pixelCount);
    return Ok(rgb[..]);
  }

  /** While `4 * width * height` fits in an int nothing wraps: non-positive sizes give null;
      a blob of at least four bytes per pixel gives `width * height` ARGB words from its
      prefix (trailing bytes ignored); one of at least three bytes per pixel gives opaque
      RGB words; anything shorter gives null. */
  lemma RgbArrayNoOverflow(data: ByteArray, width: int32, height: int32)
    requires 4 * (width as int * height) <= MAX
    ensures var n := width as int * height;
      RgbArray(data, width, height) ==
        if width <= 0 || height <= 0 then Null
        else if |data| >= 4 * n then Ok(ArgbPixels(data, n))
        else if |data| >= 3 * n then Ok(RgbPixels(data, n))
        else Null
  {
    if width > 0 && height > 0 {
      var n := width as int * height;
      MulAtLeast(width as int, height as int);
      assert 0 < n;
    }
  }

  /** The words `parseRGBArray` produces carry the blob's bytes as their channels. */
  lemma PixelChannels(data: ByteArray, i: nat)
    ensures 4 * i + 4 <= |data| ==> var p := ArgbPixel(data, i);
      Alpha(p) == data[4 * i] && Red(p) == data[4 * i + 1] && Green(p) == data[4 * i + 2] && Blue(p) == data[4 * i + 3]
    ensures 3 * i + 3 <= |data| ==> var p := RgbPixel(data, i);
      Alpha(p) == 0xFF && Red(p) == data[3 * i] && Green(p) == data[3 * i + 1] && Blue(p) == data[3 * i + 2]
  {
    if 4 * i + 4 <= |data| {
      WordBytes(data[4 * i + 3], data[4 * i + 2], data[4 * i + 1], data[4 * i]);
    }
    if 3 * i + 3 <= |data| {
      WordBytes(data[3 * i + 2], data[3 * i + 1], data[3 * i], 0xFF);
    }
  }

  /** The ARGB blob a writer produces for a sequence of pixel words. */
  function ArgbBytes(pixels: seq<int32>): (r: seq<byte>)
    ensures |r| == 4 * |pixels|
  {
    if pixels == [] then []
    else
      var p := pixels[0];
      [Alpha(p), Red(p), Green(p), Blue(p)] + ArgbBytes(pixels[1..])
  }

  lemma {:induction false} ArgbBytesAt(pixels: seq<int32>, i: nat)
    requires i < |pixels|
    ensures var p := pixels[i]; var b := ArgbBytes(pixels);
      b[4 * i] == Alpha(p) && b[4 * i + 1] == Red(p) && b[4 * i + 2] == Green(p) && b[4 * i + 3] == Blue(p)
  {
    if i > 0 {
      ArgbBytesAt(pixels[1..], i - 1);
      var whole, rest := ArgbBytes(pixels), ArgbBytes(pixels[1..]);
      assert whole[4..] == rest;
    }
  }

  /** Parsing the bytes a writer produced for `pixels` gives the pixels back. */
  lemma ArgbRoundTrip(pixels: seq<int32>)
    requires 4 * |pixels| <= MAX
    ensures ArgbPixels(ArgbBytes(pixels), |pixels|) == pixels
  {
    var data: ByteArray := ArgbBytes(pixels);
    forall i | 0 <= i < |pixels|
      ensures ArgbPixel(data, i) == pixels[i]
    {
      ArgbBytesAt(pixels, i);
      BytesWord(pixels[i]);
    }
  }

  // ---- detectDimensions ----

  /** The aspect ratios tried, in order, as (width, height). */
  const RATIOS: seq<(int, int)> := [(16, 9), (4, 3), (3, 2), (2, 1), (1, 1)]

  function BytesPerPixel(hasAlpha: bool): int
  {
    if hasAlpha then 4 else 3
  }

  function SqrtFrom(n: nat, r: nat): (s: nat)
    requires r * r <= n
    ensures s * s <= n < (s + 1) * (s + 1)
    decreases n - r
  {
    if n < (r + 1) * (r + 1) then r
    else
      MulAtLeast(r + 1, r + 1);
      SqrtFrom(n, r + 1)
  }

  /** `(int) Math.sqrt(n)`. For `n` below 2^31 the correctly rounded double square root never
      reaches the next integer, so the cast yields the floor of the exact root. */
  function FloorSqrt(n: nat): (s: nat)
    ensures s * s <= n < (s + 1) * (s + 1)
    ensures s <= n
  {
    var s := SqrtFrom(n, 0);
    SquareAtLeastSelf(s);
    s
  }

  lemma SquareAtLeastSelf(s: nat)
    ensures s <= s * s
  {
    if s > 0 {
      MulAtLeast(s, s);
    }
  }

  /** The first ratio from index `k` on that divides `pixelCount`, scaled by
      `pixelCount / (w * h)`, provided both scaled sides are positive ints. */
  function RatioDimensions(pixelCount: int, k: nat): Option<(int32, int32)>
    requires k <= |RATIOS|
    decreases |RATIOS| - k
  {
    if k == |RATIOS| then None
    else
      var (w, h) := RATIOS[k];
      if pixelCount % (w * h) == 0 then
        var scale := pixelCount / (w * h);
        var width := Wrap(w * scale);
        var height := Wrap(h * scale);
        if width > 0 && height > 0 then Some((width, height)) else RatioDimensions(pixelCount, k + 1)
      else RatioDimensions(pixelCount, k + 1)
  }

  /** What `detectDimensions` returns. */
  function Dimensions(dataSize: int32, hasAlpha: bool): Option<(int32, int32)>
  {
    if dataSize <= 0 then None
    else
      var pixelCount := dataSize / BytesPerPixel(hasAlpha);
      if pixelCount <= 0 then None
      else
        var s := FloorSqrt(pixelCount);
        if s * s == pixelCount then Some((s, s)) else RatioDimensions(pixelCount, 0)
  }

  lemma {:induction false} RatioScaled(pixelCount: int, k: nat)
    requires 0 < pixelCount <= MAX && k < |RATIOS|
    requires pixelCount % (RATIOS[k].0 * RATIOS[k].1) == 0
    ensures var (w, h) := RATIOS[k]; var scale := pixelCount / (w * h);
      0 < scale && 0 < w * scale <= pixelCount && 0 < h * scale <= pixelCount
  {
    var (w, h) := RATIOS[k];
    var scale := pixelCount / (w * h);
    assert scale * (w * h) == pixelCount;
    assert scale > 0;
    assert w * scale <= pixelCount by {
      assert pixelCount == (w * scale) * h;
      MulAtLeast(w * scale, h);
    }
    assert h * scale <= pixelCount by {
      assert pixelCount == (h * scale) * w;
      MulAtLeast(h * scale, w);
    }
  }

  /** The ratio list ends with 1:1, which divides every count, so the ratio search always
      succeeds and the factor search after it is never reached. */
  lemma {:induction false} RatioDimensionsFound(pixelCount: int, k: nat)
    requires 0 < pixelCount <= MAX && k < |RATIOS|
    ensures RatioDimensions(pixelCount, k).Some?
    decreases |RATIOS| - k
  {
    var (w, h) := RATIOS[k];
    if pixelCount % (w * h) == 0 {
      RatioScaled(pixelCount, k);
    }
    if k + 1 < |RATIOS| {
      RatioDimensionsFound(pixelCount, k + 1);
    }
  }

  /** `detectDimensions`: a square first, then the ratios in order. */
  method DetectDimensions(dataSize: int32, hasAlpha: bool) returns (r: Option<(int32, int32)>)
    ensures r == Dimensions(dataSize, hasAlpha)
  {
    if dataSize <= 0 {
      return None;
    }
    var bytesPerPixel := if hasAlpha then 4 else 3;
    var pixelCount := dataSize / bytesPerPixel;
    if pixelCount <= 0 {
      return None;
    }
    var sqrt := FloorSqrt(pixelCount);
    if sqrt * sqrt == pixelCount {
      return Some((sqrt, sqrt));
    }
    RatioDimensionsFound(pixelCount, 0);
    var k := 0;
    while k < |RATIOS|
      invariant 0 <= k <= |RATIOS|
      invariant RatioDimensions(pixelCount, k) == RatioDimensions(pixelCount, 0)
    {
      var (w, h) := RATIOS[k];
      if pixelCount % (w * h) == 0 {
        var scale := pixelCount / (w * h);
        var width := Wrap(w * scale);
        var height := Wrap(h * scale);
        if width > 0 && height > 0 {
          return Some((width, height));
        }
      }
      k := k + 1;
    }
    assert false;
  }

  /** `detectDimensions` is null exactly when the blob holds less than one pixel. */
  lemma DimensionsNone(dataSize: int32, hasAlpha: bool)
    ensures Dimensions(dataSize, hasAlpha).None? <==> dataSize < BytesPerPixel(hasAlpha)
  {
    if dataSize >= BytesPerPixel(hasAlpha) {
      var pixelCount := dataSize / BytesPerPixel(hasAlpha);
      RatioDimensionsFound(pixelCount, 0);
    }
  }

  lemma SquareMonotone(a: nat, b: nat)
    requires a <= b
    ensures a * a <= b * b
  {
    assert b * b - a * a == (b - a) * (b + a);
  }

  /** The floor of the square root is the only `s` with `s * s <= n < (s + 1) * (s + 1)`. */
  lemma FloorSqrtUnique(n: nat, s: nat)
    requires s * s <= n < (s + 1) * (s + 1)
    ensures FloorSqrt(n) == s
  {
    var r := FloorSqrt(n);
    if r < s {
      SquareMonotone(r + 1, s);
    } else if r > s {
      SquareMonotone(s + 1, r);
    }
  }

  /** A pixel count that is a perfect square `s * s` gives an `s` by `s` image. */
  lemma DimensionsSquare(dataSize: int32, hasAlpha: bool, s: nat)
    requires s > 0 && dataSize / BytesPerPixel(hasAlpha) == s * s
    ensures Dimensions(dataSize, hasAlpha) == Some((s, s))
  {
    FloorSqrtUnique(s * s, s);
  }

  /** Otherwise the first ratio `w:h` dividing the pixel count P wins and gives
      `(w * k, h * k)` with `k = P / (w * h)`: an image of `P * k` pixels, which is P only
      when `k` is 1. */
  lemma DimensionsRatio(dataSize: int32, hasAlpha: bool, j: nat)
    requires dataSize > 0
    requires var p := dataSize / BytesPerPixel(hasAlpha);
      p > 0 && FloorSqrt(p) * FloorSqrt(p) != p
    requires j < |RATIOS|
    requires var p := dataSize / BytesPerPixel(hasAlpha);
      p % (RATIOS[j].0 * RATIOS[j].1) == 0 &&
      forall i :: 0 <= i < j ==> p % (RATIOS[i].0 * RATIOS[i].1) != 0
    ensures var p := dataSize / BytesPerPixel(hasAlpha);
      var (w, h) := RATIOS[j]; var k := p / (w * h);
      Dimensions(dataSize, hasAlpha) == Some((w * k, h * k)) &&
      (w * k) * (h * k) == p * k
  {
    var p := dataSize / BytesPerPixel(hasAlpha);
    RatioSkip(p, 0, j);
    RatioHit(p, j);
    ScaledProduct(p, RATIOS[j].0, RATIOS[j].1);
  }

  lemma RatioHit(pixelCount: int, j: nat)
    requires 0 < pixelCount <= MAX && j < |RATIOS|
    requires pixelCount % (RATIOS[j].0 * RATIOS[j].1) == 0
    ensures var (w, h) := RATIOS[j]; var k := pixelCount / (w * h);
      RatioDimensions(pixelCount, j) == Some((w * k, h * k))
  {
    RatioScaled(pixelCount, j);
  }

  lemma ScaledProduct(p: int, w: int, h: int)
    requires w * h > 0 && p % (w * h) == 0
    ensures var k := p / (w * h); (w * k) * (h * k) == p * k
  {
    var k := p / (w * h);
    assert k * (w * h) == p;
    assert (w * k) * (h * k) == (k * (w * h)) * k;
  }

  /** Ratios that do not divide the count are passed over. */
  lemma {:induction false} RatioSkip(pixelCount: int, i: nat, j: nat)
    requires i <= j < |RATIOS|
    requires forall m :: i <= m < j ==> pixelCount % (RATIOS[m].0 * RATIOS[m].1) != 0
    ensures RatioDimensions(pixelCount, i) == RatioDimensions(pixelCount, j)
    decreases j - i
  {
    if i < j {
      RatioSkip(pixelCount, i + 1, j);
    }
  }

  /** An odd pixel count that is not a square is divisible by none of 144, 12, 6 and 2, so
      it gives the square image `(P, P)` of P * P pixels. */
  lemma DimensionsOddCount(dataSize: int32, hasAlpha: bool)
    requires dataSize > 0
    requires var p := dataSize / BytesPerPixel(hasAlpha);
      p > 0 && p % 2 == 1 && FloorSqrt(p) * FloorSqrt(p) != p
    ensures var p := dataSize / BytesPerPixel(hasAlpha);
      Dimensions(dataSize, hasAlpha) == Some((p, p))
  {
    var p := dataSize / BytesPerPixel(hasAlpha);
    assert p % 144 != 0 && p % 12 != 0 && p % 6 != 0 && p % 2 != 0;
    DimensionsRatio(dataSize, hasAlpha, 4);
  }

  // ---- parseRGBArrayWithAutoDimensions ----

  /** `RGBImageData`. */
  datatype RgbImageData = RgbImageData(rgb: seq<int32>, width: int32, height: int32)

  /** `parseRGBArrayWithAutoDimensions`: an empty blob gives null; a result carries the
      detected dimensions and exactly `width * height` (as a 32-bit product) words. */
  function ParseRgbArrayWithAutoDimensions(data: ByteArray, hasAlpha: bool): (r: JResult<RgbImageData>)
    ensures |data| == 0 ==> r == Null
    ensures r.Ok? ==> Dimensions(|data|, hasAlpha) == Some((r.value.width, r.value.height)) &&
                      |r.value.rgb| == Wrap(r.value.width as int * r.value.height) &&
                      r.value.width > 0 && r.value.height > 0
  {
    if |data| == 0 then Null
    else
      match Dimensions(|data|, hasAlpha)
      case None => Null
      case Some((width, height)) =>
        match RgbArray(data, width, height)
        case Ok(rgb) => Ok(RgbImageData(rgb, width, height))
        case Null => Null
        case Raised => Raised
  }

  /** The bytes a writer produced for an `s` by `s` ARGB image parse back, dimensions
      included, to that image. */
  lemma AutoDimensionsSquareRoundTrip(pixels: seq<int32>, s: nat)
    requires s > 0 && |pixels| == s * s && 4 * (s * s) <= MAX
    ensures ParseRgbArrayWithAutoDimensions(ArgbBytes(pixels), true) == Ok(RgbImageData(pixels, s, s))
  {
    var data: ByteArray := ArgbBytes(pixels);
    DimensionsSquare(|data|, true, s);
    MulAtLeast(s, s);
    RgbArrayNoOverflow(data, s, s);
    ArgbRoundTrip(pixels);
  }

  /** A 96-byte ARGB blob holds 24 pixels, but the 4:3 ratio scales to 8 by 6 (48 pixels),
      which neither layout can fill: the blob is rejected. */
  lemma AutoDimensionsMismatch(data: ByteArray)
    requires |data| == 96
    ensures Dimensions(96, true) == Some((8, 6))
    ensures ParseRgbArrayWithAutoDimensions(data, true) == Null
  {
    FloorSqrtUnique(24, 4);
    DimensionsRatio(96, true, 1);
  }

  /** A 262140-byte ARGB blob holds 65535 pixels, an odd non-square, so the guess is
      65535 by 65535; that product wraps to -131071 and allocating the pixel array throws. */
  lemma AutoDimensionsOverflow(data: ByteArray)
    requires |data| == 262140
    ensures Dimensions(262140, true) == Some((65535, 65535))
    ensures ParseRgbArrayWithAutoDimensions(data, true) == Raised
  {
    FloorSqrtUnique(65535, 255);
    DimensionsOddCount(262140, true);
    assert Wrap(65535 * 65535) == -131071;
  }
}
