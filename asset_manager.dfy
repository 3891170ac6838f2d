/** The asset loader: a cache of decoded images keyed by resource path, filled by a chain of
    decoding strategies for resources whose name does not say what they hold. */
module Assets {
  import opened JavaTypes
  import opened ImageApi
  import opened FileTypeDetector
  import opened J2MEResourceParser
  import opened RGBImageParser

  // ---- Decimal numbers, as string concatenation prints an int ----

  function DigitChar(d: nat): char
    requires d < 10
  {
    ('0' as int + d) as char
  }

  /** The decimal digits of `n`, without leading zeros. */
  function Digits(n: nat): (s: string)
    ensures |s| > 0 && forall i :: 0 <= i < |s| ==> '0' <= s[i] <= '9'
  {
    if n < 10 then [DigitChar(n)] else Digits(n / 10) + [DigitChar(n % 10)]
  }

  /** The number a string of decimal digits denotes. */
  function DigitsValue(s: string): int
  {
    if |s| == 0 then 0 else 10 * DigitsValue(s[..|s| - 1]) + (s[|s| - 1] as int - '0' as int)
  }

  /** Printing a number and reading it back gives the number. */
  lemma {:induction false} DigitsRoundTrip(n: nat)
    ensures DigitsValue(Digits(n)) == n
  {
    var s := Digits(n);
    if n >= 10 {
      DigitsRoundTrip(n / 10);
      assert s[..|s| - 1] == Digits(n / 10);
    }
  }

  /** `Integer.toString`. */
  function IntToString(n: int): (s: string)
    ensures |s| > 0 && '0' <= s[|s| - 1] <= '9'
  {
    if n < 0 then "-" + Digits(-n) else Digits(n)
  }

  /** Only negative numbers print with a leading minus sign. */
  lemma SignOfIntToString(n: int)
    ensures IntToString(n)[0] == '-' <==> n < 0
  {
    if n >= 0 {
      var d := Digits(n);
      assert '0' <= d[0] <= '9';
    }
  }

  /** Distinct numbers print differently. */
  lemma IntToStringInjective(a: int, b: int)
    requires IntToString(a) == IntToString(b)
    ensures a == b
  {
    SignOfIntToString(a);
    SignOfIntToString(b);
    if a < 0 {
      var s := IntToString(a);
      assert s[1..] == Digits(-a) && s[1..] == Digits(-b);
      DigitsRoundTrip(-a);
      DigitsRoundTrip(-b);
    } else {
      DigitsRoundTrip(a);
      DigitsRoundTrip(b);
    }
  }

  // ---- Cache keys ----

  /** How a resource without a usable extension was decoded; each strategy caches its image
      under the path with its own suffix. */
  datatype Strategy =
    | ViaImageIO
    | Sniffed(format: string)
    | J2MESection(index: nat)
    | Extracted(format: string, offset: nat)
    | Direct

  /** The key a strategy caches under: the path followed by a bracketed tag. */
  function CacheKey(path: string, s: Strategy): (k: string)
    ensures |k| > |path| + 1 && k[..|path|] == path && k[|path|] == '[' && k[|k| - 1] == ']'
  {
    var tag := match s
      case ViaImageIO => "ImageIO"
      case Sniffed(f) => f
      case J2MESection(i) => "J2ME-section" + Digits(i)
      case Extracted(f, off) => "Extracted-" + f + "@" + Digits(off)
      case Direct => "Direct";
    var k := path + "[" + tag + "]";
    assert k[..|path|] == path;
    k
  }

  /** The cache and the set of paths already reported as undecodable. */
  datatype Cache = Cache(images: map<string, Image>, skipped: set<string>)

  /** What a load returns (`None` for null) and the cache it leaves. */
  datatype Outcome = Outcome(image: Option<Image>, cache: Cache)

  /** Every cached image passed the checks a strategy makes before caching. */
  predicate AllUsable(images: map<string, Image>)
  {
    forall k :: k in images ==> Usable(images[k])
  }

  function ImageOf(hit: Option<(Strategy, Image)>): Option<Image>
  {
    if hit.Some? then Some(hit.value.1) else None
  }

  /** The cache after a strategy's `images.put`, if it succeeded. */
  function Put(images: map<string, Image>, path: string, hit: Option<(Strategy, Image)>): map<string, Image>
  {
    if hit.Some? then images[CacheKey(path, hit.value.0) := hit.value.1] else images
  }

  // ---- The decoding strategies ----

  /** `ImageIO.read`, then `isValidBufferedImage`, the PNG bridge, the error flag and
      `validateImage`; null or an exception at any step means no image. */
  function ReadViaImageIO(env: Environment, data: ByteArray): (r: Option<Image>)
    ensures r.Some? ==> Usable(r.value)
  {
    match env.imageIORead(data)
    case Ok(buffered) =>
      if !IsValidBufferedImage(buffered) then None
      else (
        match env.pngBridge(buffered)
        case None => None
        case Some(image) => if image.isError || !ValidateImage(Some(image)) then None else Some(image))
    case _ => None
  }

  /** Magic-byte detection followed by the JavaFX decoder. */
  function SniffAttempt(env: Environment, data: ByteArray): (r: Option<(Strategy, Image)>)
    ensures r.Some? ==> Usable(r.value.1) && r.value.0.Sniffed? && DetectStreamFormat(data) == Some(r.value.0.format)
  {
    match DetectStreamFormat(data)
    case None => None
    case Some(format) =>
      var image := env.javaFxLoad(data);
      if !image.isError && ValidateImage(Some(image)) then Some((Sniffed(format), image)) else None
  }

  /** One pass of the section loop of `loadJ2MEFormat`: `Ok` caches, `Null` moves on to the
      next section, `Raised` abandons the whole strategy. */
  function SectionImage(env: Environment, data: ByteArray, offsets: seq<int32>, index: int32): (r: JResult<Image>)
    ensures r.Ok? ==> Usable(r.value)
  {
    match DataSection(data, offsets, index)
    case None => Null
    case Some(bytes) =>
      DataSectionNonEmpty(data, offsets, index);
      var section: ByteArray := bytes;
      if |section| == 0 then Null
      else
        var withAlpha := ParseRgbArrayWithAutoDimensions(section, true);
        var rgbData := if withAlpha.Null? then ParseRgbArrayWithAutoDimensions(section, false) else withAlpha;
        match rgbData
        case Raised => Raised
        case Null => Null
        case Ok(d) =>
          match RgbArrayToJavaFxImage(env, d.rgb, d.width, d.height, true)
          case Raised => Raised
          case Null => Null
          case Ok(image) => if !image.isError && ValidateImage(Some(image)) then Ok(image) else Null
  }

  /** The section loop from section `i` on: the first section that yields an image, null
      when none does, or the exception that ended the loop. */
  function SectionsFrom(env: Environment, data: ByteArray, offsets: seq<int32>, i: nat): (r: JResult<(Strategy, Image)>)
    requires |offsets| <= MAX_COUNT + 1
    ensures r.Ok? ==> Usable(r.value.1) && r.value.0.J2MESection? && i <= r.value.0.index < |offsets| - 1
    decreases |offsets| - i
  {
    if i >= |offsets| - 1 then Null
    else
      match SectionImage(env, data, offsets, i)
      case Raised => Raised
      case Ok(image) => Ok((J2MESection(i), image))
      case Null => SectionsFrom(env, data, offsets, i + 1)
  }

  /** The section loop returns the FIRST section from `i` on that decodes, every earlier one
      having given null, and it gives null exactly when every remaining section does. */
  lemma {:induction false} SectionsFromFirstHit(env: Environment, data: ByteArray, offsets: seq<int32>, i: nat)
    requires |offsets| <= MAX_COUNT + 1
    ensures var r := SectionsFrom(env, data, offsets, i);
      r.Ok? ==> SectionImage(env, data, offsets, r.value.0.index as int32) == Ok(r.value.1) &&
                forall j: int32 :: i <= j < r.value.0.index ==> SectionImage(env, data, offsets, j).Null?
    ensures SectionsFrom(env, data, offsets, i).Null? <==>
      forall j: int32 :: i <= j < |offsets| - 1 ==> SectionImage(env, data, offsets, j).Null?
    ensures SectionsFrom(env, data, offsets, i).Raised? ==>
      exists j: int32 :: i <= j < |offsets| - 1 && SectionImage(env, data, offsets, j).Raised? &&
        forall k: int32 :: i <= k < j ==> SectionImage(env, data, offsets, k).Null?
    decreases |offsets| - i
  {
    if i < |offsets| - 1 && SectionImage(env, data, offsets, i as int32).Null? {
      SectionsFromFirstHit(env, data, offsets, i + 1);
      var r := SectionsFrom(env, data, offsets, i);
      if r.Ok? {
        forall j: int32 | i <= j < r.value.0.index
          ensures SectionImage(env, data, offsets, j).Null?
        {
          if j as int > i { }
        }
      }
      if r.Raised? {
        var j: int32 :| i + 1 <= j < |offsets| - 1 && SectionImage(env, data, offsets, j).Raised? &&
          forall k: int32 :: i + 1 <= k < j ==> SectionImage(env, data, offsets, k).Null?;
        forall k: int32 | i <= k < j
          ensures SectionImage(env, data, offsets, k).Null?
        {
          if k as int > i { }
        }
      }
    } else if i < |offsets| - 1 && SectionImage(env, data, offsets, i as int32).Raised? {
      assert forall k: int32 :: i <= k < i as int32 ==> SectionImage(env, data, offsets, k).Null?;
    }
  }

  /** Conversely, a section that decodes after only null sections is the loop's answer. */
  lemma {:induction false} SectionsFromFinds(env: Environment, data: ByteArray, offsets: seq<int32>, i: nat, j: nat, image: Image)
    requires |offsets| <= MAX_COUNT + 1 && i <= j < |offsets| - 1
    requires SectionImage(env, data, offsets, j as int32) == Ok(image)
    requires forall k: int32 :: i <= k < j ==> SectionImage(env, data, offsets, k).Null?
    ensures SectionsFrom(env, data, offsets, i) == Ok((J2MESection(j as int32), image))
    decreases j - i
  {
    if i < j {
      assert SectionImage(env, data, offsets, i as int32).Null?;
      SectionsFromFinds(env, data, offsets, i + 1, j, image);
    }
  }

  /** `loadJ2MEFormat`: the structural test, the offset table, then the section loop; an
      exception anywhere in the loop means no image. */
  function J2MEAttempt(env: Environment, data: ByteArray): (r: Option<(Strategy, Image)>)
    ensures r.Some? ==> (Usable(r.value.1) && r.value.0.J2MESection? && IsJ2MEFormat(data) &&
      OffsetTable(data).Some? && r.value.0.index < |OffsetTable(data).value| - 1)
  {
    if |data| < 6 || !IsJ2MEFormat(data) then None
    else
      match OffsetTable(data)
      case None => None
      case Some(offsets) =>
        if |offsets| < 2 then None
        else
          OffsetTableAccepted(data);
          match SectionsFrom(env, data, offsets, 0)
          case Ok(hit) => Some(hit)
          case _ => None
  }

  /** A J2ME hit is the first section of the table that decodes; when every section gives
      null there is no hit. */
  lemma J2MEAttemptFirstHit(env: Environment, data: ByteArray)
    ensures var r := J2MEAttempt(env, data);
      r.Some? ==> (var offsets := OffsetTable(data).value;
        SectionImage(env, data, offsets, r.value.0.index as int32) == Ok(r.value.1) &&
        forall j: int32 :: 0 <= j < r.value.0.index ==> SectionImage(env, data, offsets, j).Null?)
    ensures OffsetTable(data).Some? ==>
      (forall j: int32 :: 0 <= j < |OffsetTable(data).value| - 1 ==> SectionImage(env, data, OffsetTable(data).value, j).Null?) ==>
      J2MEAttempt(env, data).None?
  {
    OffsetTableAccepted(data);
    if OffsetTable(data).Some? {
      SectionsFromFirstHit(env, data, OffsetTable(data).value, 0);
    }
  }

  /** The first section of a parsed table that decodes, after only null sections, is the
      J2ME strategy's answer. */
  lemma J2MEAttemptFinds(env: Environment, data: ByteArray, j: nat, image: Image)
    requires OffsetTable(data).Some? && j < |OffsetTable(data).value| - 1
    requires SectionImage(env, data, OffsetTable(data).value, j as int32) == Ok(image)
    requires forall k: int32 :: 0 <= k < j ==> SectionImage(env, data, OffsetTable(data).value, k).Null?
    ensures J2MEAttempt(env, data) == Some((J2MESection(j as int32), image))
  {
    OffsetTableAccepted(data);
    SectionsFromFinds(env, data, OffsetTable(data).value, 0, j, image);
  }

  /** `extractImageFromCustomFormat`: the first PNG or JPEG signature inside the blob, and
      ImageIO on the bytes from there to the end. */
  function ExtractAttempt(env: Environment, data: ByteArray): (r: Option<(Strategy, Image)>)
    ensures r.Some? ==> (Usable(r.value.1) && r.value.0.Extracted? &&
      r.value.0.offset == SignatureOffset(data) && r.value.0.offset < |data| &&
      ImageSignatureAt(data, r.value.0.offset) &&
      ReadViaImageIO(env, data[r.value.0.offset..]) == Some(r.value.1))
  {
    if |data| < 3 then None
    else
      var signatureOffset := SignatureOffset(data);
      if signatureOffset < 0 then None
      else
        match DetectFormatAtOffset(data, signatureOffset)
        case None => None
        case Some(format) =>
          match ReadViaImageIO(env, data[signatureOffset..])
          case None => None
          case Some(image) => Some((Extracted(format, signatureOffset), image))
  }

  /** Once a signature is found, extraction answers exactly what ImageIO makes of the bytes
      from the signature to the end: the format probe at that offset never fails. */
  lemma ExtractAttemptMeaning(env: Environment, data: ByteArray)
    ensures |data| >= 3 && SignatureOffset(data) >= 0 ==>
      SignatureOffset(data) < |data| && ImageOf(ExtractAttempt(env, data)) == ReadViaImageIO(env, data[SignatureOffset(data)..])
    ensures |data| < 3 || SignatureOffset(data) < 0 ==> ExtractAttempt(env, data).None?
  {
    SignatureOffsetSound(data);
  }

  /** The last resort: the JavaFX decoder without any detection. */
  function DirectAttempt(env: Environment, data: ByteArray): (r: Option<(Strategy, Image)>)
    ensures r.Some? ==> Usable(r.value.1) && r.value.0 == Direct
  {
    var image := env.javaFxLoad(data);
    if !image.isError && ValidateImage(Some(image)) then Some((Direct, image)) else None
  }

  /** The strategies of `loadImageFromStream` in order; the first that yields an image wins. */
  function StreamStrategies(env: Environment, data: ByteArray): (r: Option<(Strategy, Image)>)
    ensures r.Some? ==> Usable(r.value.1)
  {
    var viaImageIO := ReadViaImageIO(env, data);
    if viaImageIO.Some? then Some((ViaImageIO, viaImageIO.value))
    else
      var sniffed := SniffAttempt(env, data);
      if sniffed.Some? then sniffed
      else
        var j2me := J2MEAttempt(env, data);
        if j2me.Some? then j2me
        else
          var extracted := ExtractAttempt(env, data);
          if extracted.Some? then extracted else DirectAttempt(env, data)
  }

  // ---- Loading ----

  /** `loadImageFromStream`: the winning strategy's image, cached under its key, or null with
      the path recorded as skipped. */
  function LoadFromStream(env: Environment, cache: Cache, path: string, data: ByteArray): Outcome
  {
    var hit := StreamStrategies(env, data);
    if hit.Some? then Outcome(ImageOf(hit), cache.(images := Put(cache.images, path, hit)))
    else Outcome(None, cache.(skipped := cache.skipped + {path}))
  }

  /** A path that `loadImage` hands to format detection: no dot, or a trailing slash. */
  predicate NeedsDetection(path: string)
  {
    '.' !in path || (|path| > 0 && path[|path| - 1] == '/')
  }

  /** `loadImage`. */
  function Load(env: Environment, cache: Cache, path: string): Outcome
  {
    if path in cache.images then Outcome(Some(cache.images[path]), cache)
    else
      match env.resource(path)
      case None => Outcome(None, cache)
      case Some(data) =>
        if NeedsDetection(path) then LoadFromStream(env, cache, path, data)
        else
          var image := env.javaFxLoad(data);
          if image.isError || !ValidateImage(Some(image)) then Outcome(None, cache)
          else Outcome(Some(image), cache.(images := cache.images[path := image]))
  }

  // ---- Numbered resources ----

  const EXTENSIONS: seq<string> := [".png", ".jpg", ".jpeg", ".gif", ".bmp"]
  const CACHED_FORMATS: seq<string> := ["PNG", "JPEG", "GIF", "BMP", "Direct"]

  /** `"/images/" + number`. */
  function BasePath(number: int32): string
  {
    "/images/" + IntToString(number)
  }

  /** The format-tagged keys `getImageByNumber` tries after the ImageIO key. */
  function FormatKeys(basePath: string): seq<string>
  {
    seq(|CACHED_FORMATS|, i requires 0 <= i < |CACHED_FORMATS| => basePath + "[" + CACHED_FORMATS[i] + "]")
  }

  /** The plain paths `getImageByNumber` tries last. */
  function NumberPaths(basePath: string): seq<string>
  {
    [basePath] + seq(|EXTENSIONS|, i requires 0 <= i < |EXTENSIONS| => basePath + EXTENSIONS[i])
  }

  /** Every key `getImageByNumber` tries, in its order. */
  function NumberKeys(number: int32): seq<string>
  {
    var basePath := BasePath(number);
    [basePath + "[ImageIO]"] + FormatKeys(basePath) + NumberPaths(basePath)
  }

  /** The image under the first of `keys` the cache holds. */
  function FirstCached(images: map<string, Image>, keys: seq<string>): (r: Option<Image>)
    ensures r.None? <==> forall i :: 0 <= i < |keys| ==> keys[i] !in images
    ensures r.Some? ==> exists i :: (0 <= i < |keys| && keys[i] in images && r.value == images[keys[i]] &&
      forall j :: 0 <= j < i ==> keys[j] !in images)
  {
    if |keys| == 0 then None
    else if keys[0] in images then Some(images[keys[0]])
    else
      var r := FirstCached(images, keys[1..]);
      assert forall i :: 0 < i < |keys| ==> keys[i] == keys[1..][i - 1];
      r
  }

  lemma FirstCachedStep(images: map<string, Image>, keys: seq<string>, m: nat)
    requires m < |keys|
    ensures FirstCached(images, keys[m..]) ==
      if keys[m] in images then Some(images[keys[m]]) else FirstCached(images, keys[m + 1..])
  {
    assert keys[m..][1..] == keys[m + 1..];
  }

  /** Step 3 of `loadImageByNumber`: `loadImage` on the base path with each extension. */
  function ExtensionLoop(env: Environment, cache: Cache, basePath: string, k: nat): Outcome
    decreases |EXTENSIONS| - k
  {
    if k >= |EXTENSIONS| then Outcome(None, cache)
    else
      var o := Load(env, cache, basePath + EXTENSIONS[k]);
      if o.image.Some? then o else ExtensionLoop(env, o.cache, basePath, k + 1)
  }

  /** `loadImageByNumber`: the cache check, ImageIO on the bare resource, the stream
      strategies on it, each extension, and finally the path recorded as skipped. */
  function LoadByNumber(env: Environment, cache: Cache, number: int32): Outcome
  {
    var basePath := BasePath(number);
    var cached := FirstCached(cache.images, NumberKeys(number));
    if cached.Some? then Outcome(cached, cache)
    else
      var viaImageIO := if env.resource(basePath).Some? then ReadViaImageIO(env, env.resource(basePath).value) else None;
      if viaImageIO.Some? then
        Outcome(viaImageIO, cache.(images := cache.images[CacheKey(basePath, ViaImageIO) := viaImageIO.value]))
      else
        var streamed := if env.resource(basePath).Some? then LoadFromStream(env, cache, basePath, env.resource(basePath).value)
                        else Outcome(None, cache);
        if streamed.image.Some? then streamed
        else
          var extended := ExtensionLoop(env, streamed.cache, basePath, 0);
          if extended.image.Some? then extended
          else Outcome(None, extended.cache.(skipped := extended.cache.skipped + {basePath}))
  }

  /** The numbered resources `preloadCommonAssets` loads, from `i` up to 19. */
  function PreloadFrom(env: Environment, cache: Cache, i: nat): Cache
    requires i <= 20
    decreases 20 - i
  {
    if i == 20 then cache else PreloadFrom(env, LoadByNumber(env, cache, i as int32).cache, i + 1)
  }

  /** `preloadCommonAssets`: the icon, then numbers 0 to 19. */
  function Preload(env: Environment, cache: Cache): Cache
  {
    PreloadFrom(env, Load(env, cache, "/images/icon.png").cache, 0)
  }

  // ---- What loading guarantees ----

  /** Whatever is cached passed a strategy's checks, and so does every image returned. */
  lemma LoadUsable(env: Environment, cache: Cache, path: string)
    requires AllUsable(cache.images)
    ensures var o := Load(env, cache, path);
      AllUsable(o.cache.images) && (o.image.Some? ==> Usable(o.image.value))
  {
  }

  /** Loading never evicts: every key and skip record survives, and the skip record grows
      by at most the path. */
  lemma LoadKeepsEntries(env: Environment, cache: Cache, path: string)
    ensures var o := Load(env, cache, path);
      cache.images.Keys <= o.cache.images.Keys &&
      cache.skipped <= o.cache.skipped <= cache.skipped + {path}
  {
  }

  /** A load of an uncached, present resource changes the cache by exactly one entry on
      success — under the path itself when the path has an extension, under the path plus a
      strategy tag otherwise — and by nothing on failure, except that a failed detection
      records the path as skipped. */
  lemma LoadOutcomeRecorded(env: Environment, cache: Cache, path: string)
    requires path !in cache.images && env.resource(path).Some?
    ensures var o := Load(env, cache, path);
      (o.image.Some? && !NeedsDetection(path) ==>
        o.cache == cache.(images := cache.images[path := o.image.value])) &&
      (o.image.Some? && NeedsDetection(path) ==>
        o.cache.skipped == cache.skipped &&
        exists s :: o.cache.images == cache.images[CacheKey(path, s) := o.image.value]) &&
      (o.image.None? ==> o.cache.images == cache.images) &&
      (o.image.None? && NeedsDetection(path) ==> o.cache.skipped == cache.skipped + {path}) &&
      (o.image.None? && !NeedsDetection(path) ==> o.cache.skipped == cache.skipped)
  {
    var o := Load(env, cache, path);
    if o.image.Some? && NeedsDetection(path) {
      var hit := StreamStrategies(env, env.resource(path).value);
      assert o.cache.images == cache.images[CacheKey(path, hit.value.0) := o.image.value];
    }
  }

  /** A path that goes to format detection is never cached under itself, so the cache check
      at the start of `loadImage` can never answer it. */
  lemma DetectedPathNotCachedUnderItself(env: Environment, cache: Cache, path: string)
    requires NeedsDetection(path) && path !in cache.images
    ensures path !in Load(env, cache, path).cache.images
  {
    var o := Load(env, cache, path);
    if env.resource(path).Some? {
      var hit := StreamStrategies(env, env.resource(path).value);
      if hit.Some? {
        assert |CacheKey(path, hit.value.0)| > |path|;
      }
    }
  }

  /** Loading the same path twice returns the same answer and leaves the cache as the first
      load left it, whether or not the second load hits the cache. */
  lemma LoadIdempotent(env: Environment, cache: Cache, path: string)
    ensures var o := Load(env, cache, path);
      Load(env, o.cache, path) == o
  {
    var o := Load(env, cache, path);
    if path !in cache.images && env.resource(path).Some? && NeedsDetection(path) {
      var data := env.resource(path).value;
      DetectedPathNotCachedUnderItself(env, cache, path);
      var hit := StreamStrategies(env, data);
      if hit.Some? {
        assert o.cache.images == Put(cache.images, path, hit);
        assert Put(o.cache.images, path, hit) == o.cache.images;
      } else {
        assert o.cache.skipped + {path} == o.cache.skipped;
      }
    }
  }

  /** The skip record is written but never read: it changes neither the image returned nor
      the images cached. */
  lemma LoadIgnoresSkipped(env: Environment, images: map<string, Image>, s1: set<string>, s2: set<string>, path: string)
    ensures Load(env, Cache(images, s1), path).image == Load(env, Cache(images, s2), path).image
    ensures Load(env, Cache(images, s1), path).cache.images == Load(env, Cache(images, s2), path).cache.images
  {
  }

  /** The extraction strategy never wins at offset 0: the bytes from offset 0 are the whole
      blob, on which ImageIO already failed. */
  lemma ExtractedOffsetPositive(env: Environment, data: ByteArray, format: string, offset: nat, image: Image)
    requires StreamStrategies(env, data) == Some((Extracted(format, offset), image))
    ensures offset > 0
  {
    assert ReadViaImageIO(env, data).None?;
    assert ReadViaImageIO(env, data[offset..]) == Some(image);
    assert data[0..] == data;
  }

  /** The last-resort JavaFX load wins only for blobs whose magic bytes are unknown: for a
      known signature the same decoder already ran under format detection. */
  lemma DirectOnlyWhenUnsniffed(env: Environment, data: ByteArray, image: Image)
    requires StreamStrategies(env, data) == Some((Direct, image))
    ensures DetectStreamFormat(data).None?
  {
  }

  /** A key ending in a digit and a closing bracket. */
  predicate EndsInNumberTag(k: string)
  {
    |k| >= 2 && k[|k| - 1] == ']' && '0' <= k[|k| - 2] <= '9'
  }

  /** Section and extraction keys end in a number tag. */
  lemma SectionKeysEndInNumber(path: string, s: Strategy)
    requires s.J2MESection? || s.Extracted?
    ensures EndsInNumberTag(CacheKey(path, s))
  {
    var d := if s.J2MESection? then Digits(s.index) else Digits(s.offset);
    var tag := if s.J2MESection? then "J2ME-section" + d else "Extracted-" + s.format + "@" + d;
    var k := path + "[" + tag + "]";
    assert CacheKey(path, s) == k;
    assert k[|k| - 2] == d[|d| - 1];
  }

  /** None of the keys `getImageByNumber` tries ends in a number tag. */
  lemma NumberKeysEndInLetter(number: int32)
    ensures forall i :: 0 <= i < |NumberKeys(number)| ==> !EndsInNumberTag(NumberKeys(number)[i])
  {
    var b := BasePath(number);
    var keys := NumberKeys(number);
    forall i | 0 <= i < |keys|
      ensures !EndsInNumberTag(keys[i])
    {
      var k := keys[i];
      if i == 0 {
        assert k == b + "[ImageIO]" && k[|k| - 2] == 'O';
      } else if i < 6 {
        var f := CACHED_FORMATS[i - 1];
        assert k == b + "[" + f + "]" && k[|k| - 2] == f[|f| - 1];
      } else if i == 6 {
        assert k == b && k[|k| - 1] == IntToString(number)[|IntToString(number)| - 1];
      } else {
        var e := EXTENSIONS[i - 7];
        assert k == b + e && k[|k| - 1] == e[|e| - 1];
      }
    }
  }

  /** Caching under a key that is not among `keys` does not change the first hit. */
  lemma {:induction false} FirstCachedIgnores(images: map<string, Image>, keys: seq<string>, k: string, v: Image)
    requires forall i :: 0 <= i < |keys| ==> keys[i] != k
    ensures FirstCached(images[k := v], keys) == FirstCached(images, keys)
  {
    if |keys| > 0 && keys[0] !in images {
      FirstCachedIgnores(images, keys[1..], k, v);
    }
  }

  /** A numbered resource decoded as a J2ME section or by extraction is cached under a key
      `getImageByNumber` never tries, so the cache check keeps missing it and every later
      `loadImageByNumber` decodes it again. */
  lemma NumberedSectionNotRemembered(env: Environment, cache: Cache, number: int32, data: ByteArray, s: Strategy, image: Image)
    requires FirstCached(cache.images, NumberKeys(number)).None?
    requires env.resource(BasePath(number)) == Some(data)
    requires StreamStrategies(env, data) == Some((s, image)) && (s.J2MESection? || s.Extracted?)
    ensures var o := LoadByNumber(env, cache, number);
      o.image == Some(image) && FirstCached(o.cache.images, NumberKeys(number)).None?
  {
    var key := CacheKey(BasePath(number), s);
    SectionKeysEndInNumber(BasePath(number), s);
    NumberKeysEndInLetter(number);
    FirstCachedIgnores(cache.images, NumberKeys(number), key, image);
  }

  lemma {:induction false} ExtensionLoopUsable(env: Environment, cache: Cache, basePath: string, k: nat)
    requires AllUsable(cache.images)
    ensures var o := ExtensionLoop(env, cache, basePath, k);
      AllUsable(o.cache.images) && (o.image.Some? ==> Usable(o.image.value))
    decreases |EXTENSIONS| - k
  {
    if k < |EXTENSIONS| {
      var o := Load(env, cache, basePath + EXTENSIONS[k]);
      LoadUsable(env, cache, basePath + EXTENSIONS[k]);
      if o.image.None? {
        ExtensionLoopUsable(env, o.cache, basePath, k + 1);
      }
    }
  }

  /** `loadImageByNumber` keeps every cached image usable and returns only usable images. */
  lemma LoadByNumberUsable(env: Environment, cache: Cache, number: int32)
    requires AllUsable(cache.images)
    ensures var o := LoadByNumber(env, cache, number);
      AllUsable(o.cache.images) && (o.image.Some? ==> Usable(o.image.value))
  {
    var basePath := BasePath(number);
    if env.resource(basePath).Some? {
      var o := LoadFromStream(env, cache, basePath, env.resource(basePath).value);
      ExtensionLoopUsable(env, o.cache, basePath, 0);
    } else {
      ExtensionLoopUsable(env, cache, basePath, 0);
    }
  }

  /** A numbered resource that no strategy decodes is recorded as skipped. */
  lemma LoadByNumberFailureRecorded(env: Environment, cache: Cache, number: int32)
    ensures var o := LoadByNumber(env, cache, number);
      o.image.None? ==> BasePath(number) in o.cache.skipped
  {
  }

  lemma {:induction false} PreloadFromUsable(env: Environment, cache: Cache, i: nat)
    requires i <= 20 && AllUsable(cache.images)
    ensures AllUsable(PreloadFrom(env, cache, i).images)
    decreases 20 - i
  {
    if i < 20 {
      LoadByNumberUsable(env, cache, i as int32);
      PreloadFromUsable(env, LoadByNumber(env, cache, i as int32).cache, i + 1);
    }
  }

  /** Preloading keeps every cached image usable. */
  lemma PreloadUsable(env: Environment, cache: Cache)
    requires AllUsable(cache.images)
    ensures AllUsable(Preload(env, cache).images)
  {
    LoadUsable(env, cache, "/images/icon.png");
    PreloadFromUsable(env, Load(env, cache, "/images/icon.png").cache, 0);
  }

  // ---- The stateful manager ----

  class AssetManager {
    var images: map<string, Image>
    var skippedFiles: set<string>
    const env: Environment

    function State(): Cache
      reads this
    {
      Cache(images, skippedFiles)
    }

    /** The private constructor: both collections start empty. */
    constructor(env: Environment)
      ensures this.env == env && State() == Cache(map[], {})
    {
      this.env := env;
      images := map[];
      skippedFiles := {};
    }

    /** `loadImageWithImageIO`: on success the image is cached under `path + "[ImageIO]"`. */
    method LoadImageWithImageIO(data: ByteArray, path: string) returns (r: Option<Image>)
      modifies this
      ensures r == ReadViaImageIO(env, data)
      ensures images == (if r.Some? then old(images)[CacheKey(path, ViaImageIO) := r.value] else old(images))
      ensures skippedFiles == old(skippedFiles)
    {
      r := ReadViaImageIO(env, data);
      if r.Some? {
        images := images[CacheKey(path, ViaImageIO) := r.value];
      }
    }

    /** `loadJ2MEFormat`: the section loop, caching the first section that decodes. */
    method LoadJ2MEFormat(data: ByteArray, path: string) returns (r: Option<Image>)
      modifies this
      ensures r == ImageOf(J2MEAttempt(env, data))
      ensures images == Put(old(images), path, J2MEAttempt(env, data))
      ensures skippedFiles == old(skippedFiles)
    {
      if |data| < 6 || !IsJ2MEFormat(data) {
        return None;
      }
      var table := ParseOffsetTable(data);
      if table.None? || |table.value| < 2 {
        return None;
      }
      var offsets := table.value;
      OffsetTableAccepted(data);
      var sectionIndex := 0;
      while sectionIndex < |offsets| - 1
        invariant 0 <= sectionIndex <= |offsets| - 1
        invariant SectionsFrom(env, data, offsets, 0) == SectionsFrom(env, data, offsets, sectionIndex)
        invariant images == old(images) && skippedFiles == old(skippedFiles)
      {
        var sectionData := ReadDataSection(data, offsets, sectionIndex);
        if sectionData.None? || sectionData.value.Length == 0 {
          sectionIndex := sectionIndex + 1;
          continue;
        }
        DataSectionNonEmpty(data, offsets, sectionIndex);
        var section: ByteArray := sectionData.value[..];
        var rgbData := ParseRgbArrayWithAutoDimensions(section, true);
        if rgbData.Null? {
          rgbData := ParseRgbArrayWithAutoDimensions(section, false);
        }
        if rgbData.Raised? {
          return None;
        }
        if rgbData.Ok? {
          var javafxImage := RgbArrayToJavaFxImage(env, rgbData.value.rgb, rgbData.value.width, rgbData.value.height, true);
          if javafxImage.Raised? {
            return None;
          }
          if javafxImage.Ok? && !javafxImage.value.isError && ValidateImage(Some(javafxImage.value)) {
            images := images[CacheKey(path, J2MESection(sectionIndex)) := javafxImage.value];
            return Some(javafxImage.value);
          }
        }
        sectionIndex := sectionIndex + 1;
      }
      return None;
    }

    /** `extractImageFromCustomFormat`: on success the image is cached under
        `path + "[Extracted-" + format + "@" + offset + "]"`. */
    method ExtractImageFromCustomFormat(data: ByteArray, path: string) returns (r: Option<Image>)
      modifies this
      ensures r == ImageOf(ExtractAttempt(env, data))
      ensures images == Put(old(images), path, ExtractAttempt(env, data))
      ensures skippedFiles == old(skippedFiles)
    {
      if |data| < 3 {
        return None;
      }
      var signatureOffset := FindImageSignatureInFile(data);
      if signatureOffset < 0 {
        return None;
      }
      var format := DetectFormatAtOffset(data, signatureOffset);
      if format.None? {
        return None;
      }
      var extractedData := data[signatureOffset..];
      r := ReadViaImageIO(env, extractedData);
      if r.Some? {
        images := images[CacheKey(path, Extracted(format.value, signatureOffset)) := r.value];
      }
    }

    /** `loadImageFromStream`: the five strategies in order, then the skip record. */
    method LoadImageFromStream(data: ByteArray, path: string) returns (r: Option<Image>)
      modifies this
      ensures Outcome(r, State()) == LoadFromStream(env, old(State()), path, data)
    {
      r := LoadImageWithImageIO(data, path);
      if r.Some? {
        return;
      }
      var format := DetectStreamFormat(data);
      if format.Some? {
        var image := env.javaFxLoad(data);
        if !image.isError && ValidateImage(Some(image)) {
          images := images[CacheKey(path, Sniffed(format.value)) := image];
          return Some(image);
        }
      }
      r := LoadJ2MEFormat(data, path);
      if r.Some? {
        return;
      }
      r := ExtractImageFromCustomFormat(data, path);
      if r.Some? {
        return;
      }
      var directImage := env.javaFxLoad(data);
      if !directImage.isError && ValidateImage(Some(directImage)) {
        images := images[CacheKey(path, Direct) := directImage];
        return Some(directImage);
      }
      if path !in skippedFiles {
        skippedFiles := skippedFiles + {path};
      }
      return None;
    }

    /** `loadImage`. */
    method LoadImage(path: string) returns (r: Option<Image>)
      modifies this
      ensures Outcome(r, State()) == Load(env, old(State()), path)
    {
      if path in images {
        return Some(images[path]);
      }
      var stream := env.resource(path);
      if stream.None? {
        return None;
      }
      if NeedsDetection(path) {
        r := LoadImageFromStream(stream.value, path);
        return;
      }
      var image := env.javaFxLoad(stream.value);
      if image.isError {
        return None;
      }
      if !ValidateImage(Some(image)) {
        return None;
      }
      images := images[path := image];
      return Some(image);
    }

    /** `getImage`. */
    function GetImage(path: string): Option<Image>
      reads this
    {
      if path in images then Some(images[path]) else None
    }

    /** `getImageByNumber`: the ImageIO key, the format keys, then the plain paths. */
    method GetImageByNumber(number: int32) returns (r: Option<Image>)
      ensures r == FirstCached(images, NumberKeys(number))
    {
      var basePath := BasePath(number);
      ghost var keys := NumberKeys(number);
      var imageIOCacheKey := basePath + "[ImageIO]";
      FirstCachedStep(images, keys, 0);
      if imageIOCacheKey in images {
        return Some(images[imageIOCacheKey]);
      }
      var i := 0;
      while i < |CACHED_FORMATS|
        invariant 0 <= i <= |CACHED_FORMATS|
        invariant FirstCached(images, keys) == FirstCached(images, keys[1 + i..])
      {
        var cacheKey := basePath + "[" + CACHED_FORMATS[i] + "]";
        assert keys[1 + i] == cacheKey;
        FirstCachedStep(images, keys, 1 + i);
        if cacheKey in images {
          return Some(images[cacheKey]);
        }
        i := i + 1;
      }
      var paths := NumberPaths(basePath);
      var j := 0;
      while j < |paths|
        invariant 0 <= j <= |paths|
        invariant FirstCached(images, keys) == FirstCached(images, keys[6 + j..])
      {
        assert keys[6 + j] == paths[j];
        FirstCachedStep(images, keys, 6 + j);
        if paths[j] in images {
          return Some(images[paths[j]]);
        }
        j := j + 1;
      }
      return None;
    }

    /** `loadImageByNumber`. */
    method LoadImageByNumber(number: int32) returns (r: Option<Image>)
      modifies this
      ensures Outcome(r, State()) == LoadByNumber(env, old(State()), number)
    {
      var basePath := BasePath(number);
      r := GetImageByNumber(number);
      if r.Some? {
        return;
      }
      var stream := env.resource(basePath);
      if stream.Some? {
        r := LoadImageWithImageIO(stream.value, basePath);
        if r.Some? {
          return;
        }
      }
      stream := env.resource(basePath);
      if stream.Some? {
        r := LoadImageFromStream(stream.value, basePath);
        if r.Some? {
          return;
        }
      }
      ghost var start := State();
      var k := 0;
      while k < |EXTENSIONS|
        invariant 0 <= k <= |EXTENSIONS|
        invariant ExtensionLoop(env, start, basePath, 0) == ExtensionLoop(env, State(), basePath, k)
      {
        r := LoadImage(basePath + EXTENSIONS[k]);
        if r.Some? {
          return;
        }
        k := k + 1;
      }
      if basePath !in skippedFiles {
        skippedFiles := skippedFiles + {basePath};
      }
      return None;
    }

    /** `preloadCommonAssets`; the counts it logs are not modelled. */
    method PreloadCommonAssets()
      modifies this
      ensures State() == Preload(env, old(State()))
    {
      var icon := LoadImage("/images/icon.png");
      ghost var start := State();
      var i := 0;
      while i < 20
        invariant 0 <= i <= 20
        invariant PreloadFrom(env, start, 0) == PreloadFrom(env, State(), i)
      {
        var image := LoadImageByNumber(i as int32);
        i := i + 1;
      }
    }

    /** `clearCache`: forgets both the images and the skip record. */
    method ClearCache()
      modifies this
      ensures State() == Cache(map[], {})
    {
      images := map[];
      skippedFiles := {};
    }

    /** `getCacheSize`. */
    function GetCacheSize(): nat
      reads this
    {
      |images|
    }
  }
}
