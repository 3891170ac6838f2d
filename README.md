# Green Farm 3 asset loader and viewport, in Dafny

This project models the core of the Green Farm 3 desktop port in Dafny 4.11, with proofs.

**The legacy asset loader.** It turns class-path resources of a J2ME game into JavaFX images. The parts modelled are:

- **Format detection** (`FileTypeDetector`). It recognises PNG, JPEG, GIF87a/89a and BMP magic bytes at offset 0. It also finds a PNG or JPEG signature buried inside a blob.
- **The J2ME resource container** (`J2MEResourceParser`). The layout is a 16-bit section count, a little-endian offset table and the section bytes.
- **Raw pixel blobs** (`RGBImageParser`). These are ARGB or RGB byte arrays. Their dimensions are guessed from the byte count.
- **The asset manager** (`AssetManager`). It keeps a cache of decoded images and a skip record. It tries five decoding strategies in order for resources whose name carries no usable extension:
  1. ImageIO;
  2. magic-byte sniffing;
  3. J2ME sections;
  4. an embedded signature;
  5. a direct JavaFX load.

  It also handles numbered resources (`/images/<n>`) and the preload list.

**Two game helpers.** `TileMap` is the grid of tile ids with pixel/tile conversion. `Camera` is a viewport clamped to the map.

**Layout.** The Dafny modules follow the Java classes:

| module | file | models |
|---|---|---|
| `JavaTypes` | `java_types.dfy` | Java's `int` (two's-complement wrap, truncating `/`), unsigned bytes, `null` and exceptions as results |
| `FileTypeDetector` | `file_type_detector.dfy` | `FileTypeDetector` |
| `J2MEResourceParser` | `j2me_resource_parser.dfy` | `J2MEResourceParser` |
| `RGBImageParser` | `rgb_image_parser.dfy` | `RGBImageParser`, `RGBImageData` |
| `ImageApi` | `image_api.dfy` | the image libraries the loader calls, `ImageConverter`, `validateImage`, `rgbArrayToJavaFXImage` |
| `Assets` | `asset_manager.dfy` | `AssetManager` |
| `Tiles` | `tile_map.dfy` | `TileMap` |
| `Viewport` | `camera.dfy` | `Camera` |

**How state is modelled:**

- **Java's `int`** is the subset type `int32`. Every sum, difference and product the source computes in `int` goes through `Wrap`. Every `/` on ints goes through `JDiv`.
- **Java results** are `JResult = Ok | Null | Raised`. `Raised` stands for an exception: a `NegativeArraySizeException`, an array index error, or an exception from a library. It matters because an exception inside `loadJ2MEFormat` abandons the whole J2ME strategy, while a `null` only moves on to the next section.
- **The asset manager** is a class with the fields `images` and `skippedFiles`.
  - Each of its methods is proved against a function on a `Cache` value, for example `Outcome(r, State()) == Load(env, old(State()), path)`.
  - The lemmas state properties of those functions: usability of every cached image, no eviction, idempotence, and where each result is cached.
- **The tile map** is a class over an `array2<int32>`, whose methods update it in place.
- **The camera** is a class whose methods reassign its position and map bounds.

**Three behaviours of the code the model keeps:**

- The skip record is written but never read, so a rejected resource is decoded again on every call (`LoadIgnoresSkipped`).
- Detected resources are cached under tagged keys that `loadImage`'s cache check never looks up, so they too are decoded again on every call (`DetectedPathNotCachedUnderItself`).
- J2ME sections are located after a header of `2 + 4 * count` bytes, not `2 + 4 * (count + 1)`, so each section starts with the table's end marker (`ContainerSections`).

## Model

| member | source | states |
|---|---|---|
| `FileTypeDetector.MatchesHeader` | src/main/java/com/greenfarm3/assets/FileTypeDetector.java:103-115 | true exactly when both arrays hold at least `length` bytes and their first `length` bytes agree |
| `FileTypeDetector.DetectImageFormat` | src/main/java/com/greenfarm3/assets/FileTypeDetector.java:62-93 | null for a length under 2; any name returned is one with known signatures |
| `FileTypeDetector.DetectImageFormatMeaning` | src/main/java/com/greenfarm3/assets/FileTypeDetector.java:62-93 | the detector names `format` if and only if the header starts, within `length`, with one of that format's signatures; the order of the checks never matters |
| `FileTypeDetector.SignatureLengths` | src/main/java/com/greenfarm3/assets/FileTypeDetector.java:62-93 | every signature is 2 to 8 bytes long, so a 16-byte read suffices |
| `FileTypeDetector.DetectStreamFormatMeaning` | src/main/java/com/greenfarm3/assets/FileTypeDetector.java:26-52 | detection on a stream (one read of up to 16 bytes, then reset) names `format` if and only if the whole blob starts with one of its signatures |
| `FileTypeDetector.DetectStreamFormat` | src/main/java/com/greenfarm3/assets/FileTypeDetector.java:26-52 | a stream of fewer than 2 bytes gives null; any name returned is one with known signatures |
| `FileTypeDetector.IsImageFile` | src/main/java/com/greenfarm3/assets/FileTypeDetector.java:123-125 | true if and only if some format's signature begins the array |
| `FileTypeDetector.DetectFormatAtOffset` | src/main/java/com/greenfarm3/assets/FileTypeDetector.java:227-282 | a format if and only if the offset is inside the blob and a full PNG or JPEG signature lies there; only "PNG" or "JPEG" |
| `FileTypeDetector.ExtractedSliceSniffs` | src/main/java/com/greenfarm3/assets/FileTypeDetector.java:268-282 | the bytes from a found offset onward, sniffed at offset 0, give the same format as the offset probe |
| `FileTypeDetector.FindImageSignatureInFile` | src/main/java/com/greenfarm3/assets/FileTypeDetector.java:186-217 | the scan-then-sample loops return `SignatureOffset(data)` |
| `FileTypeDetector.FirstScanHitIsFirst` | src/main/java/com/greenfarm3/assets/FileTypeDetector.java:192-200 | the exhaustive scan answers the lowest offset in range holding a signature, or -1 when none does |
| `FileTypeDetector.FirstSampleHitIsSample` | src/main/java/com/greenfarm3/assets/FileTypeDetector.java:202-214 | the sampling phase answers the first sample offset, in the listed order, that lies below `length - 8` and holds a signature; -1 exactly when none of them does |
| `FileTypeDetector.SignatureOffsetSound` | src/main/java/com/greenfarm3/assets/FileTypeDetector.java:186-217 | -1 for blobs under 3 bytes; any other answer is an offset inside the blob where a PNG or JPEG signature lies |
| `FileTypeDetector.SignatureOffsetScanFirst` | src/main/java/com/greenfarm3/assets/FileTypeDetector.java:186-217 | a signature within the first `min(1024, length - 8)` offsets wins, at the lowest such offset |
| `FileTypeDetector.SignatureOffsetLateSamples` | src/main/java/com/greenfarm3/assets/FileTypeDetector.java:186-217 | the samples at 100, 500 and 1000 can never be the answer, since the exhaustive scan already covered them |
| `FileTypeDetector.ToUpperCase` | src/main/java/com/greenfarm3/assets/FileTypeDetector.java:138 | same length; no lower-case ASCII letter remains; each lower-case letter becomes the letter `'a' - 'A'` below it and every other character is kept |
| `FileTypeDetector.ToUpperCaseIdempotent` | src/main/java/com/greenfarm3/assets/FileTypeDetector.java:138 | upper-casing twice is upper-casing once |
| `FileTypeDetector.GetFormatExtension` | src/main/java/com/greenfarm3/assets/FileTypeDetector.java:133-151 | an extension exactly for a name that upper-cases to PNG, JPEG, JPG, GIF or BMP, and only `.png`, `.jpg`, `.gif` or `.bmp` |
| `FileTypeDetector.GetMimeType` | src/main/java/com/greenfarm3/assets/FileTypeDetector.java:159-177 | a MIME type exactly for the same names, and only `image/png`, `image/jpeg`, `image/gif` or `image/bmp` |
| `FileTypeDetector.FormatTablesAgree` | src/main/java/com/greenfarm3/assets/FileTypeDetector.java:133-177 | the extension table and the MIME table accept exactly the same names, case-insensitively, and nothing else |
| `FileTypeDetector.FormatTablesCaseInsensitive` | src/main/java/com/greenfarm3/assets/FileTypeDetector.java:133-177 | a name and its upper-cased form map to the same extension and MIME type |
| `FileTypeDetector.DetectedFormatsAreKnown` | src/main/java/com/greenfarm3/assets/FileTypeDetector.java:133-177 | every name either detector returns has an extension and a MIME type |
| `J2MEResourceParser.ReadLittleEndianShort` | src/main/java/com/greenfarm3/assets/J2MEResourceParser.java:108-113 | an unsigned 16-bit value; inside the blob the low byte is `data[offset]` and the high byte `data[offset + 1]`; 0 when the two bytes are not both inside |
| `J2MEResourceParser.ReadLittleEndianInt` | src/main/java/com/greenfarm3/assets/J2MEResourceParser.java:122-130 | 0 when the four bytes are not all inside the blob (the in-blob value is `IntRoundTrip`) |
| `J2MEResourceParser.ShortRoundTrip` | src/main/java/com/greenfarm3/assets/J2MEResourceParser.java:108-113 | a 16-bit read gives `v` if and only if the two bytes are `v`'s little-endian encoding |
| `J2MEResourceParser.ShortRange` | src/main/java/com/greenfarm3/assets/J2MEResourceParser.java:108-113 | a 16-bit read is unsigned, in [0, 65535], and is the low byte plus 256 times the high byte |
| `J2MEResourceParser.IntRoundTrip` | src/main/java/com/greenfarm3/assets/J2MEResourceParser.java:122-130 | a 32-bit read gives `v` if and only if the four bytes are `v`'s two's-complement little-endian encoding |
| `J2MEResourceParser.ParseOffsetTable` | src/main/java/com/greenfarm3/assets/J2MEResourceParser.java:25-56 | the loop returns `OffsetTable(data)`: null for a short blob, a count over 10000, a truncated table or an offset outside the blob |
| `J2MEResourceParser.OffsetTableRoundTrip` | src/main/java/com/greenfarm3/assets/J2MEResourceParser.java:25-56 | parsing a well-formed container gives back exactly its offset table |
| `J2MEResourceParser.TableEntryOfContainer` | src/main/java/com/greenfarm3/assets/J2MEResourceParser.java:25-56 | entry `i` of a container's table reads back as `offsets[i]` |
| `J2MEResourceParser.ReadDataSection` | src/main/java/com/greenfarm3/assets/J2MEResourceParser.java:67-99 | null exactly when `DataSection` is; otherwise a fresh array holding exactly its bytes |
| `J2MEResourceParser.DataSectionSlice` | src/main/java/com/greenfarm3/assets/J2MEResourceParser.java:67-99 | for non-negative offsets the wrapped arithmetic never matters: the section is the slice after a header of `2 + 4 * count` bytes, when that slice is non-empty and inside the blob |
| `J2MEResourceParser.DataSectionNonEmpty` | src/main/java/com/greenfarm3/assets/J2MEResourceParser.java:67-99 | a section that is returned is never empty and never longer than the blob |
| `J2MEResourceParser.ContainerSections` | src/main/java/com/greenfarm3/assets/J2MEResourceParser.java:67-99 | in a well-formed container, section `i` is sliced from the end marker followed by the payload, not from the payload alone |
| `J2MEResourceParser.IsJ2MEFormat` | src/main/java/com/greenfarm3/assets/J2MEResourceParser.java:139-163 | a blob it accepts holds at least 6 bytes, a non-negative count whose table fits in the blob, and a first offset inside the blob |
| `J2MEResourceParser.OffsetTableAccepted` | src/main/java/com/greenfarm3/assets/J2MEResourceParser.java:139-163 | every blob the full parser accepts passes `isJ2MEFormat`, and its table has `count + 1` entries |
| `J2MEResourceParser.EmptyContainerAccepted` | src/main/java/com/greenfarm3/assets/J2MEResourceParser.java:139-163 | a container with no sections passes both tests |
| `J2MEResourceParser.IsJ2MEFormatIsWeaker` | src/main/java/com/greenfarm3/assets/J2MEResourceParser.java:139-163 | a blob exists that passes `isJ2MEFormat` but that the full parser rejects |
| `J2MEResourceParser.GetSectionCount` | src/main/java/com/greenfarm3/assets/J2MEResourceParser.java:171-182 | -1 or a count in [0, 10000]; -1 for a blob under 2 bytes |
| `J2MEResourceParser.SectionCountMeaning` | src/main/java/com/greenfarm3/assets/J2MEResourceParser.java:171-182 | -1 exactly for a blob under 2 bytes or a count over 10000; otherwise the little-endian count |
| `RGBImageParser.PackUnpack` | src/main/java/com/greenfarm3/assets/RGBImageParser.java:46 | packing four channels into a word and reading them back are inverse, in both directions |
| `RGBImageParser.ParseRgbArray` | src/main/java/com/greenfarm3/assets/RGBImageParser.java:21-50 | the loop returns `RgbArray`: null for a non-positive size, a hand-over to the 3-byte parser for a short blob, or the pixel words |
| `RGBImageParser.ParseRgbArray3Bytes` | src/main/java/com/greenfarm3/assets/RGBImageParser.java:60-74 | the loop returns `RgbArray3Bytes`, with alpha forced to 0xFF |
| `RGBImageParser.RgbArrayNoOverflow` | src/main/java/com/greenfarm3/assets/RGBImageParser.java:21-74 | while `4 * width * height` fits in an int, the result is null, the ARGB pixels or the RGB pixels, chosen by the byte count |
| `RGBImageParser.PixelChannels` | src/main/java/com/greenfarm3/assets/RGBImageParser.java:21-74 | each pixel word carries the blob's bytes as its channels (alpha 0xFF for RGB) |
| `RGBImageParser.ArgbRoundTrip` | src/main/java/com/greenfarm3/assets/RGBImageParser.java:21-50 | parsing the ARGB bytes written for a pixel sequence gives the pixels back |
| `RGBImageParser.FloorSqrt` | src/main/java/com/greenfarm3/assets/RGBImageParser.java:139 | `(int) Math.sqrt(n)` as the integer square root: `s * s <= n < (s + 1) * (s + 1)` |
| `RGBImageParser.DetectDimensions` | src/main/java/com/greenfarm3/assets/RGBImageParser.java:126-173 | the square test and the ratio loop return `Dimensions(dataSize, hasAlpha)` |
| `RGBImageParser.DimensionsNone` | src/main/java/com/greenfarm3/assets/RGBImageParser.java:126-173 | null exactly when the blob holds less than one pixel |
| `RGBImageParser.DimensionsSquare` | src/main/java/com/greenfarm3/assets/RGBImageParser.java:126-173 | a perfect-square pixel count `s * s` gives `s` by `s` |
| `RGBImageParser.DimensionsRatio` | src/main/java/com/greenfarm3/assets/RGBImageParser.java:126-173 | otherwise the first listed ratio `w:h` dividing the count wins, scaled by `count / (w * h)` |
| `RGBImageParser.RatioDimensionsFound` | src/main/java/com/greenfarm3/assets/RGBImageParser.java:126-173 | the ratio search always succeeds, since 1:1 divides every count, so the factor search after it is unreachable |
| `RGBImageParser.RatioSkip` | src/main/java/com/greenfarm3/assets/RGBImageParser.java:126-173 | ratios that do not divide the count are passed over |
| `RGBImageParser.DimensionsOddCount` | src/main/java/com/greenfarm3/assets/RGBImageParser.java:126-173 | an odd non-square count falls through to 1:1 and is scaled to `count` by `count` |
| `RGBImageParser.ParseRgbArrayWithAutoDimensions` | src/main/java/com/greenfarm3/assets/RGBImageParser.java:182-201 | an empty blob gives null; a result carries the detected, positive dimensions and exactly `width * height` (as an int product) pixels |
| `RGBImageParser.AutoDimensionsSquareRoundTrip` | src/main/java/com/greenfarm3/assets/RGBImageParser.java:182-201 | the ARGB bytes of an `s` by `s` image parse back to its pixels and its size |
| `RGBImageParser.AutoDimensionsMismatch` | src/main/java/com/greenfarm3/assets/RGBImageParser.java:182-201 | a 96-byte ARGB blob is guessed as 8 by 6, more pixels than it holds, so the result is null |
| `RGBImageParser.AutoDimensionsOverflow` | src/main/java/com/greenfarm3/assets/RGBImageParser.java:182-201 | a 262140-byte ARGB blob is guessed as 65535 by 65535, whose product wraps negative, so the allocation throws |
| `ImageApi.RgbArrayToJavaFxImage` | src/main/java/com/greenfarm3/assets/RGBImageParser.java:86-116 | an image only for positive sizes and an array holding at least `width * height` words |
| `ImageApi.ValidateImage` | src/main/java/com/greenfarm3/assets/AssetManager.java:493-510 | a validated image is non-null and holds at least one pixel |
| `Assets.Digits` | src/main/java/com/greenfarm3/assets/AssetManager.java:521 | a non-empty string of decimal digits |
| `Assets.DigitsRoundTrip` | src/main/java/com/greenfarm3/assets/AssetManager.java:521 | reading the printed digits gives the number back |
| `Assets.IntToString` | src/main/java/com/greenfarm3/assets/AssetManager.java:521 | a non-empty string ending in a digit |
| `Assets.SignOfIntToString` | src/main/java/com/greenfarm3/assets/AssetManager.java:521 | the string starts with a minus sign exactly for negative numbers |
| `Assets.IntToStringInjective` | src/main/java/com/greenfarm3/assets/AssetManager.java:521 | distinct numbers give distinct base paths |
| `Assets.CacheKey` | src/main/java/com/greenfarm3/assets/AssetManager.java:183-276 | the key extends the path with a bracketed tag, so it is never the path itself |
| `Assets.ReadViaImageIO` | src/main/java/com/greenfarm3/assets/AssetManager.java:104-173 | an image is returned only if it passed every check a strategy makes |
| `Assets.SniffAttempt` | src/main/java/com/greenfarm3/assets/AssetManager.java:202-225 | succeeds only with a usable image, tagged with the format the stream detector named |
| `Assets.SectionImage` | src/main/java/com/greenfarm3/assets/AssetManager.java:317-358 | one section gives a usable image, null, or the exception that ends the loop |
| `Assets.SectionsFrom` | src/main/java/com/greenfarm3/assets/AssetManager.java:317-358 | a hit is a usable image from a section whose index lies in `[i, count)` |
| `Assets.SectionsFromFirstHit` | src/main/java/com/greenfarm3/assets/AssetManager.java:317-358 | a hit is exactly what its section decodes to, and every earlier section from `i` on gave null; null if and only if every section from `i` on gives null; an exception only from a section whose predecessors all gave null |
| `Assets.SectionsFromFinds` | src/main/java/com/greenfarm3/assets/AssetManager.java:317-358 | conversely, a section that decodes after only null sections from `i` on is exactly the loop's answer |
| `Assets.J2MEAttempt` | src/main/java/com/greenfarm3/assets/AssetManager.java:286-373 | succeeds only for a blob that passes `isJ2MEFormat` and has a parsed table, with a section index inside the table |
| `Assets.J2MEAttemptFirstHit` | src/main/java/com/greenfarm3/assets/AssetManager.java:286-373 | a hit is the first section of the table that decodes, every earlier one giving null; when every section gives null there is no hit |
| `Assets.J2MEAttemptFinds` | src/main/java/com/greenfarm3/assets/AssetManager.java:286-373 | conversely, for a parsed table, the first section that decodes after only null sections is the strategy's answer |
| `Assets.ExtractAttempt` | src/main/java/com/greenfarm3/assets/AssetManager.java:383-472 | succeeds only at `findImageSignatureInFile`'s offset, where a signature lies, with the image ImageIO gives for the bytes from there on |
| `Assets.ExtractAttemptMeaning` | src/main/java/com/greenfarm3/assets/AssetManager.java:383-472 | once a signature is found, the answer is exactly what ImageIO makes of the bytes from the signature to the end; no signature, or a blob under 3 bytes, gives none |
| `Assets.DirectAttempt` | src/main/java/com/greenfarm3/assets/AssetManager.java:240-250 | succeeds only with a usable image |
| `Assets.StreamStrategies` | src/main/java/com/greenfarm3/assets/AssetManager.java:183-276 | the winning strategy's image is usable |
| `Assets.ExtractedOffsetPositive` | src/main/java/com/greenfarm3/assets/AssetManager.java:195-237 | when extraction wins, its offset is positive, since at offset 0 ImageIO on the same bytes already failed |
| `Assets.DirectOnlyWhenUnsniffed` | src/main/java/com/greenfarm3/assets/AssetManager.java:202-250 | the direct load wins only for blobs whose magic bytes are unknown |
| `Assets.LoadUsable` | src/main/java/com/greenfarm3/assets/AssetManager.java:45-94 | every cached image and every returned image passed a strategy's checks |
| `Assets.LoadKeepsEntries` | src/main/java/com/greenfarm3/assets/AssetManager.java:45-94 | loading never evicts; the skip record grows by at most the path |
| `Assets.LoadOutcomeRecorded` | src/main/java/com/greenfarm3/assets/AssetManager.java:45-94 | for an uncached resource: a success adds exactly one cache entry, under the path when it has an extension or under the path plus some strategy tag otherwise, and leaves the skip record alone; a failure leaves the images alone and adds the path to the skip record exactly when it went to detection |
| `Assets.DetectedPathNotCachedUnderItself` | src/main/java/com/greenfarm3/assets/AssetManager.java:45-94 | a path sent to format detection is never cached under itself, so the cache check cannot answer it |
| `Assets.LoadIdempotent` | src/main/java/com/greenfarm3/assets/AssetManager.java:45-94 | a second load of the same path returns the same image and leaves the cache as the first one did |
| `Assets.LoadIgnoresSkipped` | src/main/java/com/greenfarm3/assets/AssetManager.java:252-262 | the skip record changes neither the image returned nor the images cached |
| `Assets.FirstCached` | src/main/java/com/greenfarm3/assets/AssetManager.java:613-651 | null if and only if no key is cached; otherwise the image under the first cached key |
| `Assets.FirstCachedStep` | src/main/java/com/greenfarm3/assets/AssetManager.java:613-651 | the lookup over `keys[m..]` is the key at `m` if cached, or the lookup over `keys[m + 1..]` |
| `Assets.FirstCachedIgnores` | src/main/java/com/greenfarm3/assets/AssetManager.java:613-651 | caching under a key outside the list does not change the lookup |
| `Assets.SectionKeysEndInNumber` | src/main/java/com/greenfarm3/assets/AssetManager.java:346 | J2ME-section and extraction keys end in a bracketed number |
| `Assets.NumberKeysEndInLetter` | src/main/java/com/greenfarm3/assets/AssetManager.java:613-651 | none of the keys `getImageByNumber` tries ends in a bracketed number |
| `Assets.NumberedSectionNotRemembered` | src/main/java/com/greenfarm3/assets/AssetManager.java:520-651 | a numbered resource decoded from a J2ME section or by extraction is returned but still missed by `getImageByNumber` afterwards |
| `Assets.ExtensionLoopUsable` | src/main/java/com/greenfarm3/assets/AssetManager.java:570-582 | the extension loop keeps every cached image usable and returns only usable images |
| `Assets.LoadByNumberUsable` | src/main/java/com/greenfarm3/assets/AssetManager.java:520-597 | `loadImageByNumber` keeps every cached image usable and returns only usable images |
| `Assets.LoadByNumberFailureRecorded` | src/main/java/com/greenfarm3/assets/AssetManager.java:584-594 | a numbered resource nothing decodes is recorded as skipped |
| `Assets.PreloadFromUsable` | src/main/java/com/greenfarm3/assets/AssetManager.java:656-690 | preloading numbers `i` to 19 keeps every cached image usable |
| `Assets.PreloadUsable` | src/main/java/com/greenfarm3/assets/AssetManager.java:656-690 | preloading keeps every cached image usable |
| `Assets.AssetManager.constructor` | src/main/java/com/greenfarm3/assets/AssetManager.java:24-31 | both the cache and the skip record start empty |
| `Assets.AssetManager.LoadImageWithImageIO` | src/main/java/com/greenfarm3/assets/AssetManager.java:104-173 | returns the ImageIO result, cached under `path + "[ImageIO]"` on success; the skip record is untouched |
| `Assets.AssetManager.LoadJ2MEFormat` | src/main/java/com/greenfarm3/assets/AssetManager.java:286-373 | the section loop returns and caches exactly what `J2MEAttempt` describes |
| `Assets.AssetManager.ExtractImageFromCustomFormat` | src/main/java/com/greenfarm3/assets/AssetManager.java:383-472 | returns and caches exactly what `ExtractAttempt` describes |
| `Assets.AssetManager.LoadImageFromStream` | src/main/java/com/greenfarm3/assets/AssetManager.java:183-276 | result and new state are `LoadFromStream` of the old state |
| `Assets.AssetManager.LoadImage` | src/main/java/com/greenfarm3/assets/AssetManager.java:45-94 | result and new state are `Load` of the old state |
| `Assets.AssetManager.GetImageByNumber` | src/main/java/com/greenfarm3/assets/AssetManager.java:613-651 | the three lookup loops return the image under the first cached key, in `getImageByNumber`'s order |
| `Assets.AssetManager.LoadImageByNumber` | src/main/java/com/greenfarm3/assets/AssetManager.java:520-597 | result and new state are `LoadByNumber` of the old state |
| `Assets.AssetManager.PreloadCommonAssets` | src/main/java/com/greenfarm3/assets/AssetManager.java:656-690 | the new state is `Preload` of the old state |
| `Assets.AssetManager.ClearCache` | src/main/java/com/greenfarm3/assets/AssetManager.java:695-702 | both the cache and the skip record are empty afterwards |
| `Tiles.IsWalkable` | src/main/java/com/greenfarm3/game/TileMap.java:149-151 | of the six tile kinds, exactly grass, dirt, path and farmland are walkable; any other id is walkable |
| `Tiles.IsPlantable` | src/main/java/com/greenfarm3/game/TileMap.java:158-160 | a plantable id is one of the six kinds and is walkable |
| `Tiles.PlantableIsWalkable` | src/main/java/com/greenfarm3/game/TileMap.java:149-160 | every plantable tile is walkable; a tile is both exactly when it is dirt or farmland |
| `Tiles.DefaultMapLayout` | src/main/java/com/greenfarm3/game/TileMap.java:126-142 | the default map is walkable everywhere; a cell is plantable exactly when it lies in one of the farm patches and off both paths |
| `Tiles.TileMap.constructor` | src/main/java/com/greenfarm3/game/TileMap.java:35-44 | a fresh grid of the given size, all grass |
| `Tiles.TileMap.WithDefaultTileSize` | src/main/java/com/greenfarm3/game/TileMap.java:51-53 | the same, with 32 by 32 pixel tiles |
| `Tiles.TileMap.GetTile` | src/main/java/com/greenfarm3/game/TileMap.java:61-66 | the stored id on the map, -1 off it |
| `Tiles.TileMap.SetTile` | src/main/java/com/greenfarm3/game/TileMap.java:75-81 | true exactly on the map; only that cell changes |
| `Tiles.TileMap.Fill` | src/main/java/com/greenfarm3/game/TileMap.java:97-103 | every cell holds the id |
| `Tiles.TileMap.FillRect` | src/main/java/com/greenfarm3/game/TileMap.java:113-121 | exactly the on-map cells of the rectangle take the id; the rest are unchanged |
| `Tiles.TileMap.GenerateDefaultMap` | src/main/java/com/greenfarm3/game/TileMap.java:126-142 | every cell holds `DefaultTile` for its position |
| `Tiles.TileMap.PixelToTile` | src/main/java/com/greenfarm3/game/TileMap.java:216-224 | any tile returned is on the map |
| `Tiles.AxisInRange` | src/main/java/com/greenfarm3/game/TileMap.java:216-224 | on one axis, the truncated quotient lies in `[0, count)` exactly for pixels strictly between `-size` and `count * size` |
| `Tiles.TileMap.PixelToTileMeaning` | src/main/java/com/greenfarm3/game/TileMap.java:216-224 | on a non-empty map with positive tile sizes and no overflow, a tile exactly for pixels strictly between `(-tileWidth, -tileHeight)` and `(mapWidth * tileWidth, mapHeight * tileHeight)`; never an exception |
| `Tiles.TileMap.TileToPixel` | src/main/java/com/greenfarm3/game/TileMap.java:232-237 | a pixel exactly for tiles on the map |
| `Tiles.TileMap.PixelInTile` | src/main/java/com/greenfarm3/game/TileMap.java:216-237 | every pixel of an on-map tile converts back to that tile |
| `Tiles.TileMap.TileZeroStraddlesOrigin` | src/main/java/com/greenfarm3/game/TileMap.java:216-224 | pixels strictly between minus one tile and one tile map to tile (0, 0), negative ones included |
| `Viewport.ClampAxisBounds` | src/main/java/com/greenfarm3/game/Camera.java:90-114 | a viewport no wider than the map ends inside it |
| `Viewport.ClampAxisOverflow` | src/main/java/com/greenfarm3/game/Camera.java:90-114 | near `Integer.MAX_VALUE` the overflowing sum leaves the camera outside the map |
| `Viewport.ClampAxisCentres` | src/main/java/com/greenfarm3/game/Camera.java:90-114 | a viewport wider than the map is centred on it, the odd pixel going right |
| `Viewport.ClampAxisIdempotent` | src/main/java/com/greenfarm3/game/Camera.java:90-114 | clamping a clamped position changes nothing |
| `Viewport.ClampedIdempotent` | src/main/java/com/greenfarm3/game/Camera.java:60-76 | the same on both axes, so the extra clamp in `follow` is a no-op |
| `Viewport.CentreRoundTrip` | src/main/java/com/greenfarm3/game/Camera.java:49-53 | centring on a point and reading the centre back gives the point, wrap-around included |
| `Viewport.Camera.constructor` | src/main/java/com/greenfarm3/game/Camera.java:24-31 | at the origin, the given viewport, no map bounds |
| `Viewport.Camera.ClampToBounds` | src/main/java/com/greenfarm3/game/Camera.java:90-114 | the position becomes `Clamped` of the old one; the bounds are unchanged |
| `Viewport.Camera.SetPosition` | src/main/java/com/greenfarm3/game/Camera.java:38-42 | the position becomes the clamped new position |
| `Viewport.Camera.SetCenter` | src/main/java/com/greenfarm3/game/Camera.java:49-53 | the position becomes the clamped corner half a viewport up and left of the centre |
| `Viewport.Camera.Follow` | src/main/java/com/greenfarm3/game/Camera.java:60-76 | without smoothing, the same as `setCenter` on the target |
| `Viewport.Camera.Update` | src/main/java/com/greenfarm3/game/Camera.java:82-85 | only clamps |
| `Viewport.Camera.SetMapBounds` | src/main/java/com/greenfarm3/game/Camera.java:121-125 | new bounds, and the position clamped against them |
| `Viewport.Camera.WorldToScreen` | src/main/java/com/greenfarm3/game/Camera.java:133-135 | adding the camera corner back gives the world point, for every pair of ints; without overflow the screen point is the exact difference |
| `Viewport.Camera.ScreenToWorld` | src/main/java/com/greenfarm3/game/Camera.java:143-145 | taking the camera corner away gives the screen point, for every pair of ints; without overflow the world point is the exact sum |
| `Viewport.Camera.ScreenWorldInverse` | src/main/java/com/greenfarm3/game/Camera.java:133-145 | world-to-screen and screen-to-world undo each other for every pair of ints |
| `Viewport.Camera.IsVisible` | src/main/java/com/greenfarm3/game/Camera.java:155-158 | an object of non-negative size at the camera's corner is visible when no sum overflows (the full meaning is `IsVisibleMeansOverlap`) |
| `Viewport.Camera.IsVisibleMeansOverlap` | src/main/java/com/greenfarm3/game/Camera.java:155-158 | without overflow, visible exactly when the object's closed box shares a point with the viewport on both axes |

## Left out

- Logging is not modelled: the debug flag, `setDebugMode`, `bytesToHex` (used only in log lines), and the success and failure counts `preloadCommonAssets` logs.
- The `getInstance` singleton is not modelled. `AssetManager` is an ordinary class whose constructor receives the environment.
- Resource streams and the image libraries are not modelled. This covers `getResourceAsStream`, `ImageIO.read`, `new Image(stream)`, `BufferedImage.setRGB` and the PNG bridge of `ImageConverter`. They are functions of the `Environment` value, fixed for the manager's lifetime, and reading a stream to its end is total. `readAllBytes` failures, the `mark`/`reset` calls and closing are therefore not modelled separately.
- `ImageConverter.javaFXImageToBufferedImage` is not part of this model. The loader never calls it.
- `ImageApi.ValidateImage`: `validateImage` reads the width and height as doubles and rejects NaN. The model holds them as whole numbers, so the NaN test has nothing to reject.
- Null arguments (a null byte array, path or format) are not modelled. Every caller in the loader passes non-null values.
- `FileTypeDetector.ToUpperCase`: the model upper-cases ASCII letters only. Java's locale-dependent Unicode case mapping is not modelled.
- `RGBImageParser.FloorSqrt`: `(int) Math.sqrt(n)` is modelled as the exact integer square root. For the non-negative ints it is applied to, the correctly rounded double square root truncates to the same value. Floating point is not otherwise modelled.
- `J2MEResourceParser.ReadLittleEndianShort` and `ReadLittleEndianInt` require an offset that does not overflow when 1 or 3 is added. Every caller passes an offset at most `2 + 4 * 10000`.
- `Tiles.TileMap.constructor` and `Tiles.TileMap.WithDefaultTileSize`: the model requires non-negative map sizes. Java throws `NegativeArraySizeException` for a negative size, and that path is not modelled.
- `Tiles.TileMap`: the grid `int[][]` is a rectangular `array2<int32>`. The rows are never reassigned, so a jagged array cannot arise.
- The plain getters `getWidth`, `getHeight`, `getTileWidth`, `getTileHeight`, `getViewX`, `getViewY`, `getViewWidth` and `getViewHeight` are the classes' fields and carry no member of their own.
- `Tiles.TileMap.GetPixelWidth`, `Tiles.TileMap.GetPixelHeight` (wrapped products), `Tiles.TileMap.IsValidPosition`, `Assets.AssetManager.GetImage`, `Assets.AssetManager.GetCacheSize`, `Viewport.Camera.GetCenterX` and `Viewport.Camera.GetCenterY` are modelled as functions without contracts of their own. `IsValidPosition` is the map-membership test the `TileMap` contracts are written in, and `Viewport.CentreRoundTrip` relates `getCenterX` and `getCenterY` to `setCenter`.
- `Viewport.Camera.Follow`: smooth following (`smoothFollow`, `followSpeed`, `setSmoothFollow`, `setFollowSpeed`) uses float arithmetic and is not modelled. Only the instant branch is.
- `Viewport.ClampAxisBounds` requires that the position plus the viewport size does not overflow. `ClampAxisOverflow` shows the bound fails otherwise.
- `Tiles.TileMap.PixelInTile` requires that the map's pixel size fits in an int.
- `Tiles.TileMap.PixelToTileMeaning` requires positive tile sizes, a non-empty map and a pixel size that fits in an int. A zero tile size throws, and an empty map answers null everywhere, which `PixelToTile`'s own contract already covers.
- `Viewport.Camera.IsVisibleMeansOverlap` requires non-negative sizes and sums that do not overflow. Outside that range, `isVisible`'s wrapped comparisons have no geometric meaning.
