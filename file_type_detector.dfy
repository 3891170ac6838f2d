/** Recognising image formats by their magic bytes: at offset 0 (PNG, JPEG, GIF87a/89a, BMP)
    and, for PNG and JPEG only, at an offset inside a blob that carries a custom header. */
module FileTypeDetector {
  import opened JavaTypes

  /** Section 3.1 of RFC 2083 (PNG). */
  const PNG_HEADER: seq<byte> := [0x89, 0x50, 0x4E, 0x47, 0x0D, 0x0A, 0x1A, 0x0A]
  /** The SOI marker followed by the first byte of the next marker (ITU-T T.81, Table B.1). */
  const JPEG_HEADER: seq<byte> := [0xFF, 0xD8, 0xFF]
  /** "GIF87a" and "GIF89a", the header block of section 17 of the GIF89a specification. */
  const GIF_HEADER_87: seq<byte> := [0x47, 0x49, 0x46, 0x38, 0x37, 0x61]
  const GIF_HEADER_89: seq<byte> := [0x47, 0x49, 0x46, 0x38, 0x39, 0x61]
  /** "BM". */
  const BMP_HEADER: seq<byte> := [0x42, 0x4D]

  /** The signatures that identify each format name the detector can return. */
  function Signatures(format: string): seq<seq<byte>>
  {
    if format == "PNG" then [PNG_HEADER]
    else if format == "JPEG" then [JPEG_HEADER]
    else if format == "GIF" then [GIF_HEADER_87, GIF_HEADER_89]
    else if format == "BMP" then [BMP_HEADER]
    else []
  }

  /** The first `length` bytes of `header` and `pattern` exist and agree. */
  predicate HeaderMatches(header: seq<byte>, pattern: seq<byte>, length: int)
  {
    |header| >= length && |pattern| >= length &&
    forall i :: 0 <= i < length ==> header[i] == pattern[i]
  }

  /** `matchesHeader`: the byte-by-byte comparison loop. */
  method MatchesHeader(header: seq<byte>, pattern: seq<byte>, length: int) returns (b: bool)
    ensures b <==> HeaderMatches(header, pattern, length)
  {
    if |header| < length || |pattern| < length {
      return false;
    }
    var i := 0;
    while i < length
      invariant 0 <= i && (length >= 0 ==> i <= length)
      invariant i <= |header| && i <= |pattern|
      invariant forall j :: 0 <= j < i ==> header[j] == pattern[j]
    {
      if header[i] != pattern[i] {
        return false;
      }
      i := i + 1;
    }
    return true;
  }

  /** `detectImageFormat(byte[], int)`: the first of PNG, JPEG, GIF87a, GIF89a and BMP whose
      signature fits in `length` bytes and matches, or null. */
  function DetectImageFormat(header: seq<byte>, length: int): (r: Option<string>)
    ensures length < 2 ==> r == None
    ensures r.Some? ==> |Signatures(r.value)| > 0
  {
    if length < 2 then None
    else if length >= 8 && HeaderMatches(header, PNG_HEADER, 8) then Some("PNG")
    else if length >= 3 && HeaderMatches(header, JPEG_HEADER, 3) then Some("JPEG")
    else if length >= 6 && HeaderMatches(header, GIF_HEADER_87, 6) then Some("GIF")
    else if length >= 6 && HeaderMatches(header, GIF_HEADER_89, 6) then Some("GIF")
    else if length >= 2 && HeaderMatches(header, BMP_HEADER, 2) then Some("BMP")
    else None
  }

  /** `header` starts with one of the signatures of `format`, and that signature lies within
      the first `length` bytes. */
  predicate StartsWithSignatureOf(header: seq<byte>, length: int, format: string)
  {
    exists sig :: sig in Signatures(format) && |sig| <= length && HeaderMatches(header, sig, |sig|)
  }

  /** The order of the checks never matters: no two signatures share a first byte, so the
      detector answers `format` exactly when the header carries a signature of `format`. */
  lemma DetectImageFormatMeaning(header: seq<byte>, length: int, format: string)
    ensures DetectImageFormat(header, length) == Some(format) <==> StartsWithSignatureOf(header, length, format)
  {
    var r := DetectImageFormat(header, length);
    if r == Some(format) {
      var sig :| sig in Signatures(format) && |sig| <= length && HeaderMatches(header, sig, |sig|);
      assert StartsWithSignatureOf(header, length, format);
    }
    if StartsWithSignatureOf(header, length, format) {
      var sig :| sig in Signatures(format) && |sig| <= length && HeaderMatches(header, sig, |sig|);
      assert header[0] == sig[0];
    }
  }

  /** `detectImageFormat(InputStream)` on a markable stream over `data`: one `read` into a
      16-byte buffer (-1 at end of stream), then the array detector on the bytes read. */
  function DetectStreamFormat(data: seq<byte>): (r: Option<string>)
    ensures |data| < 2 ==> r.None?
    ensures r.Some? ==> |Signatures(r.value)| > 0
  {
    var bytesRead := if |data| == 0 then -1 else Min(16, |data|);
    if bytesRead < 2 then None else DetectImageFormat(data[..bytesRead], bytesRead)
  }

  /** Every signature is between 2 and 8 bytes long. */
  lemma SignatureLengths(format: string, sig: seq<byte>)
    requires sig in Signatures(format)
    ensures 2 <= |sig| <= 8
  {
  }

  /** Sixteen bytes are enough: the stream detector answers `format` exactly when the whole
      stream starts with a signature of `format`. */
  lemma DetectStreamFormatMeaning(data: seq<byte>, format: string)
    ensures DetectStreamFormat(data) == Some(format) <==> StartsWithSignatureOf(data, |data|, format)
  {
    if |data| < 2 {
      if StartsWithSignatureOf(data, |data|, format) {
        var sig :| sig in Signatures(format) && |sig| <= |data| && HeaderMatches(data, sig, |sig|);
        SignatureLengths(format, sig);
      }
    } else {
      var n := Min(16, |data|);
      var prefix := data[..n];
      DetectImageFormatMeaning(prefix, n, format);
      if StartsWithSignatureOf(prefix, n, format) {
        var sig :| sig in Signatures(format) && |sig| <= n && HeaderMatches(prefix, sig, |sig|);
        assert HeaderMatches(data, sig, |sig|);
      }
      if StartsWithSignatureOf(data, |data|, format) {
        var sig :| sig in Signatures(format) && |sig| <= |data| && HeaderMatches(data, sig, |sig|);
        SignatureLengths(format, sig);
        assert HeaderMatches(prefix, sig, |sig|);
      }
    }
  }

  /** `isImageFile`: the whole array is given to the detector as the header. */
  function IsImageFile(header: seq<byte>): (r: bool)
    ensures r <==> exists format :: StartsWithSignatureOf(header, |header|, format)
  {
    var r := DetectImageFormat(header, |header|);
    if r.Some? then
      DetectImageFormatMeaning(header, |header|, r.value);
      true
    else
      assert forall format :: !StartsWithSignatureOf(header, |header|, format) by {
        forall format ensures !StartsWithSignatureOf(header, |header|, format) {
          DetectImageFormatMeaning(header, |header|, format);
        }
      }
      false
  }

  /** `sig` lies in `data` starting at `offset`. */
  predicate SignatureAt(data: seq<byte>, offset: int, sig: seq<byte>)
  {
    0 <= offset && offset + |sig| <= |data| &&
    forall i :: 0 <= i < |sig| ==> data[offset + i] == sig[i]
  }

  /** `isPNGAtOffset`. */
  predicate IsPNGAtOffset(data: seq<byte>, offset: int)
  {
    SignatureAt(data, offset, PNG_HEADER)
  }

  /** `isJPEGAtOffset`. */
  predicate IsJPEGAtOffset(data: seq<byte>, offset: int)
  {
    SignatureAt(data, offset, JPEG_HEADER)
  }

  predicate ImageSignatureAt(data: seq<byte>, offset: int)
  {
    IsPNGAtOffset(data, offset) || IsJPEGAtOffset(data, offset)
  }

  /** `detectFormatAtOffset`: only PNG and JPEG are recognised away from offset 0. */
  function DetectFormatAtOffset(data: seq<byte>, offset: int): (r: Option<string>)
    ensures r.Some? <==> 0 <= offset < |data| && ImageSignatureAt(data, offset)
    ensures r.Some? ==> r.value in {"PNG", "JPEG"}
  {
    if offset < 0 || offset >= |data| then None
    else if IsPNGAtOffset(data, offset) then Some("PNG")
    else if IsJPEGAtOffset(data, offset) then Some("JPEG")
    else None
  }

  /** The bytes from a signature's offset onward, sniffed at offset 0, give the same format
      as `detectFormatAtOffset` gave at that offset: the slice the loader extracts is a
      well-formed start of a PNG or JPEG stream. */
  lemma ExtractedSliceSniffs(data: seq<byte>, offset: int)
    requires 0 <= offset < |data| && ImageSignatureAt(data, offset)
    ensures DetectImageFormat(data[offset..], |data| - offset) == DetectFormatAtOffset(data, offset)
  {
    var tail := data[offset..];
    if IsPNGAtOffset(data, offset) {
      assert HeaderMatches(tail, PNG_HEADER, 8);
    } else {
      assert data[offset + 0] == JPEG_HEADER[0];
      assert tail[0] == 0xFF;
      assert HeaderMatches(tail, JPEG_HEADER, 3);
    }
  }

  // ---- findImageSignatureInFile ----

  /** The offsets probed after the first kilobyte has been scanned. */
  const SAMPLE_OFFSETS: seq<int> := [100, 500, 1000, 2000, 5000, 10000, 20000, 50000]

  /** The end (exclusive) of the exhaustive scan: `min(1024, data.length - 8)`. */
  function ScanLimit(data: seq<byte>): int
  {
    Min(1024, |data| - 8)
  }

  /** The first offset in `[from, limit)` holding a PNG or JPEG signature, or -1. */
  function FirstScanHit(data: seq<byte>, from: int, limit: int): int
    decreases limit - from
  {
    if from >= limit then -1
    else if IsPNGAtOffset(data, from) || IsJPEGAtOffset(data, from) then from
    else FirstScanHit(data, from + 1, limit)
  }

  /** The first of the sample offsets from index `k` on that is below `data.length - 8`
      and holds a signature, or -1. */
  function FirstSampleHit(data: seq<byte>, k: nat): int
    decreases |SAMPLE_OFFSETS| - k
  {
    if k >= |SAMPLE_OFFSETS| then -1
    else if SAMPLE_OFFSETS[k] < |data| - 8 && ImageSignatureAt(data, SAMPLE_OFFSETS[k]) then SAMPLE_OFFSETS[k]
    else FirstSampleHit(data, k + 1)
  }

  /** What `findImageSignatureInFile` answers. */
  function SignatureOffset(data: seq<byte>): int
  {
    if |data| < 3 then -1
    else
      var hit := FirstScanHit(data, 0, ScanLimit(data));
      if hit >= 0 then hit else FirstSampleHit(data, 0)
  }

  /** `findImageSignatureInFile`: an exhaustive scan of the first kilobyte, then the sample offsets. */
  method FindImageSignatureInFile(data: seq<byte>) returns (r: int)
    ensures r == SignatureOffset(data)
  {
    if |data| < 3 {
      return -1;
    }
    var searchLimit := Min(1024, |data| - 8);
    var i := 0;
    while i < searchLimit
      invariant 0 <= i && (searchLimit >= 0 ==> i <= searchLimit)
      invariant FirstScanHit(data, 0, searchLimit) == FirstScanHit(data, i, searchLimit)
    {
      if IsPNGAtOffset(data, i) {
        return i;
      }
      if IsJPEGAtOffset(data, i) {
        return i;
      }
      i := i + 1;
    }
    var k := 0;
    while k < |SAMPLE_OFFSETS|
      invariant 0 <= k <= |SAMPLE_OFFSETS|
      invariant FirstSampleHit(data, 0) == FirstSampleHit(data, k)
    {
      var offset := SAMPLE_OFFSETS[k];
      if offset < |data| - 8 {
        if IsPNGAtOffset(data, offset) {
          return offset;
        }
        if IsJPEGAtOffset(data, offset) {
          return offset;
        }
      }
      k := k + 1;
    }
    return -1;
  }

  lemma {:induction false} FirstScanHitIsFirst(data: seq<byte>, from: int, limit: int)
    ensures var h := FirstScanHit(data, from, limit);
      (h == -1 || (from <= h < limit && ImageSignatureAt(data, h))) &&
      (forall j :: from <= j < limit && (h == -1 || j < h) ==> !ImageSignatureAt(data, j))
    decreases limit - from
  {
    if from < limit && !ImageSignatureAt(data, from) {
      FirstScanHitIsFirst(data, from + 1, limit);
    }
  }

  lemma {:induction false} FirstSampleHitIsSample(data: seq<byte>, k: nat)
    ensures var h := FirstSampleHit(data, k);
      h == -1 || (exists j :: k <= j < |SAMPLE_OFFSETS| && h == SAMPLE_OFFSETS[j]
                   && h < |data| - 8 && ImageSignatureAt(data, h))
    ensures var h := FirstSampleHit(data, k);
      forall j :: k <= j < |SAMPLE_OFFSETS| && (h == -1 || SAMPLE_OFFSETS[j] < h) ==>
        !(SAMPLE_OFFSETS[j] < |data| - 8 && ImageSignatureAt(data, SAMPLE_OFFSETS[j]))
    decreases |SAMPLE_OFFSETS| - k
  {
    if k < |SAMPLE_OFFSETS| && !(SAMPLE_OFFSETS[k] < |data| - 8 && ImageSignatureAt(data, SAMPLE_OFFSETS[k])) {
      FirstSampleHitIsSample(data, k + 1);
    }
  }

  /** A non-negative answer is an offset where a full PNG or JPEG signature lies (so
      `detectFormatAtOffset` recognises it), strictly below `data.length - 8`; inputs shorter
      than 3 bytes give -1. */
  lemma SignatureOffsetSound(data: seq<byte>)
    ensures |data| < 3 ==> SignatureOffset(data) == -1
    ensures var r := SignatureOffset(data);
      r == -1 || (0 <= r < |data| - 8 && ImageSignatureAt(data, r) && DetectFormatAtOffset(data, r).Some?)
  {
    if |data| >= 3 {
      FirstScanHitIsFirst(data, 0, ScanLimit(data));
      FirstSampleHitIsSample(data, 0);
    }
  }

  /** The exhaustive phase wins whenever the first `min(1024, len - 8)` offsets hold a
      signature, and then it returns the smallest such offset. */
  lemma SignatureOffsetScanFirst(data: seq<byte>, j: int)
    requires |data| >= 3 && 0 <= j < ScanLimit(data) && ImageSignatureAt(data, j)
    ensures var r := SignatureOffset(data);
      0 <= r <= j && ImageSignatureAt(data, r) &&
      forall i :: 0 <= i < r ==> !ImageSignatureAt(data, i)
  {
    FirstScanHitIsFirst(data, 0, ScanLimit(data));
  }

  /** The samples at 100, 500 and 1000 never win: whenever one of them is probed it has
      already been looked at by the exhaustive scan. So an answer past the scanned prefix is
      one of 2000, 5000, 10000, 20000 or 50000. */
  lemma SignatureOffsetLateSamples(data: seq<byte>)
    ensures var r := SignatureOffset(data);
      r >= 0 && r >= ScanLimit(data) ==> r in {2000, 5000, 10000, 20000, 50000}
  {
    var r := SignatureOffset(data);
    if |data| >= 3 && r >= 0 && r >= ScanLimit(data) {
      var limit := ScanLimit(data);
      FirstScanHitIsFirst(data, 0, limit);
      assert FirstScanHit(data, 0, limit) == -1;
      FirstSampleHitIsSample(data, 0);
      var j :| 0 <= j < |SAMPLE_OFFSETS| && r == SAMPLE_OFFSETS[j] && r < |data| - 8 && ImageSignatureAt(data, r);
    }
  }

  // ---- format names ----

  function UpperChar(c: char): char
  {
    if 'a' <= c <= 'z' then (c as int - 'a' as int + 'A' as int) as char else c
  }

  /** `String.toUpperCase` on the ASCII letters. */
  function ToUpperCase(s: string): (r: string)
    ensures |r| == |s|
    ensures forall i :: 0 <= i < |r| ==> !('a' <= r[i] <= 'z')
    ensures forall i :: 0 <= i < |s| && !('a' <= s[i] <= 'z') ==> r[i] == s[i]
    ensures forall i :: 0 <= i < |s| && 'a' <= s[i] <= 'z' ==> r[i] as int == s[i] as int - ('a' as int - 'A' as int)
  {
    seq(|s|, i requires 0 <= i < |s| => UpperChar(s[i]))
  }

  /** `getFormatExtension`. */
  function GetFormatExtension(format: Option<string>): (r: Option<string>)
    ensures r.Some? <==> format.Some? && ToUpperCase(format.value) in KNOWN_NAMES
    ensures r.Some? ==> r.value in {".png", ".jpg", ".gif", ".bmp"}
  {
    if format.None? then None
    else
      var f := ToUpperCase(format.value);
      if f == "PNG" then Some(".png")
      else if f == "JPEG" || f == "JPG" then Some(".jpg")
      else if f == "GIF" then Some(".gif")
      else if f == "BMP" then Some(".bmp")
      else None
  }

  /** `getMimeType`. */
  function GetMimeType(format: Option<string>): (r: Option<string>)
    ensures r.Some? <==> format.Some? && ToUpperCase(format.value) in KNOWN_NAMES
    ensures r.Some? ==> r.value in {"image/png", "image/jpeg", "image/gif", "image/bmp"}
  {
    if format.None? then None
    else
      var f := ToUpperCase(format.value);
      if f == "PNG" then Some("image/png")
      else if f == "JPEG" || f == "JPG" then Some("image/jpeg")
      else if f == "GIF" then Some("image/gif")
      else if f == "BMP" then Some("image/bmp")
      else None
  }

  /** The names both tables know, upper-cased. */
  const KNOWN_NAMES: set<string> := {"PNG", "JPEG", "JPG", "GIF", "BMP"}

  /** Both tables accept exactly the same names, case-insensitively, and nothing else. */
  lemma FormatTablesAgree(format: Option<string>)
    ensures GetFormatExtension(format).Some? <==> format.Some? && ToUpperCase(format.value) in KNOWN_NAMES
    ensures GetMimeType(format).Some? <==> GetFormatExtension(format).Some?
  {
  }

  lemma ToUpperCaseIdempotent(s: string)
    ensures ToUpperCase(ToUpperCase(s)) == ToUpperCase(s)
  {
  }

  /** Lookup is case-insensitive: a name and its upper-cased form map alike. */
  lemma FormatTablesCaseInsensitive(s: string)
    ensures GetFormatExtension(Some(s)) == GetFormatExtension(Some(ToUpperCase(s)))
    ensures GetMimeType(Some(s)) == GetMimeType(Some(ToUpperCase(s)))
  {
    ToUpperCaseIdempotent(s);
  }

  /** Every name the detectors return has an extension and a MIME type. */
  lemma DetectedFormatsAreKnown(header: seq<byte>, length: int, data: seq<byte>, offset: int)
    ensures DetectImageFormat(header, length).Some? ==> GetFormatExtension(DetectImageFormat(header, length)).Some?
    ensures DetectFormatAtOffset(data, offset).Some? ==> GetMimeType(DetectFormatAtOffset(data, offset)).Some?
  {
    assert ToUpperCase("PNG") == "PNG";
    assert ToUpperCase("JPEG") == "JPEG";
    assert ToUpperCase("GIF") == "GIF";
    assert ToUpperCase("BMP") == "BMP";
  }
}
