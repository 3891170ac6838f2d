/** The legacy J2ME resource container:
      [2 bytes: count, little-endian][count + 1 little-endian 32-bit offsets][payload]
    where the last offset marks the end of the last section. */
module J2MEResourceParser {
  import opened JavaTypes

  /** The largest count the parser accepts. */
  const MAX_COUNT: int := 10000

  /** `readLittleEndianShort`: an unsigned 16-bit value, or 0 when the two bytes are not
      both inside the array. */
  function ReadLittleEndianShort(data: ByteArray, offset: int32): (r: int32)
    requires offset <= MAX - 1
    ensures 0 <= r < 0x1_0000
    ensures 0 <= offset && offset + 2 <= |data| ==> r % 0x100 == data[offset] && r / 0x100 == data[offset + 1]
    ensures !(0 <= offset && offset + 2 <= |data|) ==> r == 0
  {
    if offset < 0 || offset + 1 >= |data| then 0
    else data[offset] as int + 256 * (data[offset + 1] as int)
  }

  /** `readLittleEndianInt`: four bytes, least significant first, assembled into a signed
      32-bit value (the top byte lands in the sign bit), or 0 when the four bytes are not all
      inside the array. */
  function ReadLittleEndianInt(data: ByteArray, offset: int32): (r: int32)
    requires offset <= MAX - 3
    ensures !(0 <= offset && offset + 4 <= |data|) ==> r == 0
  {
    if offset < 0 || offset + 3 >= |data| then 0
    else Wrap(data[offset] as int + 0x100 * (data[offset + 1] as int) + 0x1_0000 * (data[offset + 2] as int) + 0x100_0000 * (data[offset + 3] as int))
  }

  /** The two bytes a writer stores for a 16-bit count. */
  function EncodeShort(v: int): (r: seq<byte>)
    requires 0 <= v < 0x1_0000
    ensures |r| == 2
  {
    [v % 256, v / 256]
  }

  /** The four bytes a writer stores for a 32-bit offset, two's complement, least
      significant first. */
  function EncodeInt(v: int32): (r: seq<byte>)
    ensures |r| == 4
  {
    [ByteOf(v, 0), ByteOf(v, 1), ByteOf(v, 2), ByteOf(v, 3)]
  }

  lemma {:induction false} ShortRoundTrip(data: ByteArray, offset: int32, v: int)
    requires 0 <= offset <= MAX - 1 && 0 <= v < 0x1_0000
    requires offset + 2 <= |data|
    ensures data[offset..offset + 2] == EncodeShort(v) <==> ReadLittleEndianShort(data, offset) == v
  {
    if data[offset..offset + 2] == EncodeShort(v) {
      assert data[offset] == v % 256 && data[offset + 1] == v / 256;
    }
    if ReadLittleEndianShort(data, offset) == v {
      var s := data[offset..offset + 2];
      assert s[0] == data[offset] && s[1] == data[offset + 1];
      assert v == data[offset] as int + 256 * (data[offset + 1] as int);
      assert v % 256 == data[offset];
      assert v / 256 == data[offset + 1];
    }
  }

  /** A 16-bit read is unsigned and lies in [0, 65535]; its low byte is the byte at the
      offset and its high byte the next one. */
  lemma ShortRange(data: ByteArray, offset: int32)
    requires offset <= MAX - 1
    ensures 0 <= ReadLittleEndianShort(data, offset) < 0x1_0000
    ensures 0 <= offset && offset + 2 <= |data| ==>
      EncodeShort(ReadLittleEndianShort(data, offset)) == data[offset..offset + 2]
  {
    if 0 <= offset && offset + 2 <= |data| {
      ShortRoundTrip(data, offset, ReadLittleEndianShort(data, offset));
    }
  }

  /** `readLittleEndianInt` reads back exactly the value whose two's-complement bytes are
      stored at the offset, and only that value. */
  lemma {:induction false} IntRoundTrip(data: ByteArray, offset: int32, v: int32)
    requires 0 <= offset <= MAX - 3 && offset + 4 <= |data|
    ensures data[offset..offset + 4] == EncodeInt(v) <==> ReadLittleEndianInt(data, offset) == v
  {
    var s := data[offset..offset + 4];
    assert s == [data[offset], data[offset + 1], data[offset + 2], data[offset + 3]];
    if s == EncodeInt(v) {
      BytesWord(v);
    }
    if ReadLittleEndianInt(data, offset) == v {
      WordBytes(data[offset], data[offset + 1], data[offset + 2], data[offset + 3]);
    }
  }

  /** The entries of the offset table: `n` ints read at bytes 2, 6, 10, ... */
  function Entries(data: ByteArray, n: nat): (r: seq<int32>)
    requires 2 + 4 * n <= |data|
    ensures |r| == n
  {
    seq(n, i requires 0 <= i < n => ReadLittleEndianInt(data, 2 + 4 * i))
  }

  /** What `parseOffsetTable` returns: null for a blob under 2 bytes, a count over 10000, a
      blob too short for `count + 1` offsets, or an offset outside [0, data.length]. */
  function OffsetTable(data: ByteArray): Option<seq<int32>>
  {
    if |data| < 2 then None
    else
      var count := ReadLittleEndianShort(data, 0);
      if count < 0 || count > MAX_COUNT then None
      else if |data| < 2 + 4 * (count + 1) then None
      else
        var table := Entries(data, count + 1);
        if forall i :: 0 <= i < |table| ==> 0 <= table[i] <= |data| then Some(table) else None
  }

  /** `parseOffsetTable`: fills a fresh `int[count + 1]`, giving up at the first offset that
      lies outside the blob. */
  method ParseOffsetTable(data: ByteArray) returns (r: Option<seq<int32>>)
    ensures r == OffsetTable(data)
  {
    if |data| < 2 {
      return None;
    }
    var count := ReadLittleEndianShort(data, 0);
    if count < 0 || count > MAX_COUNT {
      return None;
    }
    var requiredSize := 2 + 4 * (count + 1);
    if |data| < requiredSize {
      return None;
    }
    var offsets := new int32[count + 1];
    var i := 0;
    while i <= count
      invariant 0 <= i <= count + 1
      invariant forall j :: 0 <= j < i ==>
        offsets[j] == ReadLittleEndianInt(data, 2 + 4 * j) && 0 <= offsets[j] <= |data|
    {
      offsets[i] := ReadLittleEndianInt(data, 2 + i * 4);
      if offsets[i] < 0 || offsets[i] > |data| {
        assert Entries(data, count + 1)[i] == offsets[i];
        return None;
      }
      i := i + 1;
    }
    assert offsets[..] == Entries(data, count + 1);
    return Some(offsets[..]);
  }

  /** Wrapped differences agree with the real difference once both ends are in [0, MAX]. */
  lemma {:induction false} WrappedSpan(h: int, s: int, e: int)
    requires 0 <= Wrap(h + s) < Wrap(h + e) && 0 <= Wrap(e - s)
    ensures Wrap(e - s) == Wrap(h + e) - Wrap(h + s)
  {
    var a, b := Wrap(h + s), Wrap(h + e);
    var i := (h + s - a) / TWO_32;
    var j := (h + e - b) / TWO_32;
    assert h + s - a == TWO_32 * i;
    assert h + e - b == TWO_32 * j;
    assert (e - s) - (b - a) == TWO_32 * (j - i);
    WrapUnique(e - s, b - a);
  }

  /** What `readDataSection` returns, with every int operation wrapped as Java does it.
      Sections are located relative to `2 + 4 * (offsets.length - 1)`, one entry short of
      the table's real end. */
  function DataSection(data: ByteArray, offsets: seq<int32>, index: int32): Option<seq<byte>>
  {
    if index < 0 || index >= |offsets| - 1 then None
    else
      var count := |offsets| - 1;
      var headerSize := Wrap(2 + 4 * count);
      var startOffset := offsets[index];
      var endOffset := offsets[index + 1];
      var size := Wrap(endOffset as int - startOffset);
      if size < 0 then None
      else
        var actualStart := Wrap(headerSize as int + startOffset);
        var actualEnd := Wrap(headerSize as int + endOffset);
        if actualStart < 0 || actualEnd > |data| || actualStart >= actualEnd then None
        else
          WrappedSpan(headerSize, startOffset, endOffset);
          WrapAdd(2 + 4 * count, startOffset);
          WrapAdd(2 + 4 * count, endOffset);
          Some(data[actualStart..actualStart + size])
  }

  /** `readDataSection`: allocates `new byte[size]` and copies the section into it; the
      copy never reads past the blob, and the blob is left alone. */
  method ReadDataSection(data: ByteArray, offsets: seq<int32>, index: int32) returns (r: Option<array<byte>>)
    ensures r.None? <==> DataSection(data, offsets, index).None?
    ensures r.Some? ==> fresh(r.value) && r.value[..] == DataSection(data, offsets, index).value
  {
    if index < 0 || index >= |offsets| - 1 {
      return None;
    }
    var count := |offsets| - 1;
    var headerSize := Wrap(2 + 4 * count);
    var startOffset := offsets[index];
    var endOffset := offsets[index + 1];
    var size := Wrap(endOffset as int - startOffset);
    if size < 0 {
      return None;
    }
    var actualStart := Wrap(headerSize as int + startOffset);
    var actualEnd := Wrap(headerSize as int + endOffset);
    if actualStart < 0 || actualEnd > |data| || actualStart >= actualEnd {
      return None;
    }
    WrappedSpan(headerSize, startOffset, endOffset);
    var section := new byte[size];
    forall k | 0 <= k < size {
      section[k] := data[actualStart + k];
    }
    assert section[..] == data[actualStart..actualStart + size];
    return Some(section);
  }

  /** With offsets that are non-negative and a table of at most 10001 entries, the wrapped
      arithmetic never matters: section `index` is the non-empty slice
      `data[h + off[index] .. h + off[index + 1]]` with `h = 2 + 4 * (offsets.length - 1)`
      whenever that slice lies inside the blob, and null otherwise. */
  lemma DataSectionSlice(data: ByteArray, offsets: seq<int32>, index: int32)
    requires 0 <= index < |offsets| - 1 && |offsets| <= MAX_COUNT + 1
    requires 0 <= offsets[index] && 0 <= offsets[index + 1]
    ensures var h := 2 + 4 * (|offsets| - 1);
      var s, e := offsets[index], offsets[index + 1];
      DataSection(data, offsets, index) ==
        if s < e && h + e <= |data| then Some(data[h + s .. h + e]) else None
  {
  }

  /** A section that is found is never empty and never longer than the blob, so the
      loader's test for an empty section can never succeed. */
  lemma DataSectionNonEmpty(data: ByteArray, offsets: seq<int32>, index: int32)
    ensures DataSection(data, offsets, index).Some? ==> 0 < |DataSection(data, offsets, index).value| <= |data|
  {
  }

  /** `isJ2MEFormat`: the cheap structural test the loader runs before parsing. */
  predicate IsJ2MEFormat(data: ByteArray)
    ensures IsJ2MEFormat(data) ==>
      6 <= |data| && 0 <= GetSectionCount(data) && 2 + 4 * (GetSectionCount(data) + 1) <= |data| &&
      0 <= ReadLittleEndianInt(data, 2) <= |data|
  {
    if |data| < 6 then false
    else
      var count := ReadLittleEndianShort(data, 0);
      if count < 0 || count > MAX_COUNT then false
      else if |data| < 2 + 4 * (count + 1) then false
      else
        var firstOffset := ReadLittleEndianInt(data, 2);
        !(firstOffset < 0 || firstOffset > |data|)
  }

  /** `getSectionCount`: the stored count, or -1. */
  function GetSectionCount(data: ByteArray): (r: int32)
    ensures -1 <= r <= MAX_COUNT
    ensures |data| < 2 ==> r == -1
  {
    if |data| < 2 then -1
    else
      var count := ReadLittleEndianShort(data, 0);
      if count < 0 || count > MAX_COUNT then -1 else count
  }

  /** Every blob `parseOffsetTable` accepts also passes `isJ2MEFormat`, and the table it
      returns has `getSectionCount + 1` entries, all inside the blob, entry `i` being the int
      stored at byte `2 + 4i`. */
  lemma OffsetTableAccepted(data: ByteArray)
    ensures OffsetTable(data).Some? ==>
      var t := OffsetTable(data).value;
      IsJ2MEFormat(data) && |t| == GetSectionCount(data) + 1 &&
      forall i :: 0 <= i < |t| ==> 0 <= t[i] <= |data| && t[i] == ReadLittleEndianInt(data, 2 + 4 * i)
  {
    if OffsetTable(data).Some? {
      var t := OffsetTable(data).value;
      assert t[0] == ReadLittleEndianInt(data, 2);
    }
  }

  /** The smallest container: no sections, only the end marker 0. */
  lemma EmptyContainerAccepted()
    ensures var d: ByteArray := [0, 0, 0, 0, 0, 0, 0];
      IsJ2MEFormat(d) && OffsetTable(d) == Some([0])
  {
    var d: ByteArray := [0, 0, 0, 0, 0, 0, 0];
    assert ReadLittleEndianShort(d, 0) == 0;
    assert ReadLittleEndianInt(d, 2) == 0;
    assert Entries(d, 1) == [0];
  }

  /** The converse of `OffsetTableAccepted` fails: `isJ2MEFormat` looks at the first offset
      only, so a blob whose second offset lies past its end passes it. */
  lemma IsJ2MEFormatIsWeaker()
    ensures var d: ByteArray := [1, 0, 0, 0, 0, 0, 0xFF, 0, 0, 0];
      IsJ2MEFormat(d) && OffsetTable(d).None?
  {
    var d: ByteArray := [1, 0, 0, 0, 0, 0, 0xFF, 0, 0, 0];
    assert ReadLittleEndianShort(d, 0) == 1;
    assert ReadLittleEndianInt(d, 2) == 0;
    assert ReadLittleEndianInt(d, 6) == 255;
    assert Entries(d, 2)[1] == 255;
  }

  /** `getSectionCount` is -1 exactly when the blob is under 2 bytes or the count is over
      10000; otherwise it is the unsigned little-endian count. */
  lemma SectionCountMeaning(data: ByteArray)
    ensures GetSectionCount(data) == -1 <==>
      |data| < 2 || data[0] as int + 256 * (data[1] as int) > MAX_COUNT
    ensures GetSectionCount(data) != -1 ==> GetSectionCount(data) == data[0] as int + 256 * (data[1] as int)
  {
  }

  // ---- the container as a writer lays it out ----

  /** The offset table, entry after entry. */
  function EncodeTable(offsets: seq<int32>): (r: seq<byte>)
    ensures |r| == 4 * |offsets|
  {
    if offsets == [] then [] else EncodeInt(offsets[0]) + EncodeTable(offsets[1..])
  }

  lemma {:induction false} EncodeTableEntry(offsets: seq<int32>, i: int)
    requires 0 <= i < |offsets|
    ensures EncodeTable(offsets)[4 * i .. 4 * i + 4] == EncodeInt(offsets[i])
  {
    if i > 0 {
      EncodeTableEntry(offsets[1..], i - 1);
      var whole, rest := EncodeTable(offsets), EncodeTable(offsets[1..]);
      assert whole == EncodeInt(offsets[0]) + rest;
      assert whole[4..] == rest;
      assert whole[4 * i .. 4 * i + 4] == whole[4..][4 * (i - 1) .. 4 * (i - 1) + 4];
    }
  }

  /** A container holding `offsets.length - 1` sections: the count, the table (whose last
      entry marks the end of the last section) and the payload. */
  function Container(offsets: seq<int32>, payload: seq<byte>): (r: seq<byte>)
    requires 1 <= |offsets| <= MAX_COUNT + 1
    ensures |r| == 2 + 4 * |offsets| + |payload|
  {
    EncodeShort(|offsets| - 1) + EncodeTable(offsets) + payload
  }

  /** Parsing a well-formed container gives back its table. */
  lemma {:induction false} OffsetTableRoundTrip(offsets: seq<int32>, payload: seq<byte>)
    requires 1 <= |offsets| <= MAX_COUNT + 1
    requires |Container(offsets, payload)| <= MAX
    requires forall i :: 0 <= i < |offsets| ==> 0 <= offsets[i] <= |Container(offsets, payload)|
    ensures OffsetTable(Container(offsets, payload)) == Some(offsets)
  {
    var data: ByteArray := Container(offsets, payload);
    var n := |offsets|;
    assert data[0..2] == EncodeShort(n - 1);
    ShortRoundTrip(data, 0, n - 1);
    assert ReadLittleEndianShort(data, 0) == n - 1;
    var table := Entries(data, n);
    forall i | 0 <= i < n
      ensures table[i] == offsets[i]
    {
      TableEntryOfContainer(offsets, payload, i);
    }
    assert table == offsets;
  }

  lemma TableEntryOfContainer(offsets: seq<int32>, payload: seq<byte>, i: int)
    requires 1 <= |offsets| <= MAX_COUNT + 1
    requires |Container(offsets, payload)| <= MAX
    requires 0 <= i < |offsets|
    ensures ReadLittleEndianInt(Container(offsets, payload), 2 + 4 * i) == offsets[i]
  {
    var data: ByteArray := Container(offsets, payload);
    EncodeTableEntry(offsets, i);
    assert data[2 + 4 * i .. 2 + 4 * i + 4] == EncodeTable(offsets)[4 * i .. 4 * i + 4];
    IntRoundTrip(data, 2 + 4 * i, offsets[i]);
  }

  /** Section `i` of a well-formed container is not `payload[off[i] .. off[i+1]]`: since the
      header is taken to end one entry early, sections are sliced out of the last table
      entry followed by the payload, so the first four bytes of section 0 are the end
      marker itself. */
  lemma {:induction false} ContainerSections(offsets: seq<int32>, payload: seq<byte>, index: int32)
    requires 2 <= |offsets| <= MAX_COUNT + 1
    requires |Container(offsets, payload)| <= MAX
    requires forall i :: 0 <= i < |offsets| ==> 0 <= offsets[i]
    requires 0 <= index < |offsets| - 1
    ensures var s, e := offsets[index], offsets[index + 1];
      var shifted := EncodeInt(offsets[|offsets| - 1]) + payload;
      DataSection(Container(offsets, payload), offsets, index) ==
        if s < e && e <= |shifted| then Some(shifted[s..e]) else None
  {
    var data: ByteArray := Container(offsets, payload);
    var n := |offsets|;
    var h := 2 + 4 * (n - 1);
    DataSectionSlice(data, offsets, index);
    EncodeTableEntry(offsets, n - 1);
    assert data[h..] == EncodeInt(offsets[n - 1]) + payload by {
      assert data == EncodeShort(n - 1) + EncodeTable(offsets) + payload;
      assert EncodeTable(offsets)[4 * (n - 1)..] == EncodeInt(offsets[n - 1]);
    }
    var s, e := offsets[index], offsets[index + 1];
    if s < e && h + e <= |data| {
      assert data[h + s .. h + e] == data[h..][s..e];
    }
  }
}
