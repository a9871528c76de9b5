/** The hand-laid EXIF segment of the chore-photo fixtures: its writer, byte by byte into a buffer, and a
    reader that follows section 2 of TIFF 6.0. */
module Exif {
  import opened Prelude

  const TAG_DATE_TIME := 0x0132
  const TAG_EXIF_IFD_POINTER := 0x8769
  const TAG_DATE_TIME_ORIGINAL := 0x9003
  const TYPE_ASCII := 2
  const TYPE_LONG := 4
  const TIFF_HEADER_BYTES := 8
  const IFD_ENTRY_BYTES := 12

  type uint16 = x: int | 0 <= x < 0x1_0000
  type uint32 = x: int | 0 <= x < 0x1_0000_0000

  datatype Entry = Entry(tag: uint16, kind: uint16, count: uint32, value: uint32)

  /** The timestamps to write; an absent one and an empty one are both left out. */
  datatype Fields = Fields(dateTimeOriginal: Option<string>, dateTime: Option<string>)

  // ---- Layout ----

  function U16Bytes(v: uint16): (data: Bytes)
    ensures |data| == 2
  {
    [(v / 256) as byte, (v % 256) as byte]
  }

  function U32Bytes(v: uint32): (data: Bytes)
    ensures |data| == 4
  {
    U16Bytes(v / 0x1_0000) + U16Bytes(v % 0x1_0000)
  }

  function EntryBytes(e: Entry): (data: Bytes)
    ensures |data| == IFD_ENTRY_BYTES
  {
    U16Bytes(e.tag) + (U16Bytes(e.kind) + (U32Bytes(e.count) + U32Bytes(e.value)))
  }

  function EntriesBytes(entries: seq<Entry>): (data: Bytes)
    ensures |data| == |entries| * IFD_ENTRY_BYTES
  {
    if entries == [] then [] else EntriesBytes(entries[..|entries| - 1]) + EntryBytes(entries[|entries| - 1])
  }

  /** An image file directory: its entry count, its entries, and no next directory. */
  function Directory(entries: seq<Entry>): (data: Bytes)
    requires |entries| < 0x1_0000
    ensures |data| == IfdBytes(|entries|)
  {
    U16Bytes(|entries|) + EntriesBytes(entries) + U32Bytes(0)
  }

  function IfdBytes(entryCount: nat): nat {
    2 + entryCount * IFD_ENTRY_BYTES + 4
  }

  /** The bytes of a text with its NUL; each character keeps its low byte. */
  function AsciiValue(text: string): (data: Bytes)
    ensures |data| == |text| + 1
  {
    seq(|text|, i requires 0 <= i < |text| => (text[i] as int % 256) as byte) + [0]
  }

  function ValueBytes(text: Option<string>): Bytes {
    if text.None? || text.value == "" then [] else AsciiValue(text.value)
  }

  predicate Given(text: Option<string>) {
    text.Some? && text.value != ""
  }

  function DateTimeOffset(f: Fields): nat {
    TIFF_HEADER_BYTES + IfdBytes((if Given(f.dateTime) then 1 else 0) + (if Given(f.dateTimeOriginal) then 1 else 0))
  }

  function ExifIfdOffset(f: Fields): nat {
    DateTimeOffset(f) + |ValueBytes(f.dateTime)|
  }

  function OriginalOffset(f: Fields): nat {
    ExifIfdOffset(f) + IfdBytes(1)
  }

  function Total(f: Fields): nat {
    if Given(f.dateTimeOriginal) then OriginalOffset(f) + |ValueBytes(f.dateTimeOriginal)| else ExifIfdOffset(f)
  }

  /** Every offset and length fits the 32-bit field it is written to. */
  predicate Fits(f: Fields) {
    Total(f) < 0x1_0000_0000
  }

  /** Only texts of about four gigabytes do not fit: the header, two directories and both texts are all there is. */
  lemma FitsIff(f: Fields)
    ensures Fits(f) <==>
              var dateTime := if f.dateTime.Some? && f.dateTime.value != "" then 12 + |f.dateTime.value| + 1 else 0;
              var original := if f.dateTimeOriginal.Some? && f.dateTimeOriginal.value != ""
                              then 12 + (2 + 12 + 4) + |f.dateTimeOriginal.value| + 1 else 0;
              8 + 2 + 4 + dateTime + original < 0x1_0000_0000
  {
  }

  function Ifd0(f: Fields): (entries: seq<Entry>)
    requires Fits(f)
    ensures TIFF_HEADER_BYTES + IfdBytes(|entries|) == DateTimeOffset(f)
  {
    (if Given(f.dateTime) then [Entry(TAG_DATE_TIME, TYPE_ASCII, |ValueBytes(f.dateTime)|, DateTimeOffset(f))] else [])
    + (if Given(f.dateTimeOriginal) then [Entry(TAG_EXIF_IFD_POINTER, TYPE_LONG, 1, ExifIfdOffset(f))] else [])
  }

  function ExifIfd(f: Fields): seq<Entry>
    requires Fits(f) && Given(f.dateTimeOriginal)
  {
    [Entry(TAG_DATE_TIME_ORIGINAL, TYPE_ASCII, |ValueBytes(f.dateTimeOriginal)|, OriginalOffset(f))]
  }

  function Header(): (data: Bytes)
    ensures |data| == TIFF_HEADER_BYTES
  {
    [0x4D, 0x4D] + U16Bytes(42) + U32Bytes(TIFF_HEADER_BYTES)
  }

  /** The regions of the file, one after the other. */
  function Tiff(f: Fields): (data: Bytes)
    requires Fits(f)
    ensures |data| == Total(f)
  {
    Header() + Directory(Ifd0(f)) + ValueBytes(f.dateTime)
    + if Given(f.dateTimeOriginal) then Directory(ExifIfd(f)) + ValueBytes(f.dateTimeOriginal) else []
  }

  // ---- The writer ----

  /** s with part written at an offset. */
  function Overwrite(s: Bytes, at: nat, part: Bytes): (r: Bytes)
    requires at + |part| <= |s|
    ensures |r| == |s|
  {
    s[..at] + part + s[at + |part|..]
  }

  /** Writes that touch make one write. */
  lemma OverwriteAdjacent(s: Bytes, at: nat, part: Bytes, next: Bytes)
    requires at + |part| + |next| <= |s|
    ensures Overwrite(Overwrite(s, at, part), at + |part|, next) == Overwrite(s, at, part + next)
  {
  }

  lemma OverwriteWhole(s: Bytes, whole: Bytes)
    requires |whole| == |s|
    ensures Overwrite(s, 0, whole) == whole
  {
  }

  lemma OverwriteNone(s: Bytes, at: nat)
    requires at <= |s|
    ensures Overwrite(s, at, []) == s
  {
  }

  lemma OverwriteOne(s: Bytes, at: nat, b: byte)
    requires at < |s|
    ensures Overwrite(s, at, [b]) == s[at := b]
  {
  }

  method CopyInto(part: Bytes, buf: array<byte>, at: nat)
    requires at + |part| <= buf.Length
    modifies buf
    ensures buf[..] == Overwrite(old(buf[..]), at, part)
  {
    hide Overwrite;
    ghost var s := buf[..];
    OverwriteNone(s, at);
    for i := 0 to |part|
      invariant buf[..] == Overwrite(s, at, part[..i])
    {
      OverwriteOne(buf[..], at + i, part[i]);
      buf[at + i] := part[i];
      OverwriteAdjacent(s, at, part[..i], [part[i]]);
      assert part[..i + 1] == part[..i] + [part[i]];
    }
    assert part[..|part|] == part;
  }

  method WriteUInt16BE(buf: array<byte>, v: uint16, at: nat)
    requires at + 2 <= buf.Length
    modifies buf
    ensures buf[..] == Overwrite(old(buf[..]), at, U16Bytes(v))
  {
    buf[at], buf[at + 1] := (v / 256) as byte, (v % 256) as byte;
  }

  method WriteUInt32BE(buf: array<byte>, v: uint32, at: nat)
    requires at + 4 <= buf.Length
    modifies buf
    ensures buf[..] == Overwrite(old(buf[..]), at, U32Bytes(v))
  {
    WriteUInt16BE(buf, v / 0x1_0000, at);
    WriteUInt16BE(buf, v % 0x1_0000, at + 2);
  }

  method WriteEntry(buf: array<byte>, e: Entry, at: nat)
    requires at + IFD_ENTRY_BYTES <= buf.Length
    modifies buf
    ensures buf[..] == Overwrite(old(buf[..]), at, EntryBytes(e))
  {
    ghost var s := buf[..];
    WriteUInt16BE(buf, e.tag, at);
    WriteUInt16BE(buf, e.kind, at + 2);
    OverwriteAdjacent(s, at, U16Bytes(e.tag), U16Bytes(e.kind));
    WriteUInt32BE(buf, e.count, at + 4);
    OverwriteAdjacent(s, at, U16Bytes(e.tag) + U16Bytes(e.kind), U32Bytes(e.count));
    WriteUInt32BE(buf, e.value, at + 8);
    OverwriteAdjacent(s, at, U16Bytes(e.tag) + U16Bytes(e.kind) + U32Bytes(e.count), U32Bytes(e.value));
    assert U16Bytes(e.tag) + U16Bytes(e.kind) + U32Bytes(e.count) + U32Bytes(e.value) == EntryBytes(e);
  }

  lemma EntriesSnoc(entries: seq<Entry>, i: nat)
    requires i < |entries|
    ensures EntriesBytes(entries[..i + 1]) == EntriesBytes(entries[..i]) + EntryBytes(entries[i])
  {
    assert entries[..i + 1][..i] == entries[..i];
  }

  lemma OverwriteNothing(s: Bytes, at: nat, entries: seq<Entry>)
    requires at <= |s|
    ensures EntriesBytes(entries[..0]) == [] && Overwrite(s, at, []) == s
  {
  }

  method WriteEntries(buf: array<byte>, at: nat, entries: seq<Entry>)
    requires at + |entries| * IFD_ENTRY_BYTES <= buf.Length
    modifies buf
    ensures buf[..] == Overwrite(old(buf[..]), at, EntriesBytes(entries))
  {
    hide EntriesBytes, EntryBytes, Overwrite;
    ghost var s := buf[..];
    OverwriteNothing(s, at, entries);
    for i := 0 to |entries|
      invariant buf[..] == Overwrite(s, at, EntriesBytes(entries[..i]))
    {
      WriteEntry(buf, entries[i], at + i * IFD_ENTRY_BYTES);
      OverwriteAdjacent(s, at, EntriesBytes(entries[..i]), EntryBytes(entries[i]));
      EntriesSnoc(entries, i);
    }
    assert entries[..|entries|] == entries;
  }

  method WriteIfd(buf: array<byte>, offset: nat, entries: seq<Entry>)
    requires |entries| < 0x1_0000 && offset + IfdBytes(|entries|) <= buf.Length
    modifies buf
    ensures buf[..] == Overwrite(old(buf[..]), offset, Directory(entries))
  {
    hide EntriesBytes, Overwrite, U16Bytes, U32Bytes;
    ghost var s := buf[..];
    WriteUInt16BE(buf, |entries|, offset);
    WriteEntries(buf, offset + 2, entries);
    OverwriteAdjacent(s, offset, U16Bytes(|entries|), EntriesBytes(entries));
    WriteUInt32BE(buf, 0, offset + 2 + |entries| * IFD_ENTRY_BYTES);
    OverwriteAdjacent(s, offset, U16Bytes(|entries|) + EntriesBytes(entries), U32Bytes(0));
  }

  method WriteHeader(buf: array<byte>)
    requires TIFF_HEADER_BYTES <= buf.Length
    modifies buf
    ensures buf[..] == Overwrite(old(buf[..]), 0, Header())
  {
    ghost var s := buf[..];
    CopyInto([0x4D, 0x4D], buf, 0);
    WriteUInt16BE(buf, 42, 2);
    OverwriteAdjacent(s, 0, [0x4D, 0x4D], U16Bytes(42));
    WriteUInt32BE(buf, TIFF_HEADER_BYTES, 4);
    OverwriteAdjacent(s, 0, [0x4D, 0x4D] + U16Bytes(42), U32Bytes(TIFF_HEADER_BYTES));
  }

  /** Builds the file: every write stays in bounds, and in the end each byte of the buffer belongs to the header, a
      directory or a text. */
  method ExifTiff(f: Fields) returns (buf: array<byte>)
    requires Fits(f)
    ensures fresh(buf) && buf[..] == Tiff(f)
    ensures f.dateTime.Some? && |f.dateTime.value| >= 4 ==> IsText(ReadDateTime(buf[..]), f.dateTime.value)
    ensures f.dateTimeOriginal.Some? && |f.dateTimeOriginal.value| >= 4 ==>
              IsText(ReadDateTimeOriginal(buf[..]), f.dateTimeOriginal.value)
  {
    hide Directory, Header, Overwrite, Ifd0, AsciiValue, ReadDateTime, ReadDateTimeOriginal, IsText;
    LongTextsComeBack(f);
    var dateTimeData, originalData := ValueBytes(f.dateTime), ValueBytes(f.dateTimeOriginal);
    buf := new byte[Total(f)](_ => 0);
    ghost var s := buf[..];
    WriteHeader(buf);
    var ifd0 := Ifd0(f);
    WriteIfd(buf, TIFF_HEADER_BYTES, ifd0);
    OverwriteAdjacent(s, 0, Header(), Directory(ifd0));
    ghost var start := Header() + Directory(ifd0) + dateTimeData;
    if Given(f.dateTime) {
      CopyInto(dateTimeData, buf, DateTimeOffset(f));
      OverwriteAdjacent(s, 0, Header() + Directory(ifd0), dateTimeData);
    }
    assert start + [] == start && Header() + Directory(ifd0) + [] == Header() + Directory(ifd0);
    if Given(f.dateTimeOriginal) {
      WriteIfd(buf, ExifIfdOffset(f), ExifIfd(f));
      OverwriteAdjacent(s, 0, start, Directory(ExifIfd(f)));
      CopyInto(originalData, buf, OriginalOffset(f));
      OverwriteAdjacent(s, 0, start + Directory(ExifIfd(f)), originalData);
      assert start + Directory(ExifIfd(f)) + originalData == Tiff(f);
    }
    OverwriteWhole(s, Tiff(f));
  }

  // ---- A reader, after section 2 of TIFF 6.0 ----

  // The reader shares no constant and no layout with the writer.

  function ReadU16(data: Bytes, at: nat): Option<uint16> {
    if at + 2 <= |data| then Some(data[at] as int * 256 + data[at + 1] as int) else None
  }

  function ReadU32(data: Bytes, at: nat): Option<uint32> {
    match (ReadU16(data, at), ReadU16(data, at + 2))
    case (Some(high), Some(low)) =>
      var h: int := high;
      Some(h * 0x1_0000 + low)
    case _ => None
  }

  /** Position of the first entry with the tag among the n entries at `at`. */
  function FindEntry(data: Bytes, at: nat, n: nat, tag: uint16): Option<nat>
    decreases n
  {
    if n == 0 then None
    else if ReadU16(data, at) == Some(tag) then Some(at)
    else FindEntry(data, at + 12, n - 1, tag)
  }

  function FindTag(data: Bytes, ifd: nat, tag: uint16): Option<nat> {
    match ReadU16(data, ifd)
    case None => None
    case Some(n) => FindEntry(data, ifd + 2, n, tag)
  }

  /** The characters of the ASCII entry at `at`: in its value field if they fit, else at the offset it holds. */
  function AsciiAt(data: Bytes, at: nat): Option<Bytes> {
    match (ReadU16(data, at + 2), ReadU32(data, at + 4), ReadU32(data, at + 8))
    case (Some(kind), Some(count), Some(value)) =>
      if kind != 2 then None
      else if count <= 4 then (if at + 8 + count <= |data| then Some(data[at + 8..at + 8 + count]) else None)
      else if value + count <= |data| then Some(data[value..value + count])
      else None
    case _ => None
  }

  function ReadAscii(data: Bytes, ifd: nat, tag: uint16): Option<Bytes> {
    match FindTag(data, ifd, tag)
    case None => None
    case Some(at) => AsciiAt(data, at)
  }

  function FirstIfd(data: Bytes): Option<uint32> {
    if |data| >= 2 && data[..2] == [0x4D, 0x4D] && ReadU16(data, 2) == Some(42) then ReadU32(data, 4) else None
  }

  function ReadDateTime(data: Bytes): Option<Bytes> {
    match FirstIfd(data)
    case None => None
    case Some(ifd) => ReadAscii(data, ifd, 0x0132)
  }

  /** Where the Exif directory is, by the pointer in the first directory. */
  function ExifDirectory(data: Bytes, ifd: nat): Option<uint32> {
    match FindTag(data, ifd, 0x8769)
    case None => None
    case Some(at) =>
      if ReadU16(data, at + 2) == Some(4) && ReadU32(data, at + 4) == Some(1) then ReadU32(data, at + 8) else None
  }

  function ReadDateTimeOriginal(data: Bytes): Option<Bytes> {
    match FirstIfd(data)
    case None => None
    case Some(ifd) =>
      match ExifDirectory(data, ifd)
      case None => None
      case Some(exifIfd) => ReadAscii(data, exifIfd, 0x9003)
  }

  /** These bytes are the text, each character's low byte, and a NUL. */
  predicate HoldsText(data: Bytes, text: string) {
    && |data| == |text| + 1 && data[|text|] == 0
    && forall i | 0 <= i < |text| :: data[i] as int == text[i] as int % 0x100
  }

  predicate IsText(read: Option<Bytes>, text: string) {
    read.Some? && HoldsText(read.value, text)
  }

  // ---- The reader finds what the writer wrote ----

  /** `part` lies in data at an offset. */
  predicate Window(data: Bytes, at: nat, part: Bytes) {
    at + |part| <= |data| && data[at..at + |part|] == part
  }

  lemma WindowSplits(data: Bytes, at: nat, left: Bytes, right: Bytes)
    requires Window(data, at, left + right)
    ensures Window(data, at, left) && Window(data, at + |left|, right)
  {
    var whole := data[at..at + |left| + |right|];
    assert whole[..|left|] == left && whole[|left|..] == right;
  }

  lemma ReadsU16(data: Bytes, at: nat, v: uint16)
    requires Window(data, at, U16Bytes(v))
    ensures ReadU16(data, at) == Some(v)
  {
    assert data[at] == data[at..at + 2][0] && data[at + 1] == data[at..at + 2][1];
  }

  lemma ReadsU32(data: Bytes, at: nat, v: uint32)
    requires Window(data, at, U32Bytes(v))
    ensures ReadU32(data, at) == Some(v)
  {
    hide U16Bytes, ReadU16;
    WindowSplits(data, at, U16Bytes(v / 0x1_0000), U16Bytes(v % 0x1_0000));
    ReadsU16(data, at, v / 0x1_0000);
    ReadsU16(data, at + 2, v % 0x1_0000);
  }

  lemma ReadsEntry(data: Bytes, at: nat, e: Entry)
    requires Window(data, at, EntryBytes(e))
    ensures ReadU16(data, at) == Some(e.tag) && ReadU16(data, at + 2) == Some(e.kind)
    ensures ReadU32(data, at + 4) == Some(e.count) && ReadU32(data, at + 8) == Some(e.value)
    ensures Window(data, at + 8, U32Bytes(e.value))
  {
    hide ReadU16, ReadU32, U32Bytes, Window;
    WindowSplits(data, at, U16Bytes(e.tag), U16Bytes(e.kind) + (U32Bytes(e.count) + U32Bytes(e.value)));
    WindowSplits(data, at + 2, U16Bytes(e.kind), U32Bytes(e.count) + U32Bytes(e.value));
    WindowSplits(data, at + 4, U32Bytes(e.count), U32Bytes(e.value));
    ReadsU16(data, at, e.tag);
    ReadsU16(data, at + 2, e.kind);
    ReadsU32(data, at + 4, e.count);
    ReadsU32(data, at + 8, e.value);
  }

  lemma {:induction false} EntryWindow(data: Bytes, at: nat, entries: seq<Entry>, i: nat)
    requires i < |entries| && Window(data, at, EntriesBytes(entries))
    ensures Window(data, at + i * IFD_ENTRY_BYTES, EntryBytes(entries[i]))
  {
    hide EntryBytes, Window;
    var n := |entries| - 1;
    WindowSplits(data, at, EntriesBytes(entries[..n]), EntryBytes(entries[n]));
    if i < n { EntryWindow(data, at, entries[..n], i); }
  }

  /** Index of the first entry with the tag, from index i on. */
  function FirstWith(entries: seq<Entry>, i: nat, tag: uint16): (k: Option<nat>)
    requires i <= |entries|
    ensures k.Some? ==> k.value < |entries| && entries[k.value].tag == tag
    decreases |entries| - i
  {
    if i == |entries| then None else if entries[i].tag == tag then Some(i) else FirstWith(entries, i + 1, tag)
  }

  lemma {:induction false} FindsEntry(data: Bytes, at: nat, entries: seq<Entry>, i: nat, tag: uint16)
    requires i <= |entries| && Window(data, at, EntriesBytes(entries))
    ensures FindEntry(data, at + i * IFD_ENTRY_BYTES, |entries| - i, tag)
         == match FirstWith(entries, i, tag) case None => None case Some(k) => Some(at + k * IFD_ENTRY_BYTES)
    decreases |entries| - i
  {
    hide EntryBytes, EntriesBytes, Window, ReadU16, ReadU32;
    if i < |entries| {
      EntryWindow(data, at, entries, i);
      ReadsEntry(data, at + i * IFD_ENTRY_BYTES, entries[i]);
      FindsEntry(data, at, entries, i + 1, tag);
    }
  }

  lemma DirectoryParts(entries: seq<Entry>)
    requires |entries| < 0x1_0000
    ensures Directory(entries) == U16Bytes(|entries|) + (EntriesBytes(entries) + U32Bytes(0))
  {
    hide EntriesBytes, U16Bytes, U32Bytes;
  }

  lemma DirectoryWindows(data: Bytes, ifd: nat, entries: seq<Entry>)
    requires |entries| < 0x1_0000 && Window(data, ifd, Directory(entries))
    ensures ReadU16(data, ifd) == Some(|entries|) && Window(data, ifd + 2, EntriesBytes(entries))
  {
    hide Window, EntriesBytes, Directory, U16Bytes, U32Bytes, ReadU16;
    DirectoryParts(entries);
    WindowSplits(data, ifd, U16Bytes(|entries|), EntriesBytes(entries) + U32Bytes(0));
    WindowSplits(data, ifd + 2, EntriesBytes(entries), U32Bytes(0));
    ReadsU16(data, ifd, |entries|);
  }

  lemma FindsTag(data: Bytes, ifd: nat, entries: seq<Entry>, tag: uint16)
    requires |entries| < 0x1_0000 && Window(data, ifd, Directory(entries))
    ensures FindTag(data, ifd, tag) ==
              match FirstWith(entries, 0, tag)
              case None => None
              case Some(k) => Some(ifd + 2 + k * IFD_ENTRY_BYTES)
    ensures Window(data, ifd + 2, EntriesBytes(entries))
  {
    hide Window, EntriesBytes, FindEntry, Directory, ReadU16, FirstWith;
    DirectoryWindows(data, ifd, entries);
    FindsEntry(data, ifd + 2, entries, 0, tag);
  }

  /** What a reader gets for a text written at an offset: a value of up to four bytes belongs in the offset's
      own field, so there the reader takes the offset's bytes for the text. */
  function Recovered(value: Bytes, offset: uint32): Bytes {
    if |value| <= 4 then U32Bytes(offset)[..|value|] else value
  }

  lemma ReadsValue(data: Bytes, at: nat, e: Entry, value: Bytes)
    requires Window(data, at, EntryBytes(e)) && e.kind == TYPE_ASCII && e.count == |value|
    requires Window(data, e.value, value)
    ensures AsciiAt(data, at) == Some(Recovered(value, e.value))
  {
    hide EntryBytes, ReadU16, ReadU32, U32Bytes;
    ReadsEntry(data, at, e);
    if |value| <= 4 { WindowStarts(data, at + 8, U32Bytes(e.value), |value|); }
  }

  lemma ReadsAscii(data: Bytes, ifd: nat, entries: seq<Entry>, tag: uint16, value: Bytes)
    requires |entries| < 0x1_0000 && Window(data, ifd, Directory(entries))
    requires var k := FirstWith(entries, 0, tag);
             k.Some? ==>
               && entries[k.value].kind == TYPE_ASCII && entries[k.value].count == |value|
               && Window(data, entries[k.value].value, value)
    ensures ReadAscii(data, ifd, tag)
         == match FirstWith(entries, 0, tag) case None => None case Some(k) => Some(Recovered(value, entries[k].value))
  {
    hide EntriesBytes, Directory, EntryBytes, AsciiAt, FindTag, FirstWith, Recovered, Window;
    FindsTag(data, ifd, entries, tag);
    var k := FirstWith(entries, 0, tag);
    if k.Some? {
      EntryWindow(data, ifd + 2, entries, k.value);
      ReadsValue(data, ifd + 2 + k.value * IFD_ENTRY_BYTES, entries[k.value], value);
    }
  }

  lemma WindowStarts(data: Bytes, at: nat, part: Bytes, n: nat)
    requires Window(data, at, part) && n <= |part|
    ensures at + n <= |data| && data[at..at + n] == part[..n]
  {
    assert data[at..at + |part|][..n] == data[at..at + n];
  }

  /** Where the regions lie. */
  lemma Regions(f: Fields)
    requires Fits(f)
    ensures Window(Tiff(f), 0, Header()) && Window(Tiff(f), TIFF_HEADER_BYTES, Directory(Ifd0(f)))
    ensures Window(Tiff(f), DateTimeOffset(f), ValueBytes(f.dateTime))
    ensures Given(f.dateTimeOriginal) ==> Window(Tiff(f), ExifIfdOffset(f), Directory(ExifIfd(f)))
                                          && Window(Tiff(f), OriginalOffset(f), ValueBytes(f.dateTimeOriginal))
  {
    hide Directory, Header, ValueBytes, Ifd0, Window;
    var data, header, ifd0, value := Tiff(f), Header(), Directory(Ifd0(f)), ValueBytes(f.dateTime);
    var rest: Bytes := if Given(f.dateTimeOriginal) then Directory(ExifIfd(f)) + ValueBytes(f.dateTimeOriginal) else [];
    assert data == header + (ifd0 + (value + rest));
    WholeWindow(data);
    WindowSplits(data, 0, header, ifd0 + (value + rest));
    WindowSplits(data, TIFF_HEADER_BYTES, ifd0, value + rest);
    WindowSplits(data, DateTimeOffset(f), value, rest);
    if Given(f.dateTimeOriginal) {
      WindowSplits(data, ExifIfdOffset(f), Directory(ExifIfd(f)), ValueBytes(f.dateTimeOriginal));
    }
  }

  lemma WholeWindow(data: Bytes)
    ensures Window(data, 0, data)
  {
  }

  lemma ReadsHeader(data: Bytes)
    requires Window(data, 0, Header())
    ensures FirstIfd(data) == Some(TIFF_HEADER_BYTES)
  {
    var rest := U16Bytes(42) + U32Bytes(TIFF_HEADER_BYTES);
    assert Header() == [0x4D, 0x4D] + rest;
    WindowSplits(data, 0, [0x4D, 0x4D], rest);
    WindowSplits(data, 2, U16Bytes(42), U32Bytes(TIFF_HEADER_BYTES));
    ReadsU16(data, 2, 42);
    ReadsU32(data, 4, TIFF_HEADER_BYTES);
  }

  lemma ReadsDateTime(f: Fields)
    requires Fits(f)
    ensures ReadDateTime(Tiff(f))
         == if Given(f.dateTime) then Some(Recovered(ValueBytes(f.dateTime), DateTimeOffset(f))) else None
  {
    var data := Tiff(f);
    Regions(f);
    ReadsHeader(data);
    hide Tiff, Directory, Recovered, Window, ValueBytes, ReadAscii, Header, FirstIfd;
    ReadsAscii(data, TIFF_HEADER_BYTES, Ifd0(f), TAG_DATE_TIME, ValueBytes(f.dateTime));
  }

  lemma ReadsPointer(f: Fields, data: Bytes)
    requires Fits(f) && Window(data, TIFF_HEADER_BYTES, Directory(Ifd0(f)))
    ensures ExifDirectory(data, TIFF_HEADER_BYTES)
         == if Given(f.dateTimeOriginal) then Some(ExifIfdOffset(f)) else None
  {
    hide Directory, Window, ReadU16, ReadU32, FindTag, EntriesBytes, EntryBytes, ValueBytes;
    FindsTag(data, TIFF_HEADER_BYTES, Ifd0(f), TAG_EXIF_IFD_POINTER);
    if Given(f.dateTimeOriginal) {
      var k := |Ifd0(f)| - 1;
      EntryWindow(data, TIFF_HEADER_BYTES + 2, Ifd0(f), k);
      ReadsEntry(data, TIFF_HEADER_BYTES + 2 + k * IFD_ENTRY_BYTES, Ifd0(f)[k]);
    }
  }

  lemma ReadsExifIfd(f: Fields, data: Bytes)
    requires Fits(f) && Given(f.dateTimeOriginal) && Window(data, ExifIfdOffset(f), Directory(ExifIfd(f)))
    requires Window(data, OriginalOffset(f), ValueBytes(f.dateTimeOriginal))
    ensures ReadAscii(data, ExifIfdOffset(f), 0x9003)
         == Some(Recovered(ValueBytes(f.dateTimeOriginal), OriginalOffset(f)))
  {
    hide Directory, Recovered, Window, ValueBytes, ReadAscii;
    ReadsAscii(data, ExifIfdOffset(f), ExifIfd(f), TAG_DATE_TIME_ORIGINAL, ValueBytes(f.dateTimeOriginal));
  }

  lemma ReadsOriginal(f: Fields)
    requires Fits(f)
    ensures ReadDateTimeOriginal(Tiff(f))
         == if Given(f.dateTimeOriginal) then Some(Recovered(ValueBytes(f.dateTimeOriginal), OriginalOffset(f)))
            else None
  {
    var data := Tiff(f);
    Regions(f);
    ReadsHeader(data);
    hide Tiff, Directory, Recovered, Window, ValueBytes, ReadAscii, ExifDirectory, Header, FirstIfd, Ifd0;
    ReadsPointer(f, data);
    if Given(f.dateTimeOriginal) { ReadsExifIfd(f, data); }
  }

  lemma AsciiValueHoldsText(text: string)
    ensures HoldsText(AsciiValue(text), text)
    ensures forall data: Bytes :: HoldsText(data, text) ==> data == AsciiValue(text)
  {
    forall data: Bytes | HoldsText(data, text)
      ensures data == AsciiValue(text)
    {
      assert forall i | 0 <= i < |text| :: data[i] as int == AsciiValue(text)[i] as int;
      assert forall i | 0 <= i < |data| :: data[i] == AsciiValue(text)[i];
    }
  }

  /** The text has four characters or more, or spells the leading bytes of its own offset. */
  predicate ComesBack(text: string, offset: uint32) {
    |text| >= 4 || HoldsText(U32Bytes(offset)[..|text| + 1], text)
  }

  lemma RecoveredIff(text: string, offset: uint32)
    ensures HoldsText(Recovered(AsciiValue(text), offset), text) <==> ComesBack(text, offset)
  {
    AsciiValueHoldsText(text);
    hide HoldsText, U32Bytes;
  }

  /** A text comes back with its NUL exactly when it has four characters or more, or happens to spell the
      leading bytes of its own offset; a text that was not given is not found. */
  lemma TextRecoveredIff(f: Fields)
    requires Fits(f)
    ensures f.dateTime.None? || f.dateTime.value == "" ==> ReadDateTime(Tiff(f)) == None
    ensures f.dateTime.Some? && f.dateTime.value != "" ==>
              (IsText(ReadDateTime(Tiff(f)), f.dateTime.value) <==> ComesBack(f.dateTime.value, DateTimeOffset(f)))
    ensures f.dateTimeOriginal.None? || f.dateTimeOriginal.value == "" ==> ReadDateTimeOriginal(Tiff(f)) == None
    ensures f.dateTimeOriginal.Some? && f.dateTimeOriginal.value != "" ==>
              (IsText(ReadDateTimeOriginal(Tiff(f)), f.dateTimeOriginal.value) <==>
               ComesBack(f.dateTimeOriginal.value, OriginalOffset(f)))
  {
    hide Tiff, AsciiValue, ReadDateTime, ReadDateTimeOriginal, U32Bytes, Recovered, HoldsText, ComesBack;
    ReadsDateTime(f);
    ReadsOriginal(f);
    if Given(f.dateTime) { RecoveredIff(f.dateTime.value, DateTimeOffset(f)); }
    if Given(f.dateTimeOriginal) { RecoveredIff(f.dateTimeOriginal.value, OriginalOffset(f)); }
  }

  lemma LongTextsComeBack(f: Fields)
    requires Fits(f)
    ensures f.dateTime.Some? && |f.dateTime.value| >= 4 ==> IsText(ReadDateTime(Tiff(f)), f.dateTime.value)
    ensures f.dateTimeOriginal.Some? && |f.dateTimeOriginal.value| >= 4 ==>
              IsText(ReadDateTimeOriginal(Tiff(f)), f.dateTimeOriginal.value)
  {
    hide Tiff, ReadDateTime, ReadDateTimeOriginal, IsText;
    TextRecoveredIff(f);
  }

  /** A short text is misread. */
  lemma ShortTextIsMisread()
    ensures var f := Fields(None, Some("no")); Fits(f) && !IsText(ReadDateTime(Tiff(f)), "no")
  {
    var f := Fields(None, Some("no"));
    assert U32Bytes(DateTimeOffset(f))[..|"no"| + 1][0] == 0 && "no"[0] as int % 0x100 == 110;
    hide Tiff, AsciiValue, ReadDateTime, U32Bytes;
    TextRecoveredIff(f);
  }

  // ---- The JPEG segment ----

  const EXIF_HEADER: Bytes := [0x45, 0x78, 0x69, 0x66, 0, 0]  // "Exif" and two NULs

  function App1Length(f: Fields): nat {
    2 + |EXIF_HEADER| + Total(f)
  }

  /** The APP1 segment; each length byte keeps its low eight bits. */
  function App1(f: Fields): Bytes
    requires Fits(f)
  {
    [0xFF, 0xE1, (App1Length(f) / 256 % 256) as byte, (App1Length(f) % 256) as byte] + EXIF_HEADER + Tiff(f)
  }

  method ExifApp1(f: Fields) returns (segment: Bytes)
    requires Fits(f)
    ensures segment == App1(f)
  {
    var tiff := ExifTiff(f);
    var length := 2 + |EXIF_HEADER| + tiff.Length;
    segment := [0xFF, 0xE1, (length / 256 % 256) as byte, (length % 256) as byte] + EXIF_HEADER + tiff[..];
  }

  function Min(a: nat, b: nat): nat {
    if a < b then a else b
  }

  /** Inserts the segment after the first two bytes, the SOI marker. */
  method SpliceExif(jpeg: Bytes, f: Fields) returns (spliced: Bytes)
    requires Fits(f)
    ensures spliced == jpeg[..Min(2, |jpeg|)] + App1(f) + jpeg[Min(2, |jpeg|)..]
  {
    var segment := ExifApp1(f);
    spliced := jpeg[..Min(2, |jpeg|)] + segment + jpeg[Min(2, |jpeg|)..];
  }

  /** The length a JPEG reader takes from the marker at position 2: it counts itself, not the marker. */
  function SegmentLength(data: Bytes): nat
    requires |data| >= 6
  {
    data[4] as nat * 256 + data[5] as nat
  }

  /** The JPEG without the segment at position 2. */
  function WithoutSegment(data: Bytes): Bytes
    requires |data| >= 6
  {
    data[..2] + data[Min(4 + SegmentLength(data), |data|)..]
  }

  lemma SpliceLayout(jpeg: Bytes, f: Fields)
    requires Fits(f) && |jpeg| >= 2
    ensures var data, length := jpeg[..2] + App1(f) + jpeg[2..], App1Length(f);
            && |data| == |jpeg| + 2 + length
            && data[..2] == jpeg[..2] && data[2..4] == [0xFF, 0xE1] && SegmentLength(data) == length % 0x1_0000
            && data[6..12] == EXIF_HEADER && data[12..4 + length] == Tiff(f) && data[4 + length..] == jpeg[2..]
  {
    hide Tiff, Total;
    var length, tiff := App1Length(f), Tiff(f);
    var marker: Bytes := [0xFF, 0xE1, (length / 256 % 256) as byte, (length % 256) as byte];
    assert jpeg[..2] + App1(f) + jpeg[2..] == jpeg[..2] + marker + EXIF_HEADER + tiff + jpeg[2..];
    Slices(jpeg[..2], marker, EXIF_HEADER, tiff, jpeg[2..]);
  }

  lemma Slices(soi: Bytes, marker: Bytes, header: Bytes, tiff: Bytes, rest: Bytes)
    requires |soi| == 2 && |marker| == 4 && |header| == 6
    ensures var data := soi + marker + header + tiff + rest;
            && data[..2] == soi && data[2..4] == marker[..2] && data[4] == marker[2] && data[5] == marker[3]
            && data[6..12] == header && data[12..12 + |tiff|] == tiff && data[12 + |tiff|..] == rest
  {
  }

  /** Removing the spliced segment gives back the JPEG exactly when the segment's length fits 16 bits. */
  lemma SpliceRemovedIff(jpeg: Bytes, f: Fields)
    requires Fits(f) && |jpeg| >= 2
    ensures WithoutSegment(jpeg[..2] + App1(f) + jpeg[2..]) == jpeg <==> App1Length(f) < 0x1_0000
  {
    hide App1, Tiff, Total;
    var data, length := jpeg[..2] + App1(f) + jpeg[2..], App1Length(f);
    SpliceLayout(jpeg, f);
    if length < 0x1_0000 {
      assert jpeg == jpeg[..2] + jpeg[2..];
    } else {
      assert |WithoutSegment(data)| > |jpeg|;
    }
  }

  /** The TIFF file in the segment at position 2, after its EXIF header. */
  function SegmentTiff(data: Bytes): Option<Bytes>
    requires |data| >= 6
  {
    var end := 4 + SegmentLength(data);
    if data[2..4] == [0xFF, 0xE1] && 12 <= end <= |data| && data[6..12] == [0x45, 0x78, 0x69, 0x66, 0, 0] then
      Some(data[12..end])
    else None
  }

  /** Reading the spliced JPEG finds the file that was written. */
  lemma SplicedTiffIsFound(jpeg: Bytes, f: Fields)
    requires Fits(f) && |jpeg| >= 2 && App1Length(f) < 0x1_0000
    ensures SegmentTiff(jpeg[..2] + App1(f) + jpeg[2..]) == Some(Tiff(f))
  {
    hide App1, Tiff, Total, SegmentLength;
    SpliceLayout(jpeg, f);
  }
}
