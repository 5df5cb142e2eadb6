/**
 The reader of the EXIF Orientation field of a JPEG. It walks the marker segments (annex B of ITU-T T.81)
 in the first 256 KiB of the file up to the first Exif APP1, then the entries of that segment's image file
 directory (section 2 of TIFF 6.0).
 */
module Exif {
  import opened Seqs
  import opened Bytes
  import opened Wrappers

  const WINDOW := 256 * 1024
  const ORIENTATION_TAG := 0x0112
  const EXIF_ID: seq<byte> := [0x45, 0x78, 0x69, 0x66, 0, 0]

  // ---- what the reader computes ------------------------------------------------------------------------

  /** The value of the first Orientation entry from entry `k` on,
      of `count` entries at `ifd`; 1 when none is readable. */
  function EntryValue(t: seq<byte>, bo: ByteOrder, ifd: nat, count: nat, k: nat): (v: int)
    requires k <= count
    ensures 1 <= v <= 8
    decreases count - k
  {
    var e := ifd + 2 + k * 12;
    if k == count || e + 12 > |t| then 1
    else if U16(bo, t, e) == ORIENTATION_TAG then
      var v := U16(bo, t, e + 8);
      if 1 <= v <= 8 then v else 1
    else EntryValue(t, bo, ifd, count, k + 1)
  }

  function OrderOf(t: seq<byte>): Option<ByteOrder>
    requires |t| >= 2
  {
    if t[0] == 0x49 && t[1] == 0x49 then Some(LittleEndian)
    else if t[0] == 0x4d && t[1] == 0x4d then Some(BigEndian)
    else None
  }

  function TiffValue(t: seq<byte>): (v: int)
    ensures 1 <= v <= 8
  {
    if |t| < 8 || OrderOf(t).None? then 1
    else
      var bo := OrderOf(t).value;
      var ifd := U32(bo, t, 4);
      if ifd + 2 > |t| then 1 else EntryValue(t, bo, ifd, U16(bo, t, ifd), 0)
  }

  predicate IsExif(marker: byte, payload: seq<byte>) {
    marker == 0xe1 && |payload| > 14 && payload[..6] == EXIF_ID
  }

  /** The TIFF block of the first Exif segment that walking the segments from offset `i` finds. */
  function ExifBlock(b: seq<byte>, i: nat): (t: Option<seq<byte>>)
    ensures t.Some? ==> |t.value| > 8
    decreases |b| - i
  {
    if i + 4 > |b| || b[i] != 0xff || b[i + 1] == 0xda || b[i + 1] == 0xd9 then None
    else
      var segLen := U16(BigEndian, b, i + 2);
      if segLen < 2 || i + 2 + segLen > |b| then None
      else
        var seg := b[i + 4..i + 2 + segLen];
        if IsExif(b[i + 1], seg) then Some(seg[6..]) else ExifBlock(b, i + 2 + segLen)
  }

  /** What a file states, read through a window of 256 KiB. */
  function Orientation(file: seq<byte>): (v: int)
    ensures 1 <= v <= 8
  {
    var b := if |file| > WINDOW then file[..WINDOW] else file;
    if |b| < 4 || b[0] != 0xff || b[1] != 0xd8 then 1
    else
      match ExifBlock(b, 2)
      case Some(t) => TiffValue(t)
      case None => 1
  }

  method TiffOrientation(t: seq<byte>) returns (v: int)
    ensures v == TiffValue(t)
  {
    if |t| < 8 {
      return 1;
    }
    var bo;
    if t[0] == 0x49 && t[1] == 0x49 {
      bo := LittleEndian;
    } else if t[0] == 0x4d && t[1] == 0x4d {
      bo := BigEndian;
    } else {
      return 1;
    }
    var ifd := U32(bo, t, 4);
    if ifd + 2 > |t| {
      return 1;
    }
    var count := U16(bo, t, ifd);
    for k := 0 to count
      invariant EntryValue(t, bo, ifd, count, 0) == EntryValue(t, bo, ifd, count, k)
    {
      var e := ifd + 2 + k * 12;
      if e + 12 > |t| {
        return 1;
      }
      if U16(bo, t, e) == ORIENTATION_TAG {
        v := U16(bo, t, e + 8);
        if v >= 1 && v <= 8 {
          return v;
        }
        return 1;
      }
    }
    return 1;
  }

  method JpegOrientation(file: seq<byte>) returns (v: int)
    ensures v == Orientation(file)
  {
    var b := if |file| > WINDOW then file[..WINDOW] else file;
    if |b| < 4 || b[0] != 0xff || b[1] != 0xd8 {
      return 1;
    }
    var tiff := WalkSegments(b);
    if tiff.None? {
      return 1;
    }
    v := TiffOrientation(tiff.value);
  }

  method WalkSegments(b: seq<byte>) returns (tiff: Option<seq<byte>>)
    ensures tiff == ExifBlock(b, 2)
  {
    var i := 2;
    while i + 4 <= |b|
      invariant 2 <= i
      invariant ExifBlock(b, 2) == ExifBlock(b, i)
      decreases |b| - i
    {
      if b[i] != 0xff || b[i + 1] == 0xda || b[i + 1] == 0xd9 {
        return None;
      }
      var segLen := U16(BigEndian, b, i + 2);
      if segLen < 2 || i + 2 + segLen > |b| {
        return None;
      }
      var seg := b[i + 4..i + 2 + segLen];
      if IsExif(b[i + 1], seg) {
        return Some(seg[6..]);
      }
      i := i + 2 + segLen;
    }
    return None;
  }

  // ---- files that carry an orientation -----------------------------------------------------------------

  /** A directory entry: its tag, type and count bytes, then a two-byte value and two bytes of padding. */
  datatype Entry = Entry(tag: nat, kind: seq<byte>, value: nat, pad: seq<byte>) {
    ghost predicate Valid() {
      tag < 0x1_0000 && |kind| == 6 && value < 0x1_0000 && |pad| == 2
    }
  }

  function EncodeEntry(bo: ByteOrder, e: Entry): (b: seq<byte>)
    requires e.Valid()
    ensures |b| == 12
  {
    Put16(bo, e.tag) + e.kind + Put16(bo, e.value) + e.pad
  }

  function EncodeEntries(bo: ByteOrder, es: seq<Entry>): (b: seq<byte>)
    requires forall e :: e in es ==> e.Valid()
    ensures |b| == 12 * |es|
  {
    if es == [] then [] else EncodeEntry(bo, es[0]) + EncodeEntries(bo, es[1..])
  }

  /** What stands before the entries: the byte order, the directory's offset, and the number of entries. */
  function TiffHeader(bo: ByteOrder, magic: seq<byte>, gap: seq<byte>, count: nat): (b: seq<byte>)
    requires |magic| == 2 && count < 0x1_0000 && 8 + |gap| < 0x1_0000_0000
    ensures |b| == 8 + |gap| + 2
  {
    Mark(bo) + magic + Put32(bo, 8 + |gap|) + gap + Put16(bo, count)
  }

  /** A TIFF block whose directory stands after `gap` and is followed by `tail`. */
  function EncodeTiff(bo: ByteOrder, magic: seq<byte>, gap: seq<byte>, es: seq<Entry>, tail: seq<byte>): seq<byte>
    requires |magic| == 2 && |es| < 0x1_0000 && 8 + |gap| < 0x1_0000_0000
    requires forall e :: e in es ==> e.Valid()
  {
    TiffHeader(bo, magic, gap, |es|) + EncodeEntries(bo, es) + tail
  }

  /** What the first Orientation entry says, if it says one of the eight orientations. */
  function Stated(es: seq<Entry>): int {
    if es == [] then 1
    else if es[0].tag == ORIENTATION_TAG then (if 1 <= es[0].value <= 8 then es[0].value else 1)
    else Stated(es[1..])
  }

  /** The first entry with the tag 0x0112 decides, and 1 stands for a value that is none of the eight. */
  lemma {:induction false} StatedIsFirst(es: seq<Entry>, k: nat)
    requires k <= |es| && forall j :: 0 <= j < k ==> es[j].tag != 0x0112
    ensures k == |es| ==> Stated(es) == 1
    ensures k < |es| && es[k].tag == 0x0112 ==> Stated(es) == if 1 <= es[k].value <= 8 then es[k].value else 1
  {
    if k > 0 {
      StatedIsFirst(es[1..], k - 1);
    }
  }

  lemma {:induction false} EntryRead(bo: ByteOrder, before: seq<byte>, e: Entry, after: seq<byte>)
    requires e.Valid()
    ensures var t := before + EncodeEntry(bo, e) + after;
            U16(bo, t, |before|) == e.tag && U16(bo, t, |before| + 8) == e.value
  {
    var b := EncodeEntry(bo, e);
    U16Within(bo, before, b, after, 0);
    U16Within(bo, before, b, after, 8);
    assert b == [] + Put16(bo, e.tag) + (e.kind + Put16(bo, e.value) + e.pad);
    U16Within(bo, [], Put16(bo, e.tag), e.kind + Put16(bo, e.value) + e.pad, 0);
    assert b == (Put16(bo, e.tag) + e.kind) + Put16(bo, e.value) + e.pad;
    U16Within(bo, Put16(bo, e.tag) + e.kind, Put16(bo, e.value), e.pad, 0);
  }

  lemma {:induction false} EntryDecides(t: seq<byte>, bo: ByteOrder, ifd: nat, count: nat, k: nat, e: Entry)
    requires k < count && ifd + 2 + k * 12 + 12 <= |t|
    requires U16(bo, t, ifd + 2 + k * 12) == e.tag && U16(bo, t, ifd + 2 + k * 12 + 8) == e.value
    ensures EntryValue(t, bo, ifd, count, k) ==
            if e.tag != ORIENTATION_TAG then EntryValue(t, bo, ifd, count, k + 1)
            else if 1 <= e.value <= 8 then e.value else 1
  {
  }

  /** The first Orientation entry decides, if the block holds all of it, and nothing is read behind one that is cut. */
  lemma {:induction false} FirstEntryDecides(t: seq<byte>, bo: ByteOrder, ifd: nat, count: nat, k: nat, j: nat)
    requires k <= j <= count
    requires forall i :: k <= i < j ==> ifd + 14 + i * 12 <= |t| && U16(bo, t, ifd + 2 + i * 12) != 0x0112
    ensures j == count || ifd + 14 + j * 12 > |t| ==> EntryValue(t, bo, ifd, count, k) == 1
    ensures j < count && ifd + 14 + j * 12 <= |t| && U16(bo, t, ifd + 2 + j * 12) == 0x0112 ==>
              var v := U16(bo, t, ifd + 10 + j * 12);
              EntryValue(t, bo, ifd, count, k) == if 1 <= v <= 8 then v else 1
    decreases j - k
  {
    if k < j {
      assert U16(bo, t, ifd + 2 + k * 12) != 0x0112;
      FirstEntryDecides(t, bo, ifd, count, k + 1, j);
    }
  }

  /** The directory stands where the block says; a block that has none, or no byte order, is upright. */
  lemma {:induction false} DirectoryIs(t: seq<byte>)
    ensures |t| < 8 || (t[..2] != [0x49, 0x49] && t[..2] != [0x4d, 0x4d]) ==> TiffValue(t) == 1
    ensures |t| >= 8 && (t[..2] == [0x49, 0x49] || t[..2] == [0x4d, 0x4d]) ==>
              var bo := if t[0] == 0x49 then LittleEndian else BigEndian;
              var ifd := U32(bo, t, 4);
              TiffValue(t) == if ifd + 2 > |t| then 1 else EntryValue(t, bo, ifd, U16(bo, t, ifd), 0)
  {
    if |t| >= 8 {
      assert t[..2] == [t[0], t[1]];
    }
  }

  lemma {:induction false} Reassociated(a: seq<byte>, b: seq<byte>, c: seq<byte>, d: seq<byte>)
    ensures a + (b + c) + d == a + b + (c + d) == (a + b) + c + d
  {
  }

  /** Reading entries one by one finds what the rest of the directory states. */
  lemma {:induction false} EntriesRead(t: seq<byte>, bo: ByteOrder, before: seq<byte>, es: seq<Entry>, tail: seq<byte>,
                                       ifd: nat, count: nat, k: nat)
    requires forall e :: e in es ==> e.Valid()
    requires k + |es| == count
    requires |before| == ifd + 2 + k * 12
    requires t == before + EncodeEntries(bo, es) + tail
    ensures EntryValue(t, bo, ifd, count, k) == Stated(es)
    decreases |es|
  {
    if es != [] {
      var head, rest := EncodeEntry(bo, es[0]), EncodeEntries(bo, es[1..]);
      Reassociated(before, head, rest, tail);
      EntryRead(bo, before, es[0], rest + tail);
      EntryDecides(t, bo, ifd, count, k, es[0]);
      EntriesRead(t, bo, before + head, es[1..], tail, ifd, count, k + 1);
    }
  }

  function Mark(bo: ByteOrder): (b: seq<byte>)
    ensures |b| == 2 && OrderOf(b) == Some(bo)
  {
    match bo
    case LittleEndian => [0x49, 0x49]
    case BigEndian => [0x4d, 0x4d]
  }

  /** A block with these parts is read part by part. */
  lemma {:induction false} HeaderRead(bo: ByteOrder, magic: seq<byte>, gap: seq<byte>, count: nat, rest: seq<byte>)
    requires |magic| == 2 && count < 0x1_0000 && 8 + |gap| < 0x1_0000_0000
    ensures var t := TiffHeader(bo, magic, gap, count) + rest;
            && OrderOf(t) == Some(bo)
            && U32(bo, t, 4) == 8 + |gap|
            && U16(bo, t, 8 + |gap|) == count
  {
    var offset, number := Put32(bo, 8 + |gap|), Put16(bo, count);
    var t := TiffHeader(bo, magic, gap, count) + rest;
    assert t == (Mark(bo) + magic) + offset + (gap + number + rest);
    U32Within(bo, Mark(bo) + magic, offset, gap + number + rest, 0);
    assert t == (Mark(bo) + magic + offset + gap) + number + rest;
    U16Within(bo, Mark(bo) + magic + offset + gap, number, rest, 0);
    assert t[0] == Mark(bo)[0] && t[1] == Mark(bo)[1];
  }

  /** The reader undoes the encoding, in either byte order. */
  lemma {:induction false} TiffRoundTrip(bo: ByteOrder, magic: seq<byte>, gap: seq<byte>, es: seq<Entry>,
                                         tail: seq<byte>)
    requires |magic| == 2 && |es| < 0x1_0000 && 8 + |gap| < 0x1_0000_0000
    requires forall e :: e in es ==> e.Valid()
    ensures TiffValue(EncodeTiff(bo, magic, gap, es, tail)) == Stated(es)
  {
    HeadedValue(bo, magic, gap, |es|, EncodeEntries(bo, es) + tail);
    Regroup(TiffHeader(bo, magic, gap, |es|), EncodeEntries(bo, es), tail);
    var t := EncodeTiff(bo, magic, gap, es, tail);
    EntriesRead(t, bo, TiffHeader(bo, magic, gap, |es|), es, tail, 8 + |gap|, |es|, 0);
  }

  lemma {:induction false} HeadedValue(bo: ByteOrder, magic: seq<byte>, gap: seq<byte>, count: nat, rest: seq<byte>)
    requires |magic| == 2 && count < 0x1_0000 && 8 + |gap| < 0x1_0000_0000
    ensures var t := TiffHeader(bo, magic, gap, count) + rest;
            TiffValue(t) == EntryValue(t, bo, 8 + |gap|, count, 0)
  {
    HeaderRead(bo, magic, gap, count, rest);
  }

  /** A directory with one entry, Orientation 6, in Intel byte order. */
  lemma {:induction false} IntelBlockReads(t: seq<byte>)
    requires t == [0x49, 0x49, 0x2a, 0, 8, 0, 0, 0, 1, 0, 0x12, 1, 3, 0, 1, 0, 0, 0, 6, 0, 0, 0]
    ensures TiffValue(t) == 6
  {
    var ifd := U32(LittleEndian, t, 4);
    assert ifd == 8 && U16(LittleEndian, t, ifd) == 1;
    assert U16(LittleEndian, t, 10) == ORIENTATION_TAG && U16(LittleEndian, t, 18) == 6;
  }

  /** The same in Motorola byte order. */
  lemma {:induction false} MotorolaBlockReads(t: seq<byte>)
    requires t == [0x4d, 0x4d, 0, 0x2a, 0, 0, 0, 8, 0, 1, 1, 0x12, 0, 3, 0, 0, 0, 1, 0, 6, 0, 0]
    ensures TiffValue(t) == 6
  {
    var ifd := U32(BigEndian, t, 4);
    assert ifd == 8 && U16(BigEndian, t, ifd) == 1;
    assert U16(BigEndian, t, 10) == ORIENTATION_TAG && U16(BigEndian, t, 18) == 6;
  }

  /** A file whose first segment holds the Intel block. */
  lemma {:induction false} IntelFileReads(t: seq<byte>, file: seq<byte>, rest: seq<byte>)
    requires t == [0x49, 0x49, 0x2a, 0, 8, 0, 0, 0, 1, 0, 0x12, 1, 3, 0, 1, 0, 0, 0, 6, 0, 0, 0]
    requires file == [0xff, 0xd8, 0xff, 0xe1, 0, 30, 0x45, 0x78, 0x69, 0x66, 0, 0] + t + rest
    ensures Orientation(file) == 6
  {
    IntelBlockReads(t);
    var head: seq<byte> := [0xff, 0xd8, 0xff, 0xe1, 0, 30, 0x45, 0x78, 0x69, 0x66, 0, 0];
    var b := if |file| > WINDOW then file[..WINDOW] else file;
    WindowStarts(head, t, rest, b);
    FirstSegment(b, t);
    assert b[0] == b[..12][0] && b[1] == b[..12][1];
  }

  lemma {:induction false} WindowStarts(head: seq<byte>, t: seq<byte>, rest: seq<byte>, b: seq<byte>)
    requires |head| == 12 && |t| == 22
    requires b == if |head + t + rest| > WINDOW then (head + t + rest)[..WINDOW] else head + t + rest
    ensures |b| >= 34 && b[..12] == head && b[12..34] == t
  {
  }

  lemma {:induction false} FirstSegment(b: seq<byte>, t: seq<byte>)
    requires |t| == 22 && |b| >= 34 && b[..12] == [0xff, 0xd8, 0xff, 0xe1, 0, 30, 0x45, 0x78, 0x69, 0x66, 0, 0]
    requires b[12..34] == t
    ensures ExifBlock(b, 2) == Some(t)
  {
    assert forall j :: 0 <= j < 12 ==> b[j] == b[..12][j];
    assert U16(BigEndian, b, 4) == 30;
    var seg := b[6..34];
    assert seg == b[6..12] + b[12..34];
    assert b[6..12] == b[..12][6..] == EXIF_ID;
    assert seg[..6] == EXIF_ID && seg[6..] == t;
  }

  datatype Segment = Segment(marker: byte, payload: seq<byte>) {
    /** A segment that carries a length and does not end the header. */
    ghost predicate Valid() {
      marker != 0xda && marker != 0xd9 && |payload| + 2 < 0x1_0000
    }
  }

  function EncodeSegment(s: Segment): (b: seq<byte>)
    requires s.Valid()
    ensures |b| == 4 + |s.payload|
  {
    [0xff, s.marker] + Put16(BigEndian, |s.payload| + 2) + s.payload
  }

  function EncodeSegments(ss: seq<Segment>): seq<byte>
    requires forall s :: s in ss ==> s.Valid()
  {
    if ss == [] then [] else EncodeSegment(ss[0]) + EncodeSegments(ss[1..])
  }

  /** Offset `i` of a file is the start of these bytes. */
  ghost predicate StandAt(file: seq<byte>, i: nat, bytes: seq<byte>) {
    i + |bytes| <= |file| && forall j :: 0 <= j < |bytes| ==> file[i + j] == bytes[j]
  }

  lemma {:induction false} StandSplits(file: seq<byte>, i: nat, x: seq<byte>, y: seq<byte>)
    requires StandAt(file, i, x + y)
    ensures StandAt(file, i, x) && StandAt(file, i + |x|, y)
  {
    forall j | 0 <= j < |x|
      ensures file[i + j] == x[j]
    {
      assert (x + y)[j] == x[j];
    }
    forall j | 0 <= j < |y|
      ensures file[i + |x| + j] == y[j]
    {
      assert (x + y)[|x| + j] == y[j];
    }
  }

  lemma {:induction false} SegmentBytes(s: Segment)
    requires s.Valid()
    ensures var e := EncodeSegment(s);
            && |e| == |s.payload| + 4
            && e[0] == 0xff && e[1] == s.marker
            && U16(BigEndian, e, 2) == |s.payload| + 2
            && forall k :: 0 <= k < |s.payload| ==> e[4 + k] == s.payload[k]
  {
    var e := EncodeSegment(s);
    var len := Put16(BigEndian, |s.payload| + 2);
    assert e[2] == len[0] && e[3] == len[1];
  }

  lemma {:induction false} PayloadAt(b: seq<byte>, i: nat, s: Segment)
    requires s.Valid() && StandAt(b, i, EncodeSegment(s))
    ensures i + 4 + |s.payload| <= |b| && b[i + 4..i + 4 + |s.payload|] == s.payload
  {
    SegmentBytes(s);
    forall k | 0 <= k < |s.payload|
      ensures b[i + 4 + k] == s.payload[k]
    {
      assert b[i + (4 + k)] == EncodeSegment(s)[4 + k];
    }
  }

  /** One segment at offset `i`, wholly inside the window, is read as written. */
  lemma {:induction false} SegmentRead(b: seq<byte>, i: nat, s: Segment)
    requires s.Valid() && StandAt(b, i, EncodeSegment(s))
    ensures ExifBlock(b, i) == if IsExif(s.marker, s.payload) then Some(s.payload[6..])
                               else ExifBlock(b, i + |EncodeSegment(s)|)
  {
    var e := EncodeSegment(s);
    SegmentBytes(s);
    assert b[i + 0] == e[0] && b[i + 1] == e[1] && b[i + 2] == e[2] && b[i + 3] == e[3];
    PayloadAt(b, i, s);
  }

  /** One segment at offset `i` that runs past the window ends the walk. */
  lemma {:induction false} SegmentCut(b: seq<byte>, i: nat, s: Segment)
    requires s.Valid()
    requires i <= |b| < i + |EncodeSegment(s)|
    requires forall j :: 0 <= j < |b| - i ==> b[i + j] == EncodeSegment(s)[j]
    ensures ExifBlock(b, i) == None
  {
    if i + 4 <= |b| {
      var e := EncodeSegment(s);
      SegmentBytes(s);
      assert b[i + 2] == e[2] && b[i + 3] == e[3];
    }
  }

  /** Nothing is read past a scan, the end of the image or what is no marker, nor of what does not start as a JPEG. */
  lemma {:induction false} WalkStops(file: seq<byte>, b: seq<byte>, i: nat)
    ensures |file| < 4 || file[0] != 0xff || file[1] != 0xd8 ==> Orientation(file) == 1
    ensures i + 1 < |b| && (b[i] != 0xff || b[i + 1] == 0xda || b[i + 1] == 0xd9) ==> ExifBlock(b, i).None?
  {
  }

  /** One segment of a file seen through a window onto its first bytes. */
  lemma {:induction false} SegmentSeen(file: seq<byte>, b: seq<byte>, i: nat, s: Segment)
    requires s.Valid() && b <= file
    requires StandAt(file, i, EncodeSegment(s))
    ensures ExifBlock(b, i) ==
            if i + |EncodeSegment(s)| > |b| then None
            else if IsExif(s.marker, s.payload) then Some(s.payload[6..])
            else ExifBlock(b, i + |EncodeSegment(s)|)
  {
    if i > |b| {
    } else if i + |EncodeSegment(s)| > |b| {
      SegmentCut(b, i, s);
    } else {
      SegmentRead(b, i, s);
    }
  }

  /** The walk skips the segments before the Exif one, and reads that one if the window holds all of it. */
  lemma {:induction false} WalkFindsExif(file: seq<byte>, b: seq<byte>, i: nat, before: seq<Segment>, exif: Segment)
    requires exif.Valid() && forall s :: s in before ==> s.Valid()
    requires b <= file
    requires StandAt(file, i, EncodeSegments(before + [exif]))
    requires IsExif(exif.marker, exif.payload)
    requires forall s :: s in before ==> !IsExif(s.marker, s.payload)
    ensures ExifBlock(b, i) ==
            if i + |EncodeSegments(before + [exif])| <= |b| then Some(exif.payload[6..]) else None
    decreases |before|
  {
    var ss := before + [exif];
    var head, rest := EncodeSegment(ss[0]), EncodeSegments(ss[1..]);
    StandSplits(file, i, head, rest);
    SegmentSeen(file, b, i, ss[0]);
    if before == [] {
      assert ss[1..] == [];
    } else {
      assert ss[0] == before[0] && ss[1..] == before[1..] + [exif];
      WalkFindsExif(file, b, i + |head|, before[1..], exif);
    }
  }

  /**
   A JPEG whose first Exif segment carries a directory yields what the directory states when that segment
   lies within the window, and 1 when it runs past it.
   */
  lemma {:induction false} JpegRoundTrip(before: seq<Segment>, bo: ByteOrder, magic: seq<byte>, gap: seq<byte>,
                                         es: seq<Entry>, tail: seq<byte>, rest: seq<byte>)
    requires |magic| == 2 && |es| < 0x1_0000 && 8 + |gap| < 0x1_0000_0000
    requires forall e :: e in es ==> e.Valid()
    requires forall s :: s in before ==> s.Valid() && !IsExif(s.marker, s.payload)
    requires Segment(0xe1, EXIF_ID + EncodeTiff(bo, magic, gap, es, tail)).Valid()
    ensures var exif := Segment(0xe1, EXIF_ID + EncodeTiff(bo, magic, gap, es, tail));
            var header := [0xff, 0xd8] + EncodeSegments(before + [exif]);
            Orientation(header + rest) == if |header| <= 262144 then Stated(es) else 1
  {
    var tiff := EncodeTiff(bo, magic, gap, es, tail);
    var exif := Segment(0xe1, EXIF_ID + tiff);
    var segs := EncodeSegments(before + [exif]);
    var header: seq<byte> := [0xff, 0xd8] + segs;
    var file := header + rest;
    var b := if |file| > WINDOW then file[..WINDOW] else file;
    assert exif.payload[..6] == EXIF_ID && exif.payload[6..] == tiff;
    assert |tiff| >= 10;
    forall j | 0 <= j < |segs|
      ensures file[2 + j] == segs[j]
    {
      assert header[2 + j] == segs[j];
    }
    SegmentsHaveLength(before + [exif]);
    WalkFindsExif(file, b, 2, before, exif);
    TiffRoundTrip(bo, magic, gap, es, tail);
    assert b[0] == 0xff && b[1] == 0xd8;
  }

  lemma {:induction false} SegmentsHaveLength(ss: seq<Segment>)
    requires forall s :: s in ss ==> s.Valid()
    ensures |EncodeSegments(ss)| >= 4 * |ss|
  {
    if ss != [] {
      SegmentsHaveLength(ss[1..]);
    }
  }

  // ---- fill bytes --------------------------------------------------------------------------------------

  /** A segment with fill bytes before its marker, of which B.1.1.2 of T.81 allows any number. */
  datatype Filled = Filled(fill: nat, segment: Segment) {
    ghost predicate Valid() {
      segment.Valid() && segment.marker >= 0xc0
    }
  }

  function Fill(n: nat): (b: seq<byte>)
    ensures |b| == n && forall j :: 0 <= j < n ==> b[j] == 0xff
  {
    seq(n, _ => 0xff)
  }

  function EncodeFilled(ps: seq<Filled>): seq<byte>
    requires forall p :: p in ps ==> p.Valid()
  {
    if ps == [] then []
    else
      assert ps[0].Valid();
      Fill(ps[0].fill) + (EncodeSegment(ps[0].segment) + EncodeFilled(ps[1..]))
  }

  function Bare(ps: seq<Filled>): (ss: seq<Segment>)
    ensures |ss| == |ps| && forall i :: 0 <= i < |ps| ==> ss[i] == ps[i].segment
    ensures (forall p :: p in ps ==> p.Valid()) ==> forall s :: s in ss ==> s.Valid()
  {
    assert (forall p :: p in ps ==> p.Valid()) ==> forall i :: 0 <= i < |ps| ==> ps[i].Valid();
    seq(|ps|, i requires 0 <= i < |ps| => ps[i].segment)
  }

  ghost predicate NoFill(ps: seq<Filled>) {
    forall i :: 0 <= i < |ps| ==> ps[i].fill == 0
  }

  lemma {:induction false} BareIsEncoded(ps: seq<Filled>)
    requires NoFill(ps) && forall p :: p in ps ==> p.Valid()
    ensures EncodeFilled(ps) == EncodeSegments(Bare(ps))
  {
    if ps != [] {
      BareIsEncoded(ps[1..]);
      assert Bare(ps)[1..] == Bare(ps[1..]);
    }
  }

  /**
   Where a fill byte or a marker without a length stands, the reader takes the start of the next marker for a
   length: it skips at least 48 KiB, or gives up.
   */
  lemma {:induction false} NextMarkerIsTakenForALength(b: seq<byte>, i: nat)
    requires i + 4 <= |b| && b[i] == 0xff && b[i + 1] !in {0xda, 0xd9, 0xe1} && b[i + 2] >= 0xc0
    ensures var next := i + 2 + U16(BigEndian, b, i + 2);
            next >= i + 2 + 0xc000 && ExifBlock(b, i) == if next > |b| then None else ExifBlock(b, next)
  {
  }

  /** The reader gives up at the first fill byte of a short file. */
  lemma {:induction false} FillEndsTheWalk(file: seq<byte>, i: nat, ps: seq<Filled>)
    requires i >= 2 && |file| < 0xc004
    requires forall p :: p in ps ==> p.Valid()
    requires StandAt(file, i, EncodeFilled(ps)) && !NoFill(ps)
    requires forall k :: 0 <= k < |ps| - 1 ==> !IsExif(ps[k].segment.marker, ps[k].segment.payload)
    ensures ExifBlock(file, i) == None
    decreases |ps|
  {
    assert ps != [] && ps[0].Valid();
    var fill, seg, rest := Fill(ps[0].fill), EncodeSegment(ps[0].segment), EncodeFilled(ps[1..]);
    StandSplits(file, i, fill, seg + rest);
    StandSplits(file, i + |fill|, seg, rest);
    if ps[0].fill == 0 {
      assert ps == [ps[0]] + ps[1..];
      SegmentSeen(file, file, i, ps[0].segment);
      FillEndsTheWalk(file, i + |seg|, ps[1..]);
    } else {
      FillStands(file, i, ps[0]);
      NextMarkerIsTakenForALength(file, i);
    }
  }

  lemma {:induction false} FillStands(file: seq<byte>, i: nat, p: Filled)
    requires p.Valid() && p.fill > 0
    requires StandAt(file, i, Fill(p.fill)) && StandAt(file, i + p.fill, EncodeSegment(p.segment))
    ensures i + 4 <= |file| && file[i] == 0xff && file[i + 1] == 0xff && file[i + 2] >= 0xc0
  {
    var fill := Fill(p.fill);
    var seg := EncodeSegment(p.segment);
    assert file[i + 0] == fill[0];
    assert file[i + p.fill + 0] == seg[0] && file[i + p.fill + 1] == seg[1];
    if p.fill > 1 {
      assert file[i + 1] == fill[1];
      if p.fill > 2 {
        assert file[i + 2] == fill[2];
      }
    }
  }

  /**
   In a short file, what the first Exif segment states is read exactly when no marker up to its own is preceded by a
   fill byte; otherwise the file reads as 1.
   */
  lemma {:induction false} FillBytesHideOrientation(before: seq<Filled>, fill: nat, bo: ByteOrder, magic: seq<byte>,
                                                    gap: seq<byte>, es: seq<Entry>, tail: seq<byte>, rest: seq<byte>)
    requires |magic| == 2 && |es| < 0x1_0000 && 8 + |gap| < 0x1_0000_0000
    requires forall e :: e in es ==> e.Valid()
    requires forall p :: p in before ==> p.Valid() && !IsExif(p.segment.marker, p.segment.payload)
    requires Segment(0xe1, EXIF_ID + EncodeTiff(bo, magic, gap, es, tail)).Valid()
    ensures var all := before + [Filled(fill, Segment(0xe1, EXIF_ID + EncodeTiff(bo, magic, gap, es, tail)))];
            var file := [0xff, 0xd8] + EncodeFilled(all) + rest;
            |file| < 0xc004 ==> Orientation(file) == if NoFill(all) then Stated(es) else 1
  {
    var exif := Segment(0xe1, EXIF_ID + EncodeTiff(bo, magic, gap, es, tail));
    var all := before + [Filled(fill, exif)];
    var file := [0xff, 0xd8] + EncodeFilled(all) + rest;
    if |file| < 0xc004 {
      if NoFill(all) {
        BareIsEncoded(all);
        assert Bare(all) == Bare(before) + [exif];
        JpegRoundTrip(Bare(before), bo, magic, gap, es, tail, rest);
      } else {
        FilledStands(EncodeFilled(all), rest);
        FillEndsTheWalk(file, 2, all);
      }
    }
  }

  lemma {:induction false} FilledStands(header: seq<byte>, rest: seq<byte>)
    ensures StandAt([0xff, 0xd8] + header + rest, 2, header)
  {
  }
}
