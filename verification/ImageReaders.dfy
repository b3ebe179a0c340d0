/** Two readers of a signed image: `imgtool dumpinfo` and the bootloader's size computation. */
module ImageReaders {
  import opened Bytes
  import opened Options
  import opened Tlv
  import opened ImageFormat
  import opened ImageWriter

  // ----- a list of records, read as Python slices -----

  /** A record as read: its data is shorter than its length when the file ends first. */
  datatype Record = Record(kind: U16, len: U16, data: seq<Byte>)

  /** The bytes of `b` from `lo` up to `hi`, as far as there are any. */
  function Clip(b: seq<Byte>, lo: nat, hi: nat): (r: seq<Byte>)
    requires lo <= hi
  {
    if lo >= |b| then [] else if hi >= |b| then b[lo..] else b[lo..hi]
  }

  function RecordAt(b: seq<Byte>, off: nat): (r: Record)
    requires off + 4 <= |b|
  {
    var len := U16At(b, off + 2);
    Record(U16At(b, off), len, Clip(b, off + 4, off + 4 + len))
  }

  /** The records from `off` on while they start below `end`, and where the walk stops; `None` when a head is cut off. */
  function Walk(b: seq<Byte>, off: nat, end: nat): (r: Option<(seq<Record>, nat)>)
    decreases end - off
  {
    if off >= end then Some(([], off))
    else if off + 4 > |b| then None
    else
      match Walk(b, off + 4 + RecordAt(b, off).len, end)
      case None => None
      case Some(rest) => Some(([RecordAt(b, off)] + rest.0, rest.1))
  }

  /** What the walk gives with `rs` already read. */
  function After(rs: seq<Record>, r: Option<(seq<Record>, nat)>): (t: Option<(seq<Record>, nat)>) {
    match r
    case None => None
    case Some(p) => Some((rs + p.0, p.1))
  }

  method ReadRecords(b: seq<Byte>, start: nat, end: nat) returns (r: Option<(seq<Record>, nat)>)
    ensures r == Walk(b, start, end)
  {
    hide RecordAt;
    var off := start;
    var rs: seq<Record> := [];
    assert Walk(b, start, end).Some? ==> [] + Walk(b, start, end).value.0 == Walk(b, start, end).value.0;
    while off < end
      invariant Walk(b, start, end) == After(rs, Walk(b, off, end))
    {
      if off + 4 > |b| {
        return None;
      }
      var record := RecordAt(b, off);
      ghost var rest := Walk(b, off + 4 + record.len, end);
      assert rest.Some? ==> rs + ([record] + rest.value.0) == rs + [record] + rest.value.0;
      rs := rs + [record];
      off := off + 4 + record.len;
    }
    r := Some((rs, off));
    assert rs + [] == rs;
  }

  function RecordOf(e: Entry): (r: Record)
    requires e.Valid()
  {
    Record(e.kind, |e.data|, e.data)
  }

  function Records(es: seq<Entry>): (rs: seq<Record>)
    requires AllValid(es)
  {
    seq(|es|, i requires 0 <= i < |es| => assert es[i] in es; RecordOf(es[i]))
  }

  /** What the walk finds where records were written is those records, and it stops at their end. */
  lemma {:induction false} WalkEncoded(b: seq<Byte>, off: nat, es: seq<Entry>)
    requires AllValid(es)
    requires off + |Encode(es)| <= |b| && b[off..off + |Encode(es)|] == Encode(es)
    ensures Walk(b, off, off + |Encode(es)|) == Some((Records(es), off + |Encode(es)|))
    decreases |es|
  {
    hide EntryBytes, U16At, Encode;
    if es == [] {
      EncodeNone();
    } else {
      var first, rest := es[0], es[1..];
      assert es == [first] + rest;
      EncodeSplit([first], rest);
      EncodeOne(first);
      var n, k := |Encode(es)|, 4 + |first.data|;
      Slice(b, off, n, 0, k);
      Slice(b, off, n, k, n);
      EntryFields(b, off, first);
      assert RecordAt(b, off) == RecordOf(first);
      WalkEncoded(b, off + k, rest);
      assert Records(es) == [RecordOf(first)] + Records(rest);
    }
  }

  // ----- dumpinfo -----

  datatype HeaderInfo = HeaderInfo(magic: U32, loadAddr: U32, headerSize: U16, protectedSize: U16, imageSize: U32, flags: U32,
                                   version: Version)

  datatype AreaInfo = NoArea | AreaInfo(magic: U16, total: U16, records: seq<Record>)

  datatype TrailerInfo = NoTrailer | BadMagic | TrailerInfo(maxAlign: nat, imageOk: Byte, copyDone: Byte, swapInfo: Byte, swapSize: seq<Byte>)

  datatype ImageInfo = ImageInfo(header: HeaderInfo, protected: AreaInfo, tlvs: AreaInfo, trailer: TrailerInfo)

  function HeaderAt(b: seq<Byte>): (h: HeaderInfo)
    requires |b| >= 28
  {
    HeaderInfo(U32At(b, 0), U32At(b, 4), U16At(b, 8), U16At(b, 10), U32At(b, 12), U32At(b, 16),
               Version(b[20], b[21], U16At(b, 22), U32At(b, 24)))
  }

  /** An area's head and records, and where the walk stops. */
  function AreaAt(b: seq<Byte>, off: nat): (r: Option<(AreaInfo, nat)>)
    ensures r.Some? ==> r.value.0.AreaInfo?
  {
    if off + 4 > |b| then None
    else
      var total := U16At(b, off + 2);
      match Walk(b, off + 4, off + total)
      case None => None
      case Some(w) => Some((AreaInfo(U16At(b, off), total, w.0), w.1))
  }

  method ReadArea(b: seq<Byte>, off: nat) returns (r: Option<(AreaInfo, nat)>)
    ensures r == AreaAt(b, off)
  {
    if off + 4 > |b| {
      return None;
    }
    var total := U16At(b, off + 2);
    var records := ReadRecords(b, off + 4, off + total);
    if records.None? {
      return None;
    }
    r := Some((AreaInfo(U16At(b, off), total, records.value.0), records.value.1));
  }

  const BOOT_MAGIC: seq<Byte> := [0x77, 0xc2, 0x95, 0xf3, 0x60, 0xd2, 0xef, 0x7f, 0x35, 0x52, 0x50, 0x0f, 0x2c, 0xb6, 0x79, 0x80]
  const BOOT_MAGIC_2: seq<Byte> := [0x2d, 0xe1, 0x5d, 0x29, 0x41, 0x0b, 0x8d, 0x77, 0x67, 0x9c, 0x11, 0x0f, 0x1f, 0x8a]

  /** The alignment that the last sixteen bytes stand for. */
  function AlignOfMagic(magic: seq<Byte>): (maxAlign: Option<nat>)
    requires |magic| == 16
  {
    if magic == BOOT_MAGIC then Some(8)
    else if magic[2..] == BOOT_MAGIC_2 then Some(U16At(magic, 0))
    else None
  }

  /** Distance from the end of the file to `image_ok`. */
  function ImageOkBack(maxAlign: nat): (n: nat) {
    (if maxAlign > 16 then maxAlign else 16) + maxAlign
  }

  /** The trailer fields, counted back from the end of the file; `None` when a field lies before its start. */
  function TrailerAt(b: seq<Byte>): (t: Option<TrailerInfo>)
    requires |b| >= 28
  {
    match AlignOfMagic(b[|b| - 16..])
    case None => Some(BadMagic)
    case Some(a) =>
      var n := |b|;
      var back := ImageOkBack(a);
      if back + 2 * a > n then None
      else
        Some(TrailerInfo(a, b[n - back], b[n - back - a], b[n - back - 2 * a],
                         var lo, hi := n - back - 3 * a, n - back - 3 * a + 4;
                         if hi < 0 then [] else Clip(b, if lo < 0 then 0 else lo, hi)))
  }

  /** Everything `dumpinfo` reports; `None` when reading the file raises. */
  function InfoOf(b: seq<Byte>): (i: Option<ImageInfo>) {
    if |b| < 28 then None
    else
      var h := HeaderAt(b);
      var off := h.headerSize + h.imageSize;
      var prot := if h.protectedSize != 0 then AreaAt(b, off) else Some((NoArea, off));
      if prot.None? then None
      else
        var tlvs := AreaAt(b, prot.value.1);
        if tlvs.None? then None
        else if prot.value.1 + tlvs.value.0.total == |b| then Some(ImageInfo(h, prot.value.0, tlvs.value.0, NoTrailer))
        else
          match TrailerAt(b)
          case None => None
          case Some(t) => Some(ImageInfo(h, prot.value.0, tlvs.value.0, t))
  }

  method ReadImageInfo(b: seq<Byte>) returns (i: Option<ImageInfo>)
    ensures i == InfoOf(b)
  {
    hide AreaAt, TrailerAt;
    if |b| < 28 {
      return None;
    }
    var h := HeaderAt(b);
    var off := h.headerSize + h.imageSize;
    var prot := NoArea;
    if h.protectedSize != 0 {
      var area := ReadArea(b, off);
      if area.None? {
        return None;
      }
      prot, off := area.value.0, area.value.1;
    }
    var tlvs := ReadArea(b, off);
    if tlvs.None? {
      return None;
    }
    var end := off + tlvs.value.0.total;
    if |b| - end == 0 {
      return Some(ImageInfo(h, prot, tlvs.value.0, NoTrailer));
    }
    var trailer := TrailerAt(b);
    if trailer.None? {
      return None;
    }
    i := Some(ImageInfo(h, prot, tlvs.value.0, trailer.value));
  }

  // ----- the bootloader's size computation -----

  /** The image's whole size from its header and area heads; `None` for a failed read or a bad image. All in 32 bits. */
  method ReadImageSize(area: seq<Byte>, h: HeaderInfo) returns (size: Option<U32>)
    ensures size == SizeFrom(area, h)
  {
    var off := Add32(h.headerSize, h.imageSize);
    if off + 4 > |area| {
      return None;
    }
    var magic, total := U16At(area, off), U16At(area, off + 2);
    if magic == TLV_PROT_INFO_MAGIC {
      if h.protectedSize != total {
        return None;
      }
      var next := Add32(off, total);
      if next + 4 > |area| {
        return None;
      }
      magic, total := U16At(area, next), U16At(area, next + 2);
    } else if h.protectedSize != 0 {
      return None;
    }
    if magic != TLV_INFO_MAGIC {
      return None;
    }
    size := Some(Add32(Add32(off, h.protectedSize), total));
  }

  /** The same as one expression: the unprotected area's head stands right after the protected area. */
  function SizeFrom(area: seq<Byte>, h: HeaderInfo): (size: Option<U32>) {
    var off := Add32(h.headerSize, h.imageSize);
    var next := Add32(off, h.protectedSize);
    if off + 4 > |area| then None
    else if (U16At(area, off) == TLV_PROT_INFO_MAGIC) && U16At(area, off + 2) != h.protectedSize then None
    else if (U16At(area, off) != TLV_PROT_INFO_MAGIC) && h.protectedSize != 0 then None
    else if next + 4 > |area| || U16At(area, next) != TLV_INFO_MAGIC then None
    else Some(Add32(next, U16At(area, next + 2)))
  }

  // ----- what the readers make of what the writer wrote -----

  function HeaderOf(s: Source): (h: HeaderInfo)
    requires HeaderFits(s)
  {
    HeaderInfo(IMAGE_MAGIC, Address(s), s.headerSize, SizeOf(s), |s.payload| - s.headerSize, Flags(s), s.version)
  }

  function AreaOf(magic: U16, es: seq<Entry>): (a: AreaInfo)
    requires AreaFits(es)
  {
    if es == [] then NoArea else AreaInfo(magic, 4 + |Encode(es)|, Records(es))
  }

  lemma FieldAt(b: seq<Byte>, whole: seq<Byte>, off: nat, part: seq<Byte>)
    requires whole <= b && off + |part| <= |whole| && whole[off..off + |part|] == part
    ensures b[off..off + |part|] == part
  {
    assert b[..|whole|] == whole;
    Slice(b, 0, |whole|, off, off + |part|);
  }

  lemma HeaderRecovered(s: Source, b: seq<Byte>)
    requires HeaderFits(s) && HeaderBytes(s) <= b
    ensures HeaderAt(b) == HeaderOf(s)
  {
    hide Le32, Le16, U32At, U16At, SizeOf, Address, Flags;
    var h := HeaderBytes(s);
    assert h[0..4] == Le32(IMAGE_MAGIC) && h[4..8] == Le32(Address(s)) && h[8..10] == Le16(s.headerSize);
    assert h[10..12] == Le16(SizeOf(s)) && h[12..16] == Le32(|s.payload| - s.headerSize) && h[16..20] == Le32(Flags(s));
    assert h[20..28] == VersionBytes(s.version);
    Words(h, b, s);
    VersionRecovered(s.version, b, h);
  }

  lemma Words(h: seq<Byte>, b: seq<Byte>, s: Source)
    requires HeaderFits(s) && |h| == 32 && h <= b
    requires h[0..4] == Le32(IMAGE_MAGIC) && h[4..8] == Le32(Address(s)) && h[8..10] == Le16(s.headerSize)
    requires h[10..12] == Le16(SizeOf(s)) && h[12..16] == Le32(|s.payload| - s.headerSize) && h[16..20] == Le32(Flags(s))
    ensures U32At(b, 0) == IMAGE_MAGIC && U32At(b, 4) == Address(s) && U16At(b, 8) == s.headerSize
    ensures U16At(b, 10) == SizeOf(s) && U32At(b, 12) == |s.payload| - s.headerSize && U32At(b, 16) == Flags(s)
  {
    hide Le32, Le16, U32At, U16At, SizeOf, Address, Flags;
    FieldAt(b, h, 0, Le32(IMAGE_MAGIC));
    ReadLe32(b, 0, IMAGE_MAGIC);
    FieldAt(b, h, 4, Le32(Address(s)));
    ReadLe32(b, 4, Address(s));
    FieldAt(b, h, 8, Le16(s.headerSize));
    ReadLe16(b, 8, s.headerSize);
    FieldAt(b, h, 10, Le16(SizeOf(s)));
    ReadLe16(b, 10, SizeOf(s));
    FieldAt(b, h, 12, Le32(|s.payload| - s.headerSize));
    ReadLe32(b, 12, |s.payload| - s.headerSize);
    FieldAt(b, h, 16, Le32(Flags(s)));
    ReadLe32(b, 16, Flags(s));
  }

  lemma VersionRecovered(v: Version, b: seq<Byte>, h: seq<Byte>)
    requires |h| == 32 && h <= b && h[20..28] == VersionBytes(v)
    ensures Version(b[20], b[21], U16At(b, 22), U32At(b, 24)) == v
  {
    hide Le32, Le16, U32At, U16At;
    var w := VersionBytes(v);
    FieldAt(b, h, 20, w);
    assert w[0] == v.major && w[1] == v.minor && w[2..4] == Le16(v.revision) && w[4..8] == Le32(v.build);
    assert b[20] == b[20..28][0] && b[21] == b[20..28][1];
    Slice(b, 20, 8, 2, 4);
    Slice(b, 20, 8, 4, 8);
    ReadLe16(b, 22, v.revision);
    ReadLe32(b, 24, v.build);
  }

  lemma AreaRecovered(b: seq<Byte>, off: nat, magic: U16, es: seq<Entry>)
    requires AreaFits(es) && es != [] && off + |Area(magic, es)| <= |b| && b[off..off + |Area(magic, es)|] == Area(magic, es)
    ensures off + 4 <= |b| && U16At(b, off) == magic && U16At(b, off + 2) == 4 + |Encode(es)|
    ensures AreaAt(b, off) == Some((AreaOf(magic, es), off + |Area(magic, es)|))
  {
    hide Le16, U16At, Encode, Walk;
    var a, n := Area(magic, es), |Area(magic, es)|;
    assert a[0..2] == Le16(magic) && a[2..4] == Le16(4 + |Encode(es)|) && a[4..n] == Encode(es);
    Slice(b, off, n, 0, 2);
    Slice(b, off, n, 2, 4);
    Slice(b, off, n, 4, n);
    ReadLe16(b, off, magic);
    ReadLe16(b, off + 2, 4 + |Encode(es)|);
    WalkEncoded(b, off + 4, es);
  }

  /** Where the three parts of an image lie in any file that starts with it. */
  lemma Parts(s: Source, g: Signing, b: seq<Byte>)
    requires s.Valid() && HeaderFits(s) && AllVendor(s.custom) && AreaFits(SigningTlvs(g, Region(s))) && ImageOf(s, g) <= b
    ensures HeaderBytes(s) <= b && Region(s) <= b && |Region(s)| == |s.payload| + SizeOf(s)
    ensures |Region(s)| <= |ImageOf(s, g)| && |ImageOf(s, g)| - |Region(s)| == |Area(TLV_INFO_MAGIC, SigningTlvs(g, Region(s)))|
    ensures b[|s.payload|..|Region(s)|] == ProtectedBytes(s)
    ensures b[|Region(s)|..|ImageOf(s, g)|] == Area(TLV_INFO_MAGIC, SigningTlvs(g, Region(s)))
  {
    hide SizeOf, ProtectedTlvs, SigningTlvs, Area, HeaderBytes, ProtectedBytes;
    var head, prot := Head(s), ProtectedBytes(s);
    var tlvs := Area(TLV_INFO_MAGIC, SigningTlvs(g, Region(s)));
    var image := ImageOf(s, g);
    assert image == head + prot + tlvs;
    FieldAt(b, image, |head|, prot);
    FieldAt(b, image, |head| + |prot|, tlvs);
    assert image[..|head|] == head && image[..|head + prot|] == Region(s);
    assert b[..|image|] == image;
    assert b[..|Region(s)|] == image[..|Region(s)|];
    assert b[..32] == image[..32] == HeaderBytes(s);
  }

  /** `dumpinfo` gives back the header and both record lists of any image, padded or not. */
  lemma InfoRecovers(s: Source, g: Signing, b: seq<Byte>)
    requires s.Valid() && HeaderFits(s) && AllVendor(s.custom) && AreaFits(SigningTlvs(g, Region(s))) && ImageOf(s, g) <= b
    ensures AreaFits(ProtectedTlvs(s))
    ensures
      var t := if |b| == |ImageOf(s, g)| then Some(NoTrailer) else TrailerAt(b);
      InfoOf(b) ==
      if t.None? then None
      else Some(ImageInfo(HeaderOf(s), AreaOf(TLV_PROT_INFO_MAGIC, ProtectedTlvs(s)),
                          AreaOf(TLV_INFO_MAGIC, SigningTlvs(g, Region(s))), t.value))
  {
    hide SizeOf, ProtectedTlvs, SigningTlvs, HeaderBytes, AreaAt, HeaderAt, TrailerAt, Region, Encode, Records, ImageOf;
    Parts(s, g, b);
    ProtectedFits(s);
    HeaderRecovered(s, b);
    var prot, tlvs := ProtectedTlvs(s), SigningTlvs(g, Region(s));
    SigningNonEmpty(g, Region(s));
    ProtectedNonEmpty(s);
    if prot != [] {
      AreaRecovered(b, |s.payload|, TLV_PROT_INFO_MAGIC, prot);
    }
    AreaRecovered(b, |Region(s)|, TLV_INFO_MAGIC, tlvs);
    AreaLength(TLV_INFO_MAGIC, tlvs);
  }

  lemma SigningNonEmpty(g: Signing, region: seq<Byte>)
    ensures SigningTlvs(g, region) != []
  {
  }

  /** The header says there is a protected area exactly when there is one. */
  lemma ProtectedNonEmpty(s: Source)
    requires s.Valid() && HeaderFits(s) && AllVendor(s.custom)
    ensures SizeOf(s) == 0 <==> ProtectedTlvs(s) == []
  {
    ProtectedSizeIsEmitted(s);
  }

  /** The bootloader computes the length of the unpadded image, in any area that holds it. */
  lemma SizeIsImageLength(s: Source, g: Signing, b: seq<Byte>)
    requires s.Valid() && HeaderFits(s) && AllVendor(s.custom) && AreaFits(SigningTlvs(g, Region(s)))
    requires ImageOf(s, g) <= b && |b| < 0x1_0000_0000
    ensures SizeFrom(b, HeaderOf(s)) == Some(|ImageOf(s, g)|)
  {
    hide SizeOf, ProtectedTlvs, SigningTlvs, HeaderBytes, AreaAt, Region, Encode, ImageOf, SizeFrom, Area;
    Parts(s, g, b);
    ProtectedFits(s);
    var prot, tlvs := ProtectedTlvs(s), SigningTlvs(g, Region(s));
    SigningNonEmpty(g, Region(s));
    ProtectedNonEmpty(s);
    if prot != [] {
      AreaRecovered(b, |s.payload|, TLV_PROT_INFO_MAGIC, prot);
      AreaLength(TLV_PROT_INFO_MAGIC, prot);
    }
    AreaRecovered(b, |Region(s)|, TLV_INFO_MAGIC, tlvs);
    AreaLength(TLV_INFO_MAGIC, tlvs);
    SizeFromHeads(b, HeaderOf(s), |s.payload|, |Region(s)|, |ImageOf(s, g)|);
  }

  /** The computation on the positions of the heads. */
  lemma SizeFromHeads(b: seq<Byte>, h: HeaderInfo, off: nat, next: nat, end: nat)
    requires off == h.headerSize + h.imageSize && next == off + h.protectedSize && next + 4 <= end <= |b| < 0x1_0000_0000
    requires h.protectedSize != 0 ==> U16At(b, off) == TLV_PROT_INFO_MAGIC && U16At(b, off + 2) == h.protectedSize
    requires U16At(b, next) == TLV_INFO_MAGIC && U16At(b, next + 2) == end - next
    ensures SizeFrom(b, h) == Some(end)
  {
    hide U16At;
  }

  /** `dumpinfo` reads back the alignment and the flags the tool put into the trailer. */
  lemma TrailerRecovered(b: seq<Byte>, slot: Slot)
    requires slot.Valid() && |b| >= 28 && |b| >= slot.TrailerSize() && IsTrailer(b[|b| - slot.TrailerSize()..], slot)
    ensures TrailerAt(b).Some? ==>
              && TrailerAt(b).value.TrailerInfo? && TrailerAt(b).value.maxAlign == slot.maxAlign
              && TrailerAt(b).value.imageOk == (if slot.confirm && !slot.overwriteOnly then 1 else slot.erased)
              && TrailerAt(b).value.copyDone == slot.erased
    ensures !slot.overwriteOnly ==> TrailerAt(b).Some? && TrailerAt(b).value.swapInfo == slot.erased
                                    && TrailerAt(b).value.swapSize == Fill(4, slot.erased)
  {
    hide Slot.TrailerSize, Slot.MagicAlign, BootMagic, AlignOfMagic;
    var t := slot.TrailerSize();
    var trailer := b[|b| - t..];
    MagicAlignValue(slot);
    MagicRecovered(slot.maxAlign);
    assert b[|b| - 16..] == trailer[t - 16..];
    assert forall i :: 0 <= i < t ==> b[|b| - t + i] == trailer[i];
    TrailerRoom(slot);
  }

  lemma TrailerRoom(slot: Slot)
    requires slot.Valid()
    ensures slot.TrailerSize() >= slot.MagicAlign() + (if slot.overwriteOnly then 2 else 4) * slot.maxAlign
  {
    TimesNat(slot.maxSectors * 3, slot.align);
  }

  lemma MagicRecovered(maxAlign: nat)
    requires maxAlign in {8, 16, 32}
    ensures AlignOfMagic(BootMagic(maxAlign)) == Some(maxAlign)
  {
    var m := BootMagic(maxAlign);
    if maxAlign != 8 {
      assert m[0] != 0x77;
      assert m[2..] == BOOT_MAGIC_2;
      assert m[0..2] == Le16(maxAlign);
      ReadLe16(m, 0, maxAlign);
    }
  }
}
