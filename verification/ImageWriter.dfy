/** `imgtool sign`: assembling the image and padding it to its slot. */
module ImageWriter {
  import opened Bytes
  import opened Options
  import opened Tlv
  import opened ImageFormat

  /** The size `create` computes before any TLV exists, item by item. */
  method ProtectedSize(s: Source) returns (size: nat)
    requires s.Valid()
    ensures size == SizeOf(s)
  {
    size := 0;
    if s.securityCounter.Some? {
      size := size + 4 + 4;
    }
    if s.vid.Some? {
      size := size + 4 + 16;
    }
    if s.cid.Some? {
      size := size + 4 + 16;
    }
    if s.bootRecord.Some? {
      size := size + 4 + |s.bootRecord.value|;
    }
    size := size + |s.dependencies| * 16;
    ghost var before := size;
    for i := 0 to |s.custom|
      invariant size == before + CustomSize(s.custom[..i])
    {
      assert s.custom[..i + 1][..i] == s.custom[..i];
      size := size + 4 + |s.custom[i].data|;
    }
    assert s.custom[..|s.custom|] == s.custom;
    if size != 0 {
      size := size + 4;
    }
  }


  /** A record's type: one of the named ones, or a number of the caller's own. */
  datatype RecordType = Named(value: Byte) | Vendor(number: int)

  predicate TypeAllowed(kind: RecordType) {
    kind.Vendor? ==> VENDOR_MIN <= kind.number <= VENDOR_MAX
  }

  function TypeOf(kind: RecordType): (v: U16)
    requires TypeAllowed(kind)
  {
    if kind.Named? then kind.value else kind.number
  }

  /** The buffer that records are added to. */
  class TlvBuffer {
    const magic: U16
    var buf: seq<Byte>

    constructor (magic: U16)
      ensures this.magic == magic && buf == []
    {
      this.magic := magic;
      buf := [];
    }

    /** Refuses a vendor type outside the reserved range, and a payload whose length has more than 16 bits. */
    method Add(kind: RecordType, payload: seq<Byte>) returns (ok: bool)
      modifies this`buf
      ensures ok <==> TypeAllowed(kind) && |payload| < 0x1_0000
      ensures buf == if ok then old(buf) + EntryBytes(Entry(TypeOf(kind), payload)) else old(buf)
    {
      if kind.Vendor? && !(VENDOR_MIN <= kind.number <= VENDOR_MAX) {
        return false;
      }
      if |payload| >= 0x1_0000 {
        return false;
      }
      var head := if kind.Named? then [kind.value, 0] + Le16(|payload|) else Le16(kind.number) + Le16(|payload|);
      assert kind.Named? ==> Le16(kind.value) == [kind.value, 0];
      buf := buf + head;
      buf := buf + payload;
      ok := true;
      assert buf == old(buf) + (head + payload);
    }

    method Get() returns (b: Option<seq<Byte>>)
      ensures b.None? <==> buf != [] && 4 + |buf| >= 0x1_0000
      ensures b.Some? ==> b.value == if buf == [] then [] else Le16(magic) + Le16(4 + |buf|) + buf
    {
      if |buf| == 0 {
        return Some([]);
      }
      if 4 + |buf| >= 0x1_0000 {
        return None;
      }
      b := Some(Le16(magic) + Le16(4 + |buf|) + buf);
    }

    /** Adds a record that is known to fit to a buffer of records. */
    method Append(kind: RecordType, payload: seq<Byte>, ghost es: seq<Entry>)
      requires AllValid(es) && buf == Encode(es) && TypeAllowed(kind) && |payload| < 0x1_0000
      modifies this`buf
      ensures AllValid(es + [Entry(TypeOf(kind), payload)]) && buf == Encode(es + [Entry(TypeOf(kind), payload)])
    {
      hide EntryBytes;
      var ok := Add(kind, payload);
      EncodeLast(es, Entry(TypeOf(kind), payload));
    }
  }

  method AddDependencies(tlv: TlvBuffer, ds: seq<Dependency>, ghost es: seq<Entry>)
    requires AllValid(es) && tlv.buf == Encode(es)
    modifies tlv`buf
    ensures AllValid(es + DependencyTlvs(ds)) && tlv.buf == Encode(es + DependencyTlvs(ds))
  {
    hide Encode, DependencyBytes, EntryBytes;
    assert es + DependencyTlvs([]) == es;
    for i := 0 to |ds|
      invariant AllValid(es + DependencyTlvs(ds[..i])) && tlv.buf == Encode(es + DependencyTlvs(ds[..i]))
    {
      tlv.Append(Named(DEPENDENCY), DependencyBytes(ds[i]), es + DependencyTlvs(ds[..i]));
      assert es + DependencyTlvs(ds[..i + 1]) == es + DependencyTlvs(ds[..i]) + [Entry(DEPENDENCY, DependencyBytes(ds[i]))];
    }
    assert ds[..|ds|] == ds;
  }

  method AddCustom(tlv: TlvBuffer, cs: seq<Custom>, ghost es: seq<Entry>) returns (ok: bool)
    requires AllValid(es) && tlv.buf == Encode(es)
    requires forall i :: 0 <= i < |cs| ==> |cs[i].data| < 0x1_0000
    modifies tlv`buf
    ensures ok <==> AllVendor(cs)
    ensures ok ==> AllValid(es + CustomTlvs(cs)) && tlv.buf == Encode(es + CustomTlvs(cs))
  {
    hide Encode, EntryBytes;
    assert es + CustomTlvs([]) == es;
    for i := 0 to |cs|
      invariant AllVendor(cs[..i])
      invariant AllValid(es + CustomTlvs(cs[..i])) && tlv.buf == Encode(es + CustomTlvs(cs[..i]))
    {
      if !(VENDOR_MIN <= cs[i].kind <= VENDOR_MAX) {
        var refused := tlv.Add(Vendor(cs[i].kind), cs[i].data);
        assert !InVendorRange(cs[i]);
        return refused;
      }
      tlv.Append(Vendor(cs[i].kind), cs[i].data, es + CustomTlvs(cs[..i]));
      assert es + CustomTlvs(cs[..i + 1]) == es + CustomTlvs(cs[..i]) + [Entry(cs[i].kind, cs[i].data)];
    }
    assert cs[..|cs|] == cs;
    ok := true;
  }

  /** A single record when there is one to add. */
  method AddOptional(tlv: TlvBuffer, kind: Byte, data: Option<seq<Byte>>, ghost es: seq<Entry>)
    requires AllValid(es) && tlv.buf == Encode(es) && (data.Some? ==> |data.value| < 0x1_0000)
    modifies tlv`buf
    ensures AllValid(es + Opt(kind, data)) && tlv.buf == Encode(es + Opt(kind, data))
  {
    hide Encode, EntryBytes;
    assert data.None? ==> es + Opt(kind, data) == es;
    if data.Some? {
      tlv.Append(Named(kind), data.value, es);
    }
  }

  /** The protected area: refused exactly for a vendor type out of range, once the precomputed size fits. */
  method ProtectedArea(s: Source) returns (b: Option<seq<Byte>>)
    requires s.Valid() && HeaderFits(s)
    ensures b.Some? <==> AllVendor(s.custom)
    ensures b.Some? ==> AreaFits(ProtectedTlvs(s)) && b.value == Area(TLV_PROT_INFO_MAGIC, ProtectedTlvs(s))
  {
    hide Encode, EntryBytes, Opt, DependencyTlvs;
    var tlv := new TlvBuffer(TLV_PROT_INFO_MAGIC);
    EncodeNone();
    SourceFits(s);
    ghost var es: seq<Entry> := [];
    var counter := if s.securityCounter.Some? then Some(Le32(s.securityCounter.value)) else None;
    AddOptional(tlv, SEC_CNT, counter, es);
    es := es + Opt(SEC_CNT, counter);
    AddOptional(tlv, BOOT_RECORD, s.bootRecord, es);
    es := es + Opt(BOOT_RECORD, s.bootRecord);
    AddDependencies(tlv, s.dependencies, es);
    es := es + DependencyTlvs(s.dependencies);
    AddOptional(tlv, UUID_VID, s.vid, es);
    es := es + Opt(UUID_VID, s.vid);
    AddOptional(tlv, UUID_CID, s.cid, es);
    es := es + Opt(UUID_CID, s.cid);
    var ok := AddCustom(tlv, s.custom, es);
    if !ok {
      return None;
    }
    es := es + CustomTlvs(s.custom);
    assert es == ProtectedTlvs(s);
    ProtectedFits(s);
    EncodedEmpty(es);
    b := tlv.Get();
  }

  lemma EncodedEmpty(es: seq<Entry>)
    requires AllValid(es)
    ensures Encode(es) == [] <==> es == []
  {
    if es != [] {
      assert es[|es| - 1] in es;
      assert |Encode(es)| >= |EntryBytes(es[|es| - 1])|;
    }
  }

  /** The precomputed size bounds the variable-length payloads. */
  lemma SourceFits(s: Source)
    requires HeaderFits(s)
    ensures s.bootRecord.Some? ==> |s.bootRecord.value| < 0x1_0000
    ensures forall i :: 0 <= i < |s.custom| ==> |s.custom[i].data| < 0x1_0000
  {
    CustomBounds(s.custom);
  }

  lemma {:induction false} CustomBounds(cs: seq<Custom>)
    ensures forall i :: 0 <= i < |cs| ==> |cs[i].data| <= CustomSize(cs)
  {
    if cs != [] {
      CustomBounds(cs[..|cs| - 1]);
      forall i | 0 <= i < |cs| ensures |cs[i].data| <= CustomSize(cs) {
        assert i < |cs| - 1 ==> cs[..|cs| - 1][i] == cs[i];
      }
    }
  }

  /** The unprotected area: hash, purity, key and signature; refused exactly when a length field would overflow. */
  method SigningArea(g: Signing, region: seq<Byte>) returns (b: Option<seq<Byte>>)
    requires g.key.Some? ==> g.key.value.Private()
    ensures b.Some? <==> AreaFits(SigningTlvs(g, region))
    ensures b.Some? ==> b.value == Area(TLV_INFO_MAGIC, SigningTlvs(g, region))
  {
    hide Encode, EntryBytes, Message;
    ghost var all := SigningTlvs(g, region);
    var tlv := new TlvBuffer(TLV_INFO_MAGIC);
    EncodeNone();
    var digest := g.hash(g.sha, region);
    assert Entry(ShaTlv(g.sha), digest) in all;
    var ok := TryAdd(tlv, ShaTlv(g.sha), digest, []);
    if !ok {
      return None;
    }
    ghost var es := [Entry(ShaTlv(g.sha), digest)];
    assert es == [] + es;
    if g.pure {
      ok := TryAdd(tlv, SIG_PURE, [1], es);
      es := es + [Entry(SIG_PURE, [1])];
    }
    if g.key.Some? {
      var key := g.key.value;
      var id := if g.keyAsHash then Entry(KEYHASH, g.hash(g.sha, key.publicBytes)) else Entry(PUBKEY, key.publicBytes);
      assert id in all;
      ok := TryAdd(tlv, if g.keyAsHash then KEYHASH else PUBKEY, id.data, es);
      if !ok {
        return None;
      }
      es := es + [id];
      var message := Message(g, region);
      assert Entry(key.sigTlv, key.sign(message)) in all;
      ok := TryAdd(tlv, key.sigTlv, key.sign(message), es);
      if !ok {
        return None;
      }
      es := es + [Entry(key.sigTlv, key.sign(message))];
    }
    assert es == all;
    EncodedEmpty(es);
    b := tlv.Get();
  }

  method TryAdd(tlv: TlvBuffer, kind: Byte, data: seq<Byte>, ghost es: seq<Entry>) returns (ok: bool)
    requires AllValid(es) && tlv.buf == Encode(es)
    modifies tlv`buf
    ensures ok <==> Entry(kind, data).Valid()
    ensures ok ==> AllValid(es + [Entry(kind, data)]) && tlv.buf == Encode(es + [Entry(kind, data)])
  {
    hide EntryBytes;
    ok := tlv.Add(Named(kind), data);
    if ok {
      EncodeLast(es, Entry(kind, data));
    }
  }

  // ----- the whole image -----

  /** The slot an image is made for, and how the trailer at its end is laid out and filled. */
  datatype Slot = Slot(size: nat, align: nat, maxSectors: nat, overwriteOnly: bool, maxAlign: nat, erased: Byte, confirm: bool) {
    predicate Valid() {
      align in {1, 2, 4, 8, 16, 32} && maxAlign in {8, 16, 32}
    }

    function MagicAlign(): (n: nat)
      requires Valid()
    {
      RoundUp(16, maxAlign)
    }

    function TrailerSize(): (n: nat)
      requires Valid()
      ensures n >= MagicAlign() + 2 * maxAlign
    {
      TimesNat(maxSectors * 3, align);
      if overwriteOnly then maxAlign * 2 + MagicAlign()
      else maxSectors * 3 * align + maxAlign * 4 + MagicAlign()
    }
  }

  lemma TimesNat(a: nat, b: nat)
    ensures a * b >= 0
  {
  }

  /** `create` succeeds on these. */
  predicate Creatable(s: Source, g: Signing, slot: Slot)
    requires s.Valid() && slot.Valid()
  {
    && (s.loadAddr == 0 || s.romFixed == 0)
    && HeaderFits(s) && AllVendor(s.custom)
    && AreaFits(SigningTlvs(g, Region(s)))
    && (slot.size > 0 ==> |ImageOf(s, g)| + slot.TrailerSize() <= slot.size)
  }

  method AddHeader(s: Source, protectedSize: nat) returns (payload: Option<seq<Byte>>)
    requires s.Valid() && protectedSize == SizeOf(s)
    ensures payload.Some? <==> HeaderFits(s)
    ensures payload.Some? ==> payload.value == Head(s)
  {
    var flags := 0;
    if s.loadAddr != 0 {
      flags := flags + RAM_LOAD;
    }
    if s.romFixed != 0 {
      flags := flags + ROM_FIXED;
    }
    if s.nonBootable {
      flags := flags + NON_BOOTABLE;
    }
    var size := |s.payload| - s.headerSize;
    if s.headerSize > 0xffff || protectedSize > 0xffff || size < 0 || size >= 0x1_0000_0000 {
      return None;
    }
    var address := if s.romFixed != 0 then s.romFixed else s.loadAddr;
    var header := Le32(IMAGE_MAGIC) + Le32(address) + Le16(s.headerSize) + Le16(protectedSize) + Le32(size) + Le32(flags) +
      VersionBytes(s.version) + Le32(0);
    payload := Some(header + s.payload[|header|..]);
  }

  method Create(s: Source, g: Signing, slot: Slot) returns (image: Option<seq<Byte>>)
    requires s.Valid() && slot.Valid() && (g.key.Some? ==> g.key.value.Private())
    ensures image.Some? <==> Creatable(s, g, slot)
    ensures image.Some? ==> image.value == ImageOf(s, g)
  {
    hide SizeOf, Head, ProtectedTlvs, SigningTlvs, Area, AreaFits;
    if s.loadAddr != 0 && s.romFixed != 0 {
      return None;
    }
    var protectedSize := ProtectedSize(s);
    var payload := AddHeader(s, protectedSize);
    if payload.None? {
      return None;
    }
    var protectedArea := ProtectedArea(s);
    if protectedArea.None? {
      return None;
    }
    var region := payload.value + protectedArea.value;
    var signingArea := SigningArea(g, region);
    if signingArea.None? {
      return None;
    }
    // The protected TLVs are taken off after hashing and put back.
    var b := region[..|payload.value|];
    assert b == payload.value;
    b := b + protectedArea.value;
    b := b + signingArea.value;
    if slot.size > 0 && slot.size - (|b| + slot.TrailerSize()) < 0 {
      return None;
    }
    image := Some(b);
  }

  // ----- padding -----

  function BootMagic(maxAlign: nat): (b: seq<Byte>)
    requires maxAlign in {8, 16, 32}
    ensures |b| == 16
  {
    if maxAlign == 8 then [0x77, 0xc2, 0x95, 0xf3, 0x60, 0xd2, 0xef, 0x7f, 0x35, 0x52, 0x50, 0x0f, 0x2c, 0xb6, 0x79, 0x80]
    else Le16(maxAlign) + [0x2d, 0xe1, 0x5d, 0x29, 0x41, 0x0b, 0x8d, 0x77, 0x67, 0x9c, 0x11, 0x0f, 0x1f, 0x8a]
  }

  /** The trailer as bytes: the magic last, `image_ok` set when confirmed, everything else erased. */
  predicate IsTrailer(t: seq<Byte>, slot: Slot)
    requires slot.Valid()
  {
    && |t| == slot.TrailerSize()
    && t[|t| - 16..] == BootMagic(slot.maxAlign)
    && forall i :: 0 <= i < |t| - 16 ==>
         t[i] == if slot.confirm && !slot.overwriteOnly && i == |t| - slot.MagicAlign() - slot.maxAlign then 1 else slot.erased
  }

  /** Pads to the slot size, exactly when image and trailer fit it; an image too long simply gets the trailer. */
  method PadTo(image: seq<Byte>, slot: Slot) returns (b: seq<Byte>)
    requires slot.Valid()
    ensures |b| >= |image| + slot.TrailerSize()
    ensures image <= b && IsTrailer(b[|b| - slot.TrailerSize()..], slot)
    ensures |b| == slot.size <==> |image| + slot.TrailerSize() <= slot.size
    ensures forall i :: |image| <= i < |b| - slot.TrailerSize() ==> b[i] == slot.erased
  {
    hide IsTrailer, Slot.TrailerSize;
    var padding := slot.size - (|image| + slot.TrailerSize());
    var pbytes := Fill(if padding < 0 then 0 else padding, slot.erased);
    var trailer := Trailer(slot);
    b := image + pbytes + trailer;
    assert b[|b| - |trailer|..] == trailer;
  }

  method Trailer(slot: Slot) returns (t: seq<Byte>)
    requires slot.Valid()
    ensures |t| == slot.TrailerSize() && IsTrailer(t, slot)
  {
    hide BootMagic, Slot.TrailerSize, Slot.MagicAlign;
    var tsize := slot.TrailerSize();
    MagicAlignValue(slot);
    t := Fill(tsize - 16, slot.erased);
    t := t + BootMagic(slot.maxAlign);
    if slot.confirm && !slot.overwriteOnly {
      t := t[|t| - (slot.MagicAlign() + slot.maxAlign) := 1];
    }
    assert t[|t| - 16..] == BootMagic(slot.maxAlign);
  }

  // ----- the bootloader's view of the trailer -----

  datatype SwapMode = Scratch | Move | Offset

  /** The trailer size the bootloader reserves when built for the same sectors, write size and alignment. */
  function BootTrailerSize(mode: SwapMode, slot: Slot): (n: nat)
    requires slot.Valid()
  {
    slot.maxSectors * ((if mode.Offset? then 2 else 3) * slot.align) + slot.maxAlign * 4 + (if mode.Offset? then slot.maxAlign else 0) +
    slot.MagicAlign()
  }

  /** The tool leaves the bootloader's trailer free for every swap mode, except in offset mode with next to no sectors. */
  lemma TrailerCovers(mode: SwapMode, slot: Slot)
    requires slot.Valid() && !slot.overwriteOnly
    ensures slot.TrailerSize() >= BootTrailerSize(mode, slot) <==> (mode.Offset? ==> slot.maxSectors * slot.align >= slot.maxAlign)
  {
    var m, a := slot.maxSectors, slot.align;
    assert m * 3 * a == 3 * (m * a) && m * (2 * a) == 2 * (m * a) && m * (3 * a) == 3 * (m * a);
  }

  /** Where the bootloader looks for `image_ok` in an area of `size` bytes. */
  function BootImageOkOff(size: nat, maxAlign: nat): (off: nat)
    requires maxAlign > 0 && size >= 16 + maxAlign
  {
    RoundDown(size - 16 - maxAlign, maxAlign)
  }

  /** The tool puts `image_ok` where the bootloader looks exactly when the slot is a whole number of alignment units. */
  lemma ImageOkAgrees(slot: Slot)
    requires slot.Valid() && slot.size >= slot.MagicAlign() + slot.maxAlign
    ensures BootImageOkOff(slot.size, slot.maxAlign) == slot.size - slot.MagicAlign() - slot.maxAlign <==> slot.size % slot.maxAlign == 0
  {
    hide RoundUp, RoundDown;
    var off := slot.size - slot.MagicAlign() - slot.maxAlign;
    MagicAlignValue(slot);
  }

  lemma MagicAlignValue(slot: Slot)
    requires slot.Valid()
    ensures slot.MagicAlign() == if slot.maxAlign == 32 then 32 else 16
  {
  }
}
