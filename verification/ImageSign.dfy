/** Signing a file, and what every reader makes of the result. */
module ImageSign {
  import opened Bytes
  import opened Options
  import opened Tlv
  import opened ImageFormat
  import opened ImageWriter
  import opened ImageReaders
  import opened ImageVerify

  /** What `dumpinfo` should show for a signed file: the header and both record lists, and the trailer of a padded one. */
  ghost predicate Shown(file: seq<Byte>, s: Source, g: Signing, slot: Slot, pad: bool)
    requires s.Valid() && slot.Valid() && HeaderFits(s) && AllVendor(s.custom) && AreaFits(SigningTlvs(g, Region(s)))
    requires AreaFits(ProtectedTlvs(s))
  {
    && InfoOf(file).Some?
    && var i := InfoOf(file).value;
    && i.header == HeaderOf(s)
    && i.protected == AreaOf(TLV_PROT_INFO_MAGIC, ProtectedTlvs(s))
    && i.tlvs == AreaOf(TLV_INFO_MAGIC, SigningTlvs(g, Region(s)))
    && (!pad ==> i.trailer == NoTrailer)
    && (pad ==>
          && i.trailer.TrailerInfo? && i.trailer.maxAlign == slot.maxAlign && i.trailer.copyDone == slot.erased
          && i.trailer.imageOk == if slot.confirm && !slot.overwriteOnly then 1 else slot.erased)
  }

  /** A padded slot is long enough for the fields that `dumpinfo` looks for before the trailer of an overwrite-only image. */
  predicate TrailerReadable(slot: Slot)
    requires slot.Valid()
  {
    slot.overwriteOnly ==> ImageOkBack(slot.maxAlign) + 2 * slot.maxAlign <= slot.size
  }

  /** `imgtool sign`: the file, when the tool makes one, is accepted by `verify`, understood by `dumpinfo`, measured right by
      the bootloader, and fills its slot when padded. */
  method Sign(s: Source, g: Signing, user: Option<Sha>, slot: Slot, pad: bool) returns (file: Option<seq<Byte>>)
    requires s.Valid() && slot.Valid() && ShaChosen(g, user)
    requires g.key.Some? ==> g.key.value.Valid() && g.key.value.Private()
    ensures file.Some? <==> Creatable(s, g, slot)
    ensures file.Some? ==> ImageOf(s, g) <= file.value && (pad && slot.size > 0 ==> |file.value| == slot.size)
    ensures file.Some? ==> VerdictOn(file.value, None, g.hash).Accepted?
    ensures file.Some? && g.key.Some? && Pair(g.key.value, g.key.value) ==> VerdictOn(file.value, g.key, g.hash).Accepted?
    ensures file.Some? && |file.value| < 0x1_0000_0000 ==> SizeFrom(file.value, HeaderOf(s)) == Some(|ImageOf(s, g)|)
    ensures file.Some? ==> AreaFits(ProtectedTlvs(s))
    ensures file.Some? && (pad ==> slot.size > 0 && TrailerReadable(slot)) ==> Shown(file.value, s, g, slot, pad)
  {
    hide SizeOf, ProtectedTlvs, SigningTlvs, AreaFits, Region, ImageOf, VerdictOn, SizeFrom, HeaderOf, Slot.TrailerSize, Shown, IsTrailer, Pair;
    var image := Create(s, g, slot);
    if image.None? {
      return None;
    }
    var b := image.value;
    if pad {
      b := PadTo(b, slot);
    }
    file := Some(b);
    ProtectedFits(s);
    AcceptedWithoutKey(s, g, b);
    if g.key.Some? && Pair(g.key.value, g.key.value) {
      AcceptedWithKey(s, g, user, g.key.value, b);
    }
    if |b| < 0x1_0000_0000 {
      SizeIsImageLength(s, g, b);
    }
    if pad ==> slot.size > 0 && TrailerReadable(slot) {
      IsShown(s, g, slot, pad, b);
    }
  }

  lemma IsShown(s: Source, g: Signing, slot: Slot, pad: bool, b: seq<Byte>)
    requires s.Valid() && slot.Valid() && HeaderFits(s) && AllVendor(s.custom) && AreaFits(SigningTlvs(g, Region(s)))
    requires ImageOf(s, g) <= b && (!pad ==> b == ImageOf(s, g))
    requires pad ==> |b| == slot.size && |b| >= |ImageOf(s, g)| + slot.TrailerSize() && IsTrailer(b[|b| - slot.TrailerSize()..], slot)
                     && TrailerReadable(slot)
    ensures AreaFits(ProtectedTlvs(s)) && Shown(b, s, g, slot, pad)
  {
    hide SizeOf, ProtectedTlvs, SigningTlvs, AreaFits, Region, ImageOf, InfoOf, HeaderOf, AreaOf, Slot.TrailerSize, IsTrailer, TrailerAt;
    InfoRecovers(s, g, b);
    ImageLength(s, g);
    if pad {
      PaddedTrailer(b, slot);
    }
  }

  lemma ImageLength(s: Source, g: Signing)
    requires s.Valid() && HeaderFits(s) && AllVendor(s.custom) && AreaFits(SigningTlvs(g, Region(s)))
    ensures |ImageOf(s, g)| >= 32
  {
    hide SizeOf, ProtectedTlvs, SigningTlvs, Area, HeaderBytes;
  }

  lemma PaddedTrailer(b: seq<Byte>, slot: Slot)
    requires slot.Valid() && |b| == slot.size >= 28 && |b| >= slot.TrailerSize() && IsTrailer(b[|b| - slot.TrailerSize()..], slot)
    requires TrailerReadable(slot)
    ensures
      var t := TrailerAt(b);
      && t.Some? && t.value.TrailerInfo? && t.value.maxAlign == slot.maxAlign && t.value.copyDone == slot.erased
      && t.value.imageOk == if slot.confirm && !slot.overwriteOnly then 1 else slot.erased
  {
    hide Slot.TrailerSize, BootMagic, AlignOfMagic, IsTrailer;
    TrailerRecovered(b, slot);
    if slot.overwriteOnly {
      assert AlignOfMagic(b[|b| - 16..]) == Some(slot.maxAlign) by {
        TrailerMagic(b, slot);
      }
    }
  }

  lemma TrailerMagic(b: seq<Byte>, slot: Slot)
    requires slot.Valid() && |b| >= 28 && |b| >= slot.TrailerSize() && IsTrailer(b[|b| - slot.TrailerSize()..], slot)
    ensures AlignOfMagic(b[|b| - 16..]) == Some(slot.maxAlign)
  {
    hide Slot.TrailerSize, BootMagic, AlignOfMagic;
    var t := b[|b| - slot.TrailerSize()..];
    MagicAlignValue(slot);
    assert b[|b| - 16..] == t[|t| - 16..];
    MagicRecovered(slot.maxAlign);
  }
}
