/** In-place decryption of an encrypted image, one flash sector at a time (serial recovery). */
module SectorDecrypt {
  import opened Bytes
  import opened Options

  /** Header length and offset of the TLVs; what lies between is encrypted. */
  datatype Image = Image(headerSize: nat, tlvOff: nat) {
    predicate Valid() {
      0 < headerSize <= tlvOff
    }
  }

  /** The counter-mode cipher: what the byte at a stream position decrypts to. */
  type Cipher = (nat, Byte) -> Byte

  /** The whole image decrypted: header and TLVs as they are, every body byte at its own stream position. */
  function Whole(img: Image, f: seq<Byte>, dec: Cipher): (r: seq<Byte>)
    ensures |r| == |f|
  {
    seq(|f|, x requires 0 <= x < |f| => if img.headerSize <= x < img.tlvOff then dec(x - img.headerSize, f[x]) else f[x])
  }

  /** What `decrypt_region_inplace` hands to the cipher for the sector at `off`: index into its buffer, length, and offset
      within the cipher block. */
  function Portion(img: Image, off: nat, sectorSize: nat): (p: (nat, nat, nat))
  {
    var blkSize := if off < img.headerSize then (if img.headerSize > off + sectorSize then 0 else off + sectorSize - img.headerSize) else sectorSize;
    var blkOff := if off < img.headerSize then 0 else (off - img.headerSize) % 16;
    var idx := if off < img.headerSize then img.headerSize else 0;
    var len := if off + sectorSize > img.tlvOff then (if off >= img.tlvOff then 0 else img.tlvOff - off) else blkSize;
    (idx, len, blkOff)
  }

  /** The stream position of buffer index `idx + k`. */
  function StreamPos(img: Image, off: nat, p: (nat, nat, nat), k: nat): (pos: nat)
    requires off + p.0 >= img.headerSize
  {
    RoundDown(off + p.0 - img.headerSize, 16) + p.2 + k
  }

  /** The flash after one sector; `None` when the cipher would run past the sector buffer. */
  function Sector(img: Image, f: seq<Byte>, off: nat, sectorSize: nat, dec: Cipher): (r: Option<seq<Byte>>)
    requires off + sectorSize <= |f|
    ensures r.Some? ==> |r.value| == |f|
  {
    var p := Portion(img, off, sectorSize);
    if p.1 > 0 && p.0 + p.1 > sectorSize then None
    else Some(seq(|f|, x requires 0 <= x < |f| => if off + p.0 <= x < off + p.0 + p.1 then dec(StreamPos(img, off, p, x - off - p.0), f[x]) else f[x]))
  }

  /** Sectors `i` up to `n`, in order. */
  function Sectors(img: Image, f: seq<Byte>, i: nat, n: nat, sectorSize: nat, dec: Cipher): (r: Option<seq<Byte>>)
    requires i <= n && n * sectorSize <= |f|
    decreases n - i
  {
    if i == n then Some(f)
    else
      Scaled(n, i, sectorSize);
      match Sector(img, f, i * sectorSize, sectorSize, dec)
      case None => None
      case Some(f') => Sectors(img, f', i + 1, n, sectorSize, dec)
  }

  const ERASED: Byte := 0xFF

  /** `Overrun` when the cipher would run past the sector buffer, `FlashError` when reading, erasing or writing failed. */
  datatype Result = Done | Overrun | FlashError

  /** The sector at `off` is as it was or erased, everything else as it was. */
  predicate Interrupted(f: seq<Byte>, g: seq<Byte>, off: nat, sectorSize: nat) {
    && |g| == |f|
    && (forall x :: 0 <= x < |f| && !(off <= x < off + sectorSize) ==> g[x] == f[x])
    && (g == f || forall x :: off <= x < off + sectorSize && x < |f| ==> g[x] == ERASED)
  }

  /** `decrypt_region_inplace`: read the sector into a buffer, decrypt there, erase, write back. */
  method DecryptRegion(flash: array<Byte>, img: Image, off: nat, sectorSize: nat, dec: Cipher) returns (rc: Result)
    requires off + sectorSize <= flash.Length
    modifies flash
    ensures rc.Done? ==> Sector(img, old(flash[..]), off, sectorSize, dec) == Some(flash[..])
    ensures rc.Overrun? ==> Sector(img, old(flash[..]), off, sectorSize, dec).None? && flash[..] == old(flash[..])
    ensures rc.FlashError? ==> Interrupted(old(flash[..]), flash[..], off, sectorSize)
  {
    var ok: bool := *;
    if !ok {
      return FlashError;
    }
    var buf := flash[off..off + sectorSize];
    var p := Portion(img, off, sectorSize);
    if p.1 > 0 && p.0 + p.1 > sectorSize {
      return Overrun;
    }
    buf := DecryptBuffer(buf, img, off, p, dec);
    ok := *;
    if !ok {
      return FlashError;
    }
    WriteBack(flash, off, Fill(sectorSize, ERASED));
    ok := *;
    if !ok {
      return FlashError;
    }
    WriteBack(flash, off, buf);
    assert flash[..] == Sector(img, old(flash[..]), off, sectorSize, dec).value;
    return Done;
  }

  /** The call of `boot_enc_decrypt` on the buffer. */
  method DecryptBuffer(buf: seq<Byte>, img: Image, off: nat, p: (nat, nat, nat), dec: Cipher) returns (r: seq<Byte>)
    requires off + p.0 >= img.headerSize && (p.1 > 0 ==> p.0 + p.1 <= |buf|)
    ensures |r| == |buf|
    ensures forall x :: 0 <= x < |r| ==> r[x] == if p.0 <= x < p.0 + p.1 then dec(StreamPos(img, off, p, x - p.0), buf[x]) else buf[x]
  {
    r := buf;
    var k := 0;
    while k < p.1
      invariant 0 <= k <= p.1 && |r| == |buf|
      invariant forall x :: 0 <= x < |r| ==> r[x] == if p.0 <= x < p.0 + k then dec(StreamPos(img, off, p, x - p.0), buf[x]) else buf[x]
    {
      r := r[p.0 + k := dec(StreamPos(img, off, p, k), r[p.0 + k])];
      k := k + 1;
    }
  }

  method WriteBack(flash: array<Byte>, off: nat, buf: seq<Byte>)
    requires off + |buf| <= flash.Length
    modifies flash
    ensures forall y :: 0 <= y < flash.Length ==> flash[y] == if off <= y < off + |buf| then buf[y - off] else old(flash[y])
  {
    var x := 0;
    while x < |buf|
      invariant 0 <= x <= |buf|
      invariant forall y :: 0 <= y < flash.Length ==> flash[y] == if off <= y < off + x then buf[y - off] else old(flash[y])
    {
      flash[off + x] := buf[x];
      x := x + 1;
    }
  }

  /** The first `m` sectors are decrypted, and the one after them may be erased. */
  ghost predicate Stopped(img: Image, f: seq<Byte>, g: seq<Byte>, m: nat, sectorSize: nat, dec: Cipher) {
    && m * sectorSize <= |f|
    && Sectors(img, f, 0, m, sectorSize, dec).Some?
    && Interrupted(Sectors(img, f, 0, m, sectorSize, dec).value, g, m * sectorSize, sectorSize)
  }

  /** The sector loop of `decrypt_image_inplace` over an image of `srcSize` bytes. */
  method DecryptImage(flash: array<Byte>, img: Image, srcSize: nat, sectorSize: nat, dec: Cipher) returns (rc: Result)
    requires 0 < sectorSize
    modifies flash
    ensures
      var n := Count(flash.Length, srcSize, sectorSize);
      && (rc.Done? ==> Sectors(img, old(flash[..]), 0, n, sectorSize, dec) == Some(flash[..]))
      && (rc.Overrun? ==> Sectors(img, old(flash[..]), 0, n, sectorSize, dec).None?)
      && (rc.FlashError? ==> exists m :: 0 <= m < n && Stopped(img, old(flash[..]), flash[..], m, sectorSize, dec))
  {
    hide Sector, Interrupted;
    var sectCount := flash.Length / sectorSize;
    ghost var f0, n := flash[..], Count(flash.Length, srcSize, sectorSize);
    var sect, size := 0, 0;
    while size < srcSize && sect < sectCount
      invariant 0 <= sect <= n && size == sect * sectorSize
      invariant sect * sectorSize <= flash.Length && Sectors(img, f0, 0, sect, sectorSize, dec) == Some(flash[..])
      invariant sect < n <==> size < srcSize && sect < sectCount
      decreases sectCount - sect
    {
      assert sect < n;
      Scaled(n, sect, sectorSize);
      Scaled(n, sect + 1, sectorSize);
      assert (sect + 1) * sectorSize == sect * sectorSize + sectorSize;
      ghost var before := flash[..];
      SectorsSnoc(img, f0, 0, sect, sectorSize, dec);
      rc := DecryptRegion(flash, img, size, sectorSize, dec);
      if rc.Overrun? {
        SectorsFail(img, f0, sect + 1, n, sectorSize, dec);
        return;
      }
      if rc.FlashError? {
        assert Stopped(img, f0, flash[..], sect, sectorSize, dec);
        return;
      }
      sect := sect + 1;
      size := size + sectorSize;
      CountBound(flash.Length, srcSize, sectorSize, sect);
    }
    return Done;
  }

  /** One more sector at the end. */
  lemma {:induction false} SectorsSnoc(img: Image, f: seq<Byte>, i: nat, n: nat, sectorSize: nat, dec: Cipher)
    requires i <= n && (n + 1) * sectorSize <= |f| && n * sectorSize + sectorSize <= |f|
    ensures
      Sectors(img, f, i, n + 1, sectorSize, dec) ==
      match Sectors(img, f, i, n, sectorSize, dec)
      case None => None
      case Some(g) => if |g| == |f| then Sector(img, g, n * sectorSize, sectorSize, dec) else None
    ensures Sectors(img, f, i, n, sectorSize, dec).Some? ==> |Sectors(img, f, i, n, sectorSize, dec).value| == |f|
    decreases n - i
  {
    hide Sector;
    if i < n {
      Scaled(n, i, sectorSize);
      var r := Sector(img, f, i * sectorSize, sectorSize, dec);
      if r.Some? {
        SectorsSnoc(img, r.value, i + 1, n, sectorSize, dec);
      }
    } else {
      var r := Sector(img, f, n * sectorSize, sectorSize, dec);
      assert Sectors(img, f, n, n, sectorSize, dec) == Some(f);
      if r.Some? {
        assert Sectors(img, r.value, n + 1, n + 1, sectorSize, dec) == Some(r.value);
      }
    }
  }

  lemma {:induction false} SectorsFail(img: Image, f: seq<Byte>, m: nat, n: nat, sectorSize: nat, dec: Cipher)
    requires 0 < sectorSize && m <= n && m * sectorSize <= |f| && n * sectorSize <= |f|
    requires Sectors(img, f, 0, m, sectorSize, dec).None?
    ensures Sectors(img, f, 0, n, sectorSize, dec).None?
    decreases n - m
  {
    hide Sector;
    if m < n {
      Scaled(m + 1, n, sectorSize);
      assert (m + 1) * sectorSize == m * sectorSize + sectorSize;
      SectorsSnoc(img, f, 0, m, sectorSize, dec);
      SectorsFail(img, f, m + 1, n, sectorSize, dec);
    }
  }

  /** How many sectors the loop visits: enough for the image, but whole sectors of the area only. */
  function Count(area: nat, srcSize: nat, sectorSize: nat): (n: nat)
    requires 0 < sectorSize
    ensures n * sectorSize <= area
  {
    var all, needed := area / sectorSize, (srcSize + sectorSize - 1) / sectorSize;
    assert all * sectorSize <= area;
    Scaled(all, needed, sectorSize);
    if needed < all then needed else all
  }

  lemma CountBound(area: nat, srcSize: nat, sectorSize: nat, sect: nat)
    requires 0 < sectorSize && sect <= Count(area, srcSize, sectorSize)
    ensures sect < Count(area, srcSize, sectorSize) <==> sect * sectorSize < srcSize && sect < area / sectorSize
  {
    var needed := (srcSize + sectorSize - 1) / sectorSize;
    assert srcSize + sectorSize - 1 == needed * sectorSize + (srcSize + sectorSize - 1) % sectorSize;
    Scaled(needed, sect, sectorSize);
    Scaled(sect, needed - 1, sectorSize);
    assert (needed - 1) * sectorSize == needed * sectorSize - sectorSize;
  }

  // ----- when the sectors add up to the whole image -----

  /** The header ends within the first sector and the first sector within header and body, or the header is made of whole
      sectors. */
  predicate Aligned(img: Image, sectorSize: nat)
    requires 0 < sectorSize
  {
    img.headerSize <= sectorSize <= img.tlvOff || (sectorSize < img.headerSize && img.headerSize % sectorSize == 0)
  }

  /** With such sectors each one decrypts exactly its own part of the body. */
  lemma SectorIsOwnPart(img: Image, f: seq<Byte>, i: nat, sectorSize: nat, dec: Cipher)
    requires img.Valid() && 0 < sectorSize && Aligned(img, sectorSize)
    requires i * sectorSize + sectorSize <= |f|
    ensures
      var off, r := i * sectorSize, Sector(img, f, i * sectorSize, sectorSize, dec);
      && r.Some?
      && forall x :: 0 <= x < |f| ==> r.value[x] == if off <= x < off + sectorSize then Whole(img, f, dec)[x] else f[x]
  {
    var off, p := i * sectorSize, Portion(img, i * sectorSize, sectorSize);
    if off < img.headerSize {
      if sectorSize < img.headerSize {
        HeaderInSectors(img, i, sectorSize);
        assert p.1 == 0;
      } else {
        FirstSectorOnly(img, i, sectorSize);
        assert off == 0 && p == (img.headerSize, sectorSize - img.headerSize, 0);
      }
    } else {
      var q := off - img.headerSize;
      assert q - q % 16 == q / 16 * 16;
    }
  }

  lemma HeaderInSectors(img: Image, i: nat, sectorSize: nat)
    requires 0 < sectorSize && img.headerSize % sectorSize == 0 && i * sectorSize < img.headerSize
    ensures i * sectorSize + sectorSize <= img.headerSize
  {
    var n := img.headerSize / sectorSize;
    assert img.headerSize == n * sectorSize;
    Scaled(i, n, sectorSize);
    Scaled(n, i, sectorSize);
  }

  lemma FirstSectorOnly(img: Image, i: nat, sectorSize: nat)
    requires 0 < sectorSize && i * sectorSize < img.headerSize <= sectorSize
    ensures i == 0
  {
    Scaled(i, 0, sectorSize);
  }

  /** After `i` sectors the bytes below are decrypted and the others as they were. */
  lemma {:induction false} SectorsAddUp(img: Image, f0: seq<Byte>, f: seq<Byte>, i: nat, n: nat, sectorSize: nat, dec: Cipher)
    requires img.Valid() && 0 < sectorSize && Aligned(img, sectorSize)
    requires i <= n && n * sectorSize <= |f| == |f0|
    requires forall x :: 0 <= x < |f| ==> f[x] == if x < i * sectorSize then Whole(img, f0, dec)[x] else f0[x]
    ensures
      var r := Sectors(img, f, i, n, sectorSize, dec);
      r.Some? && |r.value| == |f0| && forall x :: 0 <= x < |f0| ==> r.value[x] == if x < n * sectorSize then Whole(img, f0, dec)[x] else f0[x]
    decreases n - i
  {
    if i < n {
      Scaled(n, i, sectorSize);
      SectorIsOwnPart(img, f, i, sectorSize, dec);
      assert (i + 1) * sectorSize == i * sectorSize + sectorSize;
      SectorsAddUp(img, f0, Sector(img, f, i * sectorSize, sectorSize, dec).value, i + 1, n, sectorSize, dec);
    }
  }

  /** Sector by sector is the same as all at once, when the visited sectors cover the body and line up with the header. */
  lemma SectorsAreWhole(img: Image, f: seq<Byte>, n: nat, sectorSize: nat, dec: Cipher)
    requires img.Valid() && 0 < sectorSize && Aligned(img, sectorSize)
    requires img.tlvOff <= n * sectorSize <= |f|
    ensures Sectors(img, f, 0, n, sectorSize, dec) == Some(Whole(img, f, dec))
  {
    SectorsAddUp(img, f, f, 0, n, sectorSize, dec);
    assert Sectors(img, f, 0, n, sectorSize, dec).value == Whole(img, f, dec);
  }

  /** When they do not line up, the loop runs past its buffer or changes the first TLV byte, under any cipher that changes
      that byte at the position behind the body. */
  lemma MisalignedFails(img: Image, f: seq<Byte>, n: nat, sectorSize: nat, dec: Cipher)
    requires img.Valid() && 0 < sectorSize && !Aligned(img, sectorSize)
    requires img.tlvOff <= n * sectorSize <= |f| && 0 < n
    requires img.tlvOff < |f| ==> dec(img.tlvOff - img.headerSize, f[img.tlvOff]) != f[img.tlvOff]
    ensures
      var r := Sectors(img, f, 0, n, sectorSize, dec);
      r.None? || r.value != Whole(img, f, dec)
  {
    hide Sectors, Whole;
    if sectorSize > img.tlvOff {
      Scaled(1, n, sectorSize);
      BodyInFirstSector(img, f, n, sectorSize, dec);
    } else {
      var i := SplitSector(img, n, sectorSize);
      HeaderSplitsSector(img, f, 0, i, n, sectorSize, dec);
    }
  }

  /** The sector in which the header ends. */
  lemma SplitSector(img: Image, n: nat, sectorSize: nat) returns (i: nat)
    requires 0 < sectorSize < img.headerSize && img.headerSize % sectorSize != 0 && img.headerSize <= n * sectorSize
    ensures i < n && i * sectorSize < img.headerSize < i * sectorSize + sectorSize
  {
    i := img.headerSize / sectorSize;
    assert img.headerSize == i * sectorSize + img.headerSize % sectorSize;
    Scaled(n, i, sectorSize);
  }

  /** The sector in which a header of several sectors ends is one the loop cannot decrypt, whatever the cipher. */
  lemma {:induction false} HeaderSplitsSector(img: Image, f: seq<Byte>, j: nat, i: nat, n: nat, sectorSize: nat, dec: Cipher)
    requires img.Valid() && 0 < sectorSize < img.headerSize
    requires j <= i < n && n * sectorSize <= |f| && i * sectorSize < img.headerSize < i * sectorSize + sectorSize
    ensures Sectors(img, f, j, n, sectorSize, dec).None?
    decreases i - j
  {
    Scaled(n, j, sectorSize);
    var r := Sector(img, f, j * sectorSize, sectorSize, dec);
    if j < i {
      if r.Some? {
        HeaderSplitsSector(img, r.value, j + 1, i, n, sectorSize, dec);
      }
    }
  }

  /** A sector longer than header and body: the length is counted from the sector's start, so it reaches into the TLVs. */
  lemma BodyInFirstSector(img: Image, f: seq<Byte>, n: nat, sectorSize: nat, dec: Cipher)
    requires img.Valid() && sectorSize > img.tlvOff && 0 < n && sectorSize <= n * sectorSize <= |f|
    requires dec(img.tlvOff - img.headerSize, f[img.tlvOff]) != f[img.tlvOff]
    ensures
      var r := Sectors(img, f, 0, n, sectorSize, dec);
      r.None? || r.value != Whole(img, f, dec)
  {
    Scaled(n, 0, sectorSize);
    var r := Sector(img, f, 0, sectorSize, dec);
    if r.Some? {
      var p := Portion(img, 0, sectorSize);
      assert RoundDown(0, 16) == 0;
      assert StreamPos(img, 0, p, img.tlvOff - img.headerSize) == img.tlvOff - img.headerSize;
      assert r.value[img.tlvOff] != f[img.tlvOff];
      LaterSectorsKeep(img, r.value, 1, n, sectorSize, img.tlvOff, dec);
    }
  }

  lemma {:induction false} LaterSectorsKeep(img: Image, f: seq<Byte>, i: nat, n: nat, sectorSize: nat, x: nat, dec: Cipher)
    requires 0 < i <= n && n * sectorSize <= |f| && x < sectorSize && 0 < sectorSize
    ensures Sectors(img, f, i, n, sectorSize, dec).Some? ==>
              |Sectors(img, f, i, n, sectorSize, dec).value| == |f| && Sectors(img, f, i, n, sectorSize, dec).value[x] == f[x]
    decreases n - i
  {
    if i < n {
      Scaled(n, i, sectorSize);
      Scaled(i, 0, sectorSize);
      var r := Sector(img, f, i * sectorSize, sectorSize, dec);
      if r.Some? {
        LaterSectorsKeep(img, r.value, i + 1, n, sectorSize, x, dec);
      }
    }
  }
}
