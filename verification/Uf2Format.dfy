/** The 512-byte UF2 block as the bootloader overlays it on a sector (`struct uf2_block`). */
module Uf2Format {
  import opened Bytes

  const MAGIC_START0: U32 := 0x0A324655
  const MAGIC_START1: U32 := 0x9E5D5157
  const MAGIC_END: U32 := 0x0AB16F30

  const FLAG_FAMILY_ID: U32 := 0x2000
  const FLAG_EXTENSION_TAGS: U32 := 0x8000

  const BLOCK_SIZE: nat := 512
  const PAYLOAD_SIZE: nat := 256
  const DATA_SIZE: nat := 476
  const MAX_REGIONS: nat := 4

  const TAG_BOARD_ID: U24 := 0x4D7C3A
  const TAG_PARTITION: U24 := 0x1F0DA8

  type Data = d: seq<Byte> | |d| == 476 witness Fill(476, 0)

  datatype Block = Block(
    magicStart0: U32,
    magicStart1: U32,
    flags: U32,
    targetAddr: U32,
    payloadSize: U32,
    blockNo: U32,
    numBlocks: U32,
    familyId: U32,
    data: Data,
    magicEnd: U32)
  {
    predicate HasMagic() {
      magicStart0 == MAGIC_START0 && magicStart1 == MAGIC_START1 && magicEnd == MAGIC_END
    }

    predicate HasFamily() {
      flags / FLAG_FAMILY_ID % 2 == 1
    }

    predicate HasTags() {
      flags / FLAG_EXTENSION_TAGS % 2 == 1
    }

    /** The bytes of the data field that are payload. */
    function Payload(): (p: seq<Byte>)
      requires payloadSize <= DATA_SIZE
    {
      data[..payloadSize]
    }
  }

  type Sector = s: seq<Byte> | |s| == 512 witness Fill(512, 0)

  /** The cast from a sector buffer to `struct uf2_block`. */
  function Overlay(s: Sector): (b: Block)
  {
    Block(U32At(s, 0), U32At(s, 4), U32At(s, 8), U32At(s, 12), U32At(s, 16), U32At(s, 20), U32At(s, 24), U32At(s, 28),
          s[32..508], U32At(s, 508))
  }

  /** The eight header words, in order. */
  function Header(flags: U32, addr: U32, size: U32, no: U32, count: U32, family: U32): (h: seq<Byte>)
    ensures |h| == 32
  {
    Le32(MAGIC_START0) + Le32(MAGIC_START1) + Le32(flags) + Le32(addr) + Le32(size) + Le32(no) + Le32(count) + Le32(family)
  }

  /** A sector laid out as header, data field and end magic overlays to exactly those fields. */
  lemma OverlayOfLayout(s: Sector, flags: U32, addr: U32, size: U32, no: U32, count: U32, family: U32, data: Data)
    requires s == Header(flags, addr, size, no, count, family) + data + Le32(MAGIC_END)
    ensures Overlay(s) == Block(MAGIC_START0, MAGIC_START1, flags, addr, size, no, count, family, data, MAGIC_END)
  {
    var h := Header(flags, addr, size, no, count, family);
    assert forall i :: 0 <= i < 32 ==> s[i] == h[i];
    assert s[0..4] == Le32(MAGIC_START0);
    assert s[4..8] == Le32(MAGIC_START1);
    assert s[8..12] == Le32(flags);
    assert s[12..16] == Le32(addr);
    assert s[16..20] == Le32(size);
    assert s[20..24] == Le32(no);
    assert s[24..28] == Le32(count);
    assert s[28..32] == Le32(family);
    assert s[508..512] == Le32(MAGIC_END);
    assert s[32..508] == data;
    ReadLe32(s, 0, MAGIC_START0);
    ReadLe32(s, 4, MAGIC_START1);
    ReadLe32(s, 8, flags);
    ReadLe32(s, 12, addr);
    ReadLe32(s, 16, size);
    ReadLe32(s, 20, no);
    ReadLe32(s, 24, count);
    ReadLe32(s, 28, family);
    ReadLe32(s, 508, MAGIC_END);
  }
}
