/** The virtual FAT16 disk: sectors made up on the fly, and CURRENT.UF2, the flash read back as a UF2 file. */
module GhostFat {
  import opened Bytes
  import opened Options
  import opened Uf2Format
  import opened Uf2Tags
  import opened Uf2Routing
  import opened Uf2Receiver
  import opened Uf2Runs
  import Uf2Convert

  const NUM_FAT_SECTORS: nat := 64
  const NUM_ROOT_DIR_SECTORS: nat := 4
  const RESERVED_SECTORS: nat := 1
  const NUM_FATS: nat := 2
  const ROOT_START: nat := RESERVED_SECTORS + NUM_FATS * NUM_FAT_SECTORS
  const DATA_START_SECTOR: nat := ROOT_START + NUM_ROOT_DIR_SECTORS
  const TOTAL_SECTORS: nat := 65535
  const ENTRIES_PER_SECTOR: nat := 256
  const CLUSTER_INFO: nat := 2
  const CLUSTER_INDEX: nat := 3
  const CLUSTER_CURRENT: nat := 4
  const END_OF_CHAIN: U16 := 0xFFFF

  /** The part of `struct uf2_cfg` the disk uses, the two texts the format strings make, and what the read callback reads. */
  datatype Volume = Volume(
    familyId: U32,
    boardId: seq<Byte>,
    readbackBase: U32,
    readback: seq<Byte>,
    infoTxt: seq<Byte>,
    indexHtm: seq<Byte>)
  {
    predicate Valid() {
      readbackBase + |readback| + PAYLOAD_SIZE < WORD
    }

    /** `current_uf2_num_blocks`. */
    function NumBlocks(): (n: nat) {
      (|readback| + PAYLOAD_SIZE - 1) / PAYLOAD_SIZE
    }

    function PayloadLen(i: nat): (n: nat)
      requires i < NumBlocks()
      ensures 0 < n <= PAYLOAD_SIZE
    {
      if PAYLOAD_SIZE * i + PAYLOAD_SIZE > |readback| then |readback| - PAYLOAD_SIZE * i else PAYLOAD_SIZE
    }

    /** The guard: the board-id record and a terminator fit between the payload and the end magic. */
    predicate TagFits(i: nat)
      requires i < NumBlocks()
    {
      |boardId| <= 251 && PayloadLen(i) + RoundUp(4 + |boardId|, 4) + 4 <= DATA_SIZE
    }

    function TagBytes(i: nat): (t: seq<Byte>)
      requires i < NumBlocks()
      ensures PayloadLen(i) + |t| <= DATA_SIZE
    {
      if boardId != [] && TagFits(i) then [4 + |boardId|] + Le24(TAG_BOARD_ID) + boardId else []
    }

    function Flags(): (f: U32) {
      (if familyId != 0 then FLAG_FAMILY_ID else 0) + (if boardId != [] then FLAG_EXTENSION_TAGS else 0)
    }

    /** The flash bytes that block `i` carries. */
    function PayloadAt(i: nat): (p: seq<Byte>)
      requires i < NumBlocks()
      ensures |p| == PayloadLen(i)
    {
      readback[PAYLOAD_SIZE * i..PAYLOAD_SIZE * i + PayloadLen(i)]
    }

    function DataAt(i: nat): (d: Data)
      requires i < NumBlocks()
    {
      PayloadAt(i) + TagBytes(i) + Fill(DATA_SIZE - |PayloadAt(i) + TagBytes(i)|, 0)
    }

    /** Block `i` of CURRENT.UF2 as a receiver sees it. */
    function BlockAt(i: nat): (b: Block)
      requires Valid() && i < NumBlocks()
    {
      Block(MAGIC_START0, MAGIC_START1, Flags(), readbackBase + PAYLOAD_SIZE * i, PayloadLen(i), i, NumBlocks(), familyId,
            DataAt(i), MAGIC_END)
    }

    function Blocks(): (f: seq<Block>)
      requires Valid()
      ensures |f| == NumBlocks()
    {
      seq(NumBlocks(), i requires 0 <= i < NumBlocks() => BlockAt(i))
    }
  }

  // ----- writing into a sector buffer -----

  /** A copy into the buffer, as `memcpy`, `write_u16_le` and `write_u32_le` do. */
  method Put(buf: array<Byte>, off: nat, d: seq<Byte>)
    requires off + |d| <= buf.Length
    modifies buf
    ensures buf[..] == Overwrite(old(buf[..]), off, d)
  {
    var i := 0;
    while i < |d|
      invariant i <= |d|
      invariant buf[..] == Overwrite(old(buf[..]), off, d[..i])
    {
      buf[off + i] := d[i];
      assert d[..i + 1] == d[..i] + [d[i]];
      assert buf[..] == Overwrite(old(buf[..]), off, d[..i])[off + i := d[i]];
      i := i + 1;
    }
    assert d[..|d|] == d;
  }

  /** `memset(buf, 0, SECTOR_SIZE)`. */
  method Clear(buf: array<Byte>)
    requires buf.Length == BLOCK_SIZE
    modifies buf
    ensures buf[..] == Fill(BLOCK_SIZE, 0) && FilledWith(buf[..], [])
  {
    Put(buf, 0, Fill(BLOCK_SIZE, 0));
  }

  /** A buffer filled up to some point and zero from there on. */
  predicate FilledWith(buf: seq<Byte>, p: seq<Byte>) {
    |p| <= |buf| && buf == p + Fill(|buf| - |p|, 0)
  }

  /** `Put` at the point the buffer is filled to. */
  method PutNext(buf: array<Byte>, ghost p: seq<Byte>, off: nat, d: seq<Byte>)
    requires off == |p| && off + |d| <= buf.Length && FilledWith(buf[..], p)
    modifies buf
    ensures FilledWith(buf[..], p + d)
  {
    Put(buf, off, d);
  }

  method PutHeader(buf: array<Byte>, flags: U32, addr: U32, size: U32, no: U32, count: U32, family: U32)
    requires buf.Length == BLOCK_SIZE && FilledWith(buf[..], [])
    modifies buf
    ensures FilledWith(buf[..], Header(flags, addr, size, no, count, family))
  {
    hide Le32, FilledWith;
    ghost var p: seq<Byte> := [];
    PutNext(buf, p, 0, Le32(MAGIC_START0));
    p := Le32(MAGIC_START0);
    assert [] + p == p;
    PutNext(buf, p, 4, Le32(MAGIC_START1));
    p := p + Le32(MAGIC_START1);
    PutNext(buf, p, 8, Le32(flags));
    p := p + Le32(flags);
    PutNext(buf, p, 12, Le32(addr));
    p := p + Le32(addr);
    PutNext(buf, p, 16, Le32(size));
    p := p + Le32(size);
    PutNext(buf, p, 20, Le32(no));
    p := p + Le32(no);
    PutNext(buf, p, 24, Le32(count));
    p := p + Le32(count);
    PutNext(buf, p, 28, Le32(family));
  }

  /** The board-id record, when it fits. */
  method PutTag(v: Volume, buf: array<Byte>, ghost p: seq<Byte>, i: nat)
    requires v.Valid() && i < v.NumBlocks() && buf.Length == BLOCK_SIZE
    requires |p| == 32 + v.PayloadLen(i) && FilledWith(buf[..], p)
    modifies buf
    ensures FilledWith(buf[..], p + v.TagBytes(i))
  {
    hide FilledWith, Le24, RoundUp;
    assert p + [] == p;
    if v.boardId != [] {
      var extOff := 32 + v.PayloadLen(i);
      var sz: Byte := (4 + |v.boardId|) % 0x100;
      var padded := RoundUp(sz, 4);
      if |v.boardId| <= 251 && extOff + padded + 4 <= 508 {
        assert sz == 4 + |v.boardId| && v.TagFits(i);
        var head := [sz] + Le24(TAG_BOARD_ID);
        PutNext(buf, p, extOff, head);
        PutNext(buf, p + head, extOff + 4, v.boardId);
        assert p + head + v.boardId == p + (head + v.boardId);
      }
    }
  }

  /** The end magic goes over the zeros at the end of a filled buffer. */
  lemma EndMagicOver(head: seq<Byte>, body: seq<Byte>, e: seq<Byte>, buf: seq<Byte>)
    requires |head| == 32 && |body| <= DATA_SIZE && |e| == 4
    requires |buf| == BLOCK_SIZE && FilledWith(buf, head + body)
    ensures Overwrite(buf, 508, e) == head + (body + Fill(DATA_SIZE - |body|, 0)) + e
  {
  }

  /** `build_current_uf2_block`. */
  method BuildCurrentUf2Block(v: Volume, buf: array<Byte>, i: nat)
    requires v.Valid() && i < v.NumBlocks() && buf.Length == BLOCK_SIZE
    modifies buf
    ensures Overlay(buf[..]) == v.BlockAt(i)
  {
    hide Overlay, Le32, Header, FilledWith, Volume.TagBytes, Overwrite;
    var off := i * PAYLOAD_SIZE;
    var len := PAYLOAD_SIZE;
    if off + len > |v.readback| {
      len := |v.readback| - off;
    }
    Clear(buf);
    PutHeader(buf, v.Flags(), v.readbackBase + off, len, i, v.NumBlocks(), v.familyId);
    ghost var head := Header(v.Flags(), v.readbackBase + off, len, i, v.NumBlocks(), v.familyId);
    PutNext(buf, head, 32, v.readback[off..off + len]);
    PutTag(v, buf, head + v.PayloadAt(i), i);
    CloseBlock(v, buf, head, i);
  }

  /** The end magic, which completes the block. */
  method CloseBlock(v: Volume, buf: array<Byte>, ghost head: seq<Byte>, i: nat)
    requires v.Valid() && i < v.NumBlocks() && buf.Length == BLOCK_SIZE
    requires head == Header(v.Flags(), v.readbackBase + PAYLOAD_SIZE * i, v.PayloadLen(i), i, v.NumBlocks(), v.familyId)
    requires FilledWith(buf[..], head + v.PayloadAt(i) + v.TagBytes(i))
    modifies buf
    ensures Overlay(buf[..]) == v.BlockAt(i)
  {
    hide Overlay, Le32, Header, FilledWith, Volume.TagBytes, Overwrite;
    ghost var body := v.PayloadAt(i) + v.TagBytes(i);
    assert head + v.PayloadAt(i) + v.TagBytes(i) == head + body;
    EndMagicOver(head, body, Le32(MAGIC_END), buf[..]);
    Put(buf, 508, Le32(MAGIC_END));
    OverlayOfLayout(buf[..], v.Flags(), v.readbackBase + PAYLOAD_SIZE * i, v.PayloadLen(i), i, v.NumBlocks(), v.familyId, v.DataAt(i));
  }

  // ----- the file allocation table -----

  /** The table entry for a cluster: one-cluster text files, then CURRENT.UF2's chain. */
  function FatEntry(numCurrent: nat, cluster: nat): (e: U16)
    requires cluster < 0xFFFF
  {
    if cluster == 0 then 0xFFF8
    else if cluster < CLUSTER_CURRENT then END_OF_CHAIN
    else if cluster + 1 < CLUSTER_CURRENT + numCurrent then cluster + 1
    else if cluster + 1 == CLUSTER_CURRENT + numCurrent then END_OF_CHAIN
    else 0
  }

  predicate IsFatSector(v: Volume, idx: nat, s: Sector)
    requires idx < NUM_FAT_SECTORS
  {
    forall i :: 0 <= i < ENTRIES_PER_SECTOR ==> U16At(s, 2 * i) == FatEntry(v.NumBlocks(), idx * ENTRIES_PER_SECTOR + i)
  }

  /** The first `count` entries of a table sector, as bytes. */
  function FatBytes(numCurrent: nat, first: nat, count: nat): (p: seq<Byte>)
    requires first + count < 0xFFFF
    ensures |p| == 2 * count
  {
    if count == 0 then [] else FatBytes(numCurrent, first, count - 1) + Le16(FatEntry(numCurrent, first + count - 1))
  }

  lemma {:induction false} FatBytesAt(numCurrent: nat, first: nat, count: nat, i: nat)
    requires first + count < 0xFFFF && i < count
    ensures U16At(FatBytes(numCurrent, first, count), 2 * i) == FatEntry(numCurrent, first + i)
  {
    var p := FatBytes(numCurrent, first, count);
    if i == count - 1 {
      assert p[2 * i..2 * i + 2] == Le16(FatEntry(numCurrent, first + i));
      ReadLe16(p, 2 * i, FatEntry(numCurrent, first + i));
    } else {
      FatBytesAt(numCurrent, first, count - 1, i);
      var q := FatBytes(numCurrent, first, count - 1);
      assert p[2 * i] == q[2 * i] && p[2 * i + 1] == q[2 * i + 1];
    }
  }

  /** The zeros that are already there stand for an unwritten zero entry. */
  lemma ZeroEntryStands(buf: seq<Byte>, p: seq<Byte>)
    requires FilledWith(buf, p) && |p| + 2 <= |buf|
    ensures FilledWith(buf, p + Le16(0))
  {
    assert Le16(0) == [0, 0];
  }

  /** The value the loop body computes. */
  method FatValue(numCurrent: nat, cluster: nat) returns (val: U16)
    requires cluster < 0xFFFF
    ensures val == FatEntry(numCurrent, cluster)
  {
    val := 0;
    if cluster == 0 {
      val := 0xFFF8;
    } else if cluster == 1 {
      val := 0xFFFF;
    } else if cluster == CLUSTER_INFO || cluster == CLUSTER_INDEX {
      val := 0xFFFF;
    } else if numCurrent > 0 && cluster >= CLUSTER_CURRENT && cluster < CLUSTER_CURRENT + numCurrent {
      if cluster == CLUSTER_CURRENT + numCurrent - 1 {
        val := 0xFFFF;
      } else {
        val := (cluster + 1) % 0x1_0000;
      }
    }
  }

  /** `build_fat_sector`. */
  method BuildFatSector(v: Volume, buf: array<Byte>, idx: nat)
    requires buf.Length == BLOCK_SIZE && idx < NUM_FAT_SECTORS
    modifies buf
    ensures IsFatSector(v, idx, buf[..])
  {
    hide FilledWith, Le16, FatEntry, IsFatSector;
    var numCurrent := v.NumBlocks();
    var firstEntry := idx * ENTRIES_PER_SECTOR;
    Clear(buf);
    var i := 0;
    while i < ENTRIES_PER_SECTOR
      invariant i <= ENTRIES_PER_SECTOR
      invariant FilledWith(buf[..], FatBytes(numCurrent, firstEntry, i))
    {
      var val := FatValue(numCurrent, firstEntry + i);
      ghost var p := FatBytes(numCurrent, firstEntry, i);
      if val != 0 {
        PutNext(buf, p, 2 * i, Le16(val));
      } else {
        ZeroEntryStands(buf[..], p);
      }
      i := i + 1;
    }
    FilledFatSector(v, idx, buf[..]);
  }

  lemma FilledFatSector(v: Volume, idx: nat, s: Sector)
    requires idx < NUM_FAT_SECTORS && FilledWith(s, FatBytes(v.NumBlocks(), idx * ENTRIES_PER_SECTOR, ENTRIES_PER_SECTOR))
    ensures IsFatSector(v, idx, s)
  {
    hide FatEntry;
    assert s == FatBytes(v.NumBlocks(), idx * ENTRIES_PER_SECTOR, ENTRIES_PER_SECTOR);
    forall j | 0 <= j < ENTRIES_PER_SECTOR
      ensures U16At(s, 2 * j) == FatEntry(v.NumBlocks(), idx * ENTRIES_PER_SECTOR + j)
    {
      FatBytesAt(v.NumBlocks(), idx * ENTRIES_PER_SECTOR, ENTRIES_PER_SECTOR, j);
    }
  }

  // ----- the root directory -----

  const VOLUME_NAME: seq<Byte> := [0x41, 0x44, 0x41, 0x42, 0x4F, 0x4F, 0x54, 0x20, 0x20, 0x20, 0x20]
  const INFO_NAME: seq<Byte> := [0x49, 0x4E, 0x46, 0x4F, 0x5F, 0x55, 0x46, 0x32, 0x54, 0x58, 0x54]
  const INDEX_NAME: seq<Byte> := [0x49, 0x4E, 0x44, 0x45, 0x58, 0x20, 0x20, 0x20, 0x48, 0x54, 0x4D]
  const CURRENT_NAME: seq<Byte> := [0x43, 0x55, 0x52, 0x52, 0x45, 0x4E, 0x54, 0x20, 0x55, 0x46, 0x32]

  /** The length `snprintf` leaves in a buffer of `max` bytes. */
  function TextLen(txt: seq<Byte>, max: nat): (n: nat)
    requires max > 0
    ensures n < max
  {
    if |txt| >= max then max - 1 else |txt|
  }

  function DirEntry(name: seq<Byte>, attr: Byte, cluster: U16, size: U32): (e: seq<Byte>)
    requires |name| == 11
    ensures |e| == 32
  {
    name + [attr] + Fill(14, 0) + Le16(cluster) + Le32(size)
  }

  function DirEntries(v: Volume): (d: seq<Byte>)
    requires v.Valid()
    ensures |d| <= 128
  {
    DirEntry(VOLUME_NAME, 0x08, 0, 0) + DirEntry(INFO_NAME, 0x01, CLUSTER_INFO, TextLen(v.infoTxt, 256)) + DirEntry(INDEX_NAME, 0x01, CLUSTER_INDEX, TextLen(v.indexHtm, 256)) +
    if v.NumBlocks() > 0 then DirEntry(CURRENT_NAME, 0x01, CLUSTER_CURRENT, v.NumBlocks() * BLOCK_SIZE % WORD) else []
  }

  /** `build_dir_entry`, where the buffer is still zero. */
  method BuildDirEntry(buf: array<Byte>, ghost p: seq<Byte>, off: nat, name: seq<Byte>, attr: Byte, cluster: U16, size: U32)
    requires |name| == 11 && off == |p| && off + 32 <= buf.Length && FilledWith(buf[..], p)
    modifies buf
    ensures FilledWith(buf[..], p + DirEntry(name, attr, cluster, size))
  {
    hide Le16, Le32, FilledWith;
    PutNext(buf, p, off, name);
    PutNext(buf, p + name, off + 11, [attr]);
    PutNext(buf, p + name + [attr], off + 12, Fill(14, 0));
    PutNext(buf, p + name + [attr] + Fill(14, 0), off + 26, Le16(cluster));
    PutNext(buf, p + name + [attr] + Fill(14, 0) + Le16(cluster), off + 28, Le32(size));
    assert p + name + [attr] + Fill(14, 0) + Le16(cluster) + Le32(size) == p + DirEntry(name, attr, cluster, size);
  }

  /** `build_root_dir_sector`. */
  method BuildRootDirSector(v: Volume, buf: array<Byte>, idx: nat)
    requires v.Valid() && buf.Length == BLOCK_SIZE
    modifies buf
    ensures FilledWith(buf[..], if idx == 0 then DirEntries(v) else [])
  {
    hide DirEntry, FilledWith;
    Clear(buf);
    if idx != 0 {
      return;
    }
    ghost var p: seq<Byte> := [];
    BuildDirEntry(buf, p, 0, VOLUME_NAME, 0x08, 0, 0);
    p := DirEntry(VOLUME_NAME, 0x08, 0, 0);
    assert [] + p == p;
    BuildDirEntry(buf, p, 32, INFO_NAME, 0x01, CLUSTER_INFO, TextLen(v.infoTxt, 256));
    p := p + DirEntry(INFO_NAME, 0x01, CLUSTER_INFO, TextLen(v.infoTxt, 256));
    BuildDirEntry(buf, p, 64, INDEX_NAME, 0x01, CLUSTER_INDEX, TextLen(v.indexHtm, 256));
    p := p + DirEntry(INDEX_NAME, 0x01, CLUSTER_INDEX, TextLen(v.indexHtm, 256));
    assert p + [] == p;
    if v.NumBlocks() > 0 {
      BuildDirEntry(buf, p, 96, CURRENT_NAME, 0x01, CLUSTER_CURRENT, v.NumBlocks() * BLOCK_SIZE % WORD);
    }
  }

  // ----- the boot sector -----

  /** The BIOS parameter block fields a FAT16 host computes the layout from. */
  predicate IsBootSector(s: Sector) {
    && U16At(s, 11) == BLOCK_SIZE && s[13] == 1 && U16At(s, 14) == RESERVED_SECTORS && s[16] == NUM_FATS
    && U16At(s, 17) == NUM_ROOT_DIR_SECTORS * 16 && U16At(s, 19) == TOTAL_SECTORS && U16At(s, 22) == NUM_FAT_SECTORS
    && s[510] == 0x55 && s[511] == 0xAA
  }

  /** Jump, OEM name, and the parameter block up to the table size: the first 24 bytes. */
  function BootHead(): (p: seq<Byte>)
    ensures |p| == 24
  {
    [0xEB, 0x3C, 0x90, 0x55, 0x46, 0x32, 0x20, 0x55, 0x46, 0x32, 0x20] +
    [0x00, 0x02, 1, 1, 0, 2, 64, 0, 0xFF, 0xFF, 0xF8, 64, 0]
  }

  /** `build_boot_sector`. */
  method BuildBootSector(buf: array<Byte>)
    requires buf.Length == BLOCK_SIZE
    modifies buf
    ensures IsBootSector(buf[..])
  {
    hide Le16, Le32, BootHead, IsBootSector;
    Clear(buf);
    Put(buf, 0, BootHead());
    assert buf[..24] == BootHead();
    Put(buf, 24, Le16(1) + Le16(1) + Le32(0) + Le32(TOTAL_SECTORS));
    Put(buf, 36, [0x80]);
    Put(buf, 38, [0x29] + Le32(0x00420042) + VOLUME_NAME);
    Put(buf, 54, [0x46, 0x41, 0x54, 0x31, 0x36, 0x20, 0x20, 0x20]);
    assert buf[..24] == BootHead();
    Put(buf, 446, [0x80, 0x01, 0x01, 0x00, 0x0E, 0xFE, 0xFF, 0xFF] + Le32(0) + Le32(TOTAL_SECTORS));
    Put(buf, 510, [0x55, 0xAA]);
    assert buf[..24] == BootHead();
    BootFields(buf[..]);
  }

  lemma BootFields(s: Sector)
    requires s[..24] == BootHead() && s[510] == 0x55 && s[511] == 0xAA
    ensures IsBootSector(s)
  {
    assert forall k :: 0 <= k < 24 ==> s[k] == s[..24][k];
  }

  // ----- reading and writing sectors -----

  predicate IsText(txt: seq<Byte>, s: Sector) {
    FilledWith(s, txt[..TextLen(txt, BLOCK_SIZE)])
  }

  method PutText(buf: array<Byte>, txt: seq<Byte>)
    requires buf.Length == BLOCK_SIZE
    modifies buf
    ensures IsText(txt, buf[..])
  {
    Clear(buf);
    var t := txt[..TextLen(txt, BLOCK_SIZE)];
    PutNext(buf, [], 0, t);
    assert [] + t == t;
  }

  /** What sector `n` of the disk holds. */
  predicate IsSector(v: Volume, n: nat, s: Sector)
    requires v.Valid()
  {
    if n == 0 then IsBootSector(s)
    else if n < RESERVED_SECTORS + NUM_FAT_SECTORS then IsFatSector(v, n - RESERVED_SECTORS, s)
    else if n < ROOT_START then IsFatSector(v, n - RESERVED_SECTORS - NUM_FAT_SECTORS, s)
    else if n == ROOT_START then FilledWith(s, DirEntries(v))
    else if n < DATA_START_SECTOR then FilledWith(s, [])
    else if n == DATA_START_SECTOR then IsText(v.infoTxt, s)
    else if n == DATA_START_SECTOR + 1 then IsText(v.indexHtm, s)
    else if n - DATA_START_SECTOR - 2 < v.NumBlocks() then Overlay(s) == v.BlockAt(n - DATA_START_SECTOR - 2)
    else FilledWith(s, [])
  }

  /** `ghostfat_read_sector`. */
  method ReadSector(v: Volume, sector: nat, buf: array<Byte>)
    requires v.Valid() && buf.Length == BLOCK_SIZE
    modifies buf
    ensures IsSector(v, sector, buf[..])
  {
    hide IsBootSector, IsFatSector, IsText, FilledWith, Overlay, DirEntries, Volume.BlockAt;
    if sector == 0 {
      BuildBootSector(buf);
      return;
    }
    if sector >= RESERVED_SECTORS && sector < RESERVED_SECTORS + NUM_FAT_SECTORS {
      BuildFatSector(v, buf, sector - RESERVED_SECTORS);
      return;
    }
    if sector >= RESERVED_SECTORS + NUM_FAT_SECTORS && sector < RESERVED_SECTORS + 2 * NUM_FAT_SECTORS {
      BuildFatSector(v, buf, sector - RESERVED_SECTORS - NUM_FAT_SECTORS);
      return;
    }
    var rootStart := RESERVED_SECTORS + 2 * NUM_FAT_SECTORS;
    if sector >= rootStart && sector < rootStart + NUM_ROOT_DIR_SECTORS {
      BuildRootDirSector(v, buf, sector - rootStart);
      return;
    }
    ReadDataSector(v, sector, buf);
  }

  /** The data area: the two texts, then CURRENT.UF2. */
  method ReadDataSector(v: Volume, sector: nat, buf: array<Byte>)
    requires v.Valid() && buf.Length == BLOCK_SIZE && sector >= DATA_START_SECTOR
    modifies buf
    ensures IsSector(v, sector, buf[..])
  {
    hide IsBootSector, IsFatSector, IsText, FilledWith, Overlay, DirEntries, Volume.BlockAt;
    var cluster := (sector - DATA_START_SECTOR) + 2;
    if cluster == CLUSTER_INFO {
      PutText(buf, v.infoTxt);
      return;
    }
    if cluster == CLUSTER_INDEX {
      PutText(buf, v.indexHtm);
      return;
    }
    var numCurrent := v.NumBlocks();
    if numCurrent > 0 && cluster >= CLUSTER_CURRENT && cluster < CLUSTER_CURRENT + numCurrent {
      BuildCurrentUf2Block(v, buf, cluster - CLUSTER_CURRENT);
      return;
    }
    Clear(buf);
  }

  /** `ghostfat_write_sector`: metadata writes and sectors without the magic numbers are ignored; the rest is a call of
      the receiver. */
  method WriteSector(rx: Receiver, sector: nat, s: Sector) returns (rc: int)
    requires rx.Valid()
    modifies rx, rx.blockMap
    ensures rx.Valid()
    ensures sector < DATA_START_SECTOR || !Overlay(s).HasMagic() ==> rc == 0 && rx.View() == old(rx.View())
    ensures sector >= DATA_START_SECTOR && Overlay(s).HasMagic() ==> Next(rx.cfg, rx.maxBlocks, old(rx.View()), Overlay(s), rc, rx.View())
  {
    hide Next;
    if sector < DATA_START_SECTOR {
      return 0;
    }
    var b := Overlay(s);
    if b.magicStart0 != MAGIC_START0 || b.magicStart1 != MAGIC_START1 || b.magicEnd != MAGIC_END {
      return 0;
    }
    rc := rx.ProcessBlock(b);
  }
}
