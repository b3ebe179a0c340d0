/** A FAT16 host that knows only the file system's rules, reading the virtual disk. */
module FatHost {
  import opened Bytes
  import opened Options
  import opened Uf2Format
  import opened GhostFat

  /** Where the parts of a FAT16 volume are, in sectors. */
  datatype Layout = Layout(fatStart: nat, fatSectors: nat, fats: nat, rootStart: nat, dataStart: nat, sectorsPerCluster: nat)

  /** The layout that the boot sector's parameter block spells out (512-byte sectors). */
  function LayoutOf(boot: Sector): (l: Layout)
  {
    var reserved, fats, fatSectors := U16At(boot, 14), boot[16], U16At(boot, 22);
    var rootStart := reserved + fats * fatSectors;
    Layout(reserved, fatSectors, fats, rootStart, rootStart + (U16At(boot, 17) * 32 + 511) / 512, boot[13])
  }

  /** Entry of `cluster` in one copy of the table; `None` past the end of the table. */
  function TableEntry(disk: seq<Sector>, l: Layout, copy: nat, cluster: nat): (e: Option<U16>)
  {
    var at := l.fatStart + copy * l.fatSectors + cluster / 256;
    if cluster / 256 >= l.fatSectors || at >= |disk| then None else Some(U16At(disk[at], 2 * (cluster % 256)))
  }

  /** The cluster chain from `cluster`, at most `fuel + 1` links; `None` when it leaves the table or never ends. */
  function Chain(disk: seq<Sector>, l: Layout, copy: nat, cluster: nat, fuel: nat): (c: Option<seq<nat>>)
    decreases fuel
  {
    match TableEntry(disk, l, copy, cluster)
    case None => None
    case Some(e) =>
      if e >= 0xFFF8 then Some([cluster])
      else if e < 2 || fuel == 0 then None
      else
        match Chain(disk, l, copy, e, fuel - 1)
        case None => None
        case Some(rest) => Some([cluster] + rest)
  }

  function ClusterSector(l: Layout, cluster: nat): (n: nat)
    requires cluster >= 2
  {
    l.dataStart + (cluster - 2) * l.sectorsPerCluster
  }

  /** First cluster and size of the directory entry with this name, searching from entry `i` up to the first free one. */
  function Find(dir: Sector, name: seq<Byte>, i: nat): (e: Option<(U16, U32)>)
    decreases 16 - i
  {
    if i >= 16 || dir[32 * i] == 0 then None
    else if dir[32 * i..32 * i + 11] == name then Some((U16At(dir, 32 * i + 26), U32At(dir, 32 * i + 28)))
    else Find(dir, name, i + 1)
  }

  /** A whole read of the disk through `ghostfat_read_sector`. */
  ghost predicate IsDisk(v: Volume, disk: seq<Sector>)
    requires v.Valid()
  {
    |disk| == TOTAL_SECTORS && forall n :: 0 <= n < |disk| ==> IsSector(v, n, disk[n])
  }

  const LAYOUT: Layout := Layout(1, 64, 2, 129, 133, 1)

  lemma LayoutIs(v: Volume, disk: seq<Sector>)
    requires v.Valid() && IsDisk(v, disk)
    ensures LayoutOf(disk[0]) == LAYOUT
  {
    assert IsSector(v, 0, disk[0]);
  }

  /** Both copies of the table hold the same entries: those of `FatEntry`, for as many clusters as the table has. */
  lemma TableHolds(v: Volume, disk: seq<Sector>, copy: nat, cluster: nat)
    requires v.Valid() && IsDisk(v, disk) && copy < 2
    ensures TableEntry(disk, LAYOUT, copy, cluster) ==
            if cluster < 64 * 256 then Some(FatEntry(v.NumBlocks(), cluster)) else None
  {
    hide FatEntry, IsBootSector, FilledWith;
    if cluster < 64 * 256 {
      var at := 1 + copy * 64 + cluster / 256;
      assert IsSector(v, at, disk[at]);
      assert IsFatSector(v, cluster / 256, disk[at]);
      var i := cluster % 256;
      assert cluster / 256 * 256 + i == cluster;
      assert U16At(disk[at], 2 * i) == FatEntry(v.NumBlocks(), cluster / 256 * 256 + i);
    }
  }

  function Upwards(first: nat, n: nat): (s: seq<nat>)
  {
    seq(n, i => first + i)
  }

  /** Following CURRENT.UF2's chain from its `i`-th cluster. */
  lemma {:induction false} ChainFrom(v: Volume, disk: seq<Sector>, copy: nat, i: nat, fuel: nat)
    requires v.Valid() && IsDisk(v, disk) && copy < 2
    requires i < v.NumBlocks() && v.NumBlocks() - i <= fuel + 1
    ensures Chain(disk, LAYOUT, copy, CLUSTER_CURRENT + i, fuel) ==
            if CLUSTER_CURRENT + v.NumBlocks() <= 64 * 256 then Some(Upwards(CLUSTER_CURRENT + i, v.NumBlocks() - i)) else None
    decreases fuel
  {
    hide IsDisk, TableEntry;
    var n := v.NumBlocks();
    TableHolds(v, disk, copy, CLUSTER_CURRENT + i);
    if i + 1 < n {
      if CLUSTER_CURRENT + i < 64 * 256 {
        ChainFrom(v, disk, copy, i + 1, fuel - 1);
        assert Upwards(CLUSTER_CURRENT + i, n - i) == [CLUSTER_CURRENT + i] + Upwards(CLUSTER_CURRENT + i + 1, n - i - 1);
      }
    } else {
      assert Upwards(CLUSTER_CURRENT + i, 1) == [CLUSTER_CURRENT + i];
    }
  }

  /** Any host finds CURRENT.UF2 in the directory, and through either table copy its chain is the clusters 4, 5, ... of
      the file's blocks, in order, exactly when they all fit the 64-sector table; the two text files keep to
      clusters 2 and 3. Reading the chain gives UF2 blocks 0, 1, ..., as many as the directory size says. */
  lemma CurrentUf2OnDisk(v: Volume, disk: seq<Sector>, copy: nat, fuel: nat)
    requires v.Valid() && IsDisk(v, disk) && copy < 2
    requires 0 < v.NumBlocks() <= fuel + 1 && DATA_START_SECTOR + 2 + v.NumBlocks() <= TOTAL_SECTORS
    ensures LayoutOf(disk[0]) == LAYOUT
    ensures Find(disk[LAYOUT.rootStart], CURRENT_NAME, 0) == Some((CLUSTER_CURRENT, 512 * v.NumBlocks()))
    ensures Find(disk[LAYOUT.rootStart], INFO_NAME, 0).Some? && Find(disk[LAYOUT.rootStart], INFO_NAME, 0).value.0 == CLUSTER_INFO
    ensures Find(disk[LAYOUT.rootStart], INDEX_NAME, 0).Some? && Find(disk[LAYOUT.rootStart], INDEX_NAME, 0).value.0 == CLUSTER_INDEX
    ensures Chain(disk, LAYOUT, copy, CLUSTER_INFO, fuel) == Some([CLUSTER_INFO]) && Chain(disk, LAYOUT, copy, CLUSTER_INDEX, fuel) == Some([CLUSTER_INDEX])
    ensures Chain(disk, LAYOUT, copy, CLUSTER_CURRENT, fuel).Some? <==> CLUSTER_CURRENT + v.NumBlocks() <= 64 * 256
    ensures Chain(disk, LAYOUT, copy, CLUSTER_CURRENT, fuel).Some? ==>
              Chain(disk, LAYOUT, copy, CLUSTER_CURRENT, fuel).value == Upwards(CLUSTER_CURRENT, v.NumBlocks())
    ensures forall i :: 0 <= i < v.NumBlocks() ==> Overlay(disk[ClusterSector(LAYOUT, CLUSTER_CURRENT + i)]) == v.BlockAt(i)
  {
    hide Find, LayoutOf, Overlay, Upwards, IsSector;
    LayoutIs(v, disk);
    ChainFrom(v, disk, copy, 0, fuel);
    TableHolds(v, disk, copy, CLUSTER_INFO);
    TableHolds(v, disk, copy, CLUSTER_INDEX);
    DirectoryHolds(v, disk);
    forall i | 0 <= i < v.NumBlocks()
      ensures Overlay(disk[ClusterSector(LAYOUT, CLUSTER_CURRENT + i)]) == v.BlockAt(i)
    {
      BlockSector(v, disk, i);
    }
  }

  lemma BlockSector(v: Volume, disk: seq<Sector>, i: nat)
    requires v.Valid() && IsDisk(v, disk) && i < v.NumBlocks() && DATA_START_SECTOR + 2 + v.NumBlocks() <= TOTAL_SECTORS
    ensures Overlay(disk[ClusterSector(LAYOUT, CLUSTER_CURRENT + i)]) == v.BlockAt(i)
  {
    hide IsBootSector, IsFatSector, FilledWith, Overlay, DirEntries;
    assert IsSector(v, 133 + 2 + i, disk[133 + 2 + i]);
  }

  /** The fields of the `i`-th entry of a directory that starts with these entries. */
  lemma EntryFields(dir: Sector, i: nat, name: seq<Byte>, attr: Byte, cluster: U16, size: U32)
    requires i < 16 && |name| == 11 && dir[32 * i..32 * i + 32] == DirEntry(name, attr, cluster, size)
    ensures dir[32 * i..32 * i + 11] == name && dir[32 * i] == name[0]
    ensures U16At(dir, 32 * i + 26) == cluster && U32At(dir, 32 * i + 28) == size
  {
    hide Le16, Le32;
    var e := DirEntry(name, attr, cluster, size);
    assert e[..11] == name;
    assert e[26..28] == Le16(cluster);
    assert e[28..32] == Le32(size);
    assert forall k :: 0 <= k < 32 ==> dir[32 * i + k] == dir[32 * i..32 * i + 32][k] == e[k];
    assert dir[32 * i..32 * i + 11] == e[..11];
    assert dir[32 * i] == e[0];
    assert dir[32 * i + 26..32 * i + 28] == e[26..28];
    assert dir[32 * i + 28..32 * i + 32] == e[28..32];
    ReadLe16(dir, 32 * i + 26, cluster);
    ReadLe32(dir, 32 * i + 28, size);
  }

  lemma EntriesInPlace(v: Volume, dir: Sector)
    requires v.Valid() && FilledWith(dir, DirEntries(v)) && 0 < v.NumBlocks()
    ensures dir[0..32] == DirEntry(VOLUME_NAME, 0x08, 0, 0)
    ensures dir[32..64] == DirEntry(INFO_NAME, 0x01, CLUSTER_INFO, TextLen(v.infoTxt, 256))
    ensures dir[64..96] == DirEntry(INDEX_NAME, 0x01, CLUSTER_INDEX, TextLen(v.indexHtm, 256))
    ensures dir[96..128] == DirEntry(CURRENT_NAME, 0x01, CLUSTER_CURRENT, v.NumBlocks() * BLOCK_SIZE % WORD)
  {
    hide DirEntry;
    var d := DirEntries(v);
    assert dir[0..32] == d[0..32];
    assert dir[32..64] == d[32..64];
    assert dir[64..96] == d[64..96];
    assert dir[96..128] == d[96..128];
  }

  lemma DirectoryHolds(v: Volume, disk: seq<Sector>)
    requires v.Valid() && IsDisk(v, disk) && 0 < v.NumBlocks() && DATA_START_SECTOR + 2 + v.NumBlocks() <= TOTAL_SECTORS
    ensures Find(disk[129], CURRENT_NAME, 0) == Some((CLUSTER_CURRENT, 512 * v.NumBlocks()))
    ensures Find(disk[129], INFO_NAME, 0) == Some((CLUSTER_INFO, TextLen(v.infoTxt, 256)))
    ensures Find(disk[129], INDEX_NAME, 0) == Some((CLUSTER_INDEX, TextLen(v.indexHtm, 256)))
  {
    hide DirEntry, IsBootSector, IsFatSector, Overlay, U16At, U32At, Find;
    var dir := disk[129];
    var size := v.NumBlocks() * BLOCK_SIZE % WORD;
    assert IsSector(v, 129, dir);
    EntriesInPlace(v, dir);
    EntryFields(dir, 0, VOLUME_NAME, 0x08, 0, 0);
    EntryFields(dir, 1, INFO_NAME, 0x01, CLUSTER_INFO, TextLen(v.infoTxt, 256));
    EntryFields(dir, 2, INDEX_NAME, 0x01, CLUSTER_INDEX, TextLen(v.indexHtm, 256));
    EntryFields(dir, 3, CURRENT_NAME, 0x01, CLUSTER_CURRENT, size);
    assert VOLUME_NAME[10] != INFO_NAME[10] && VOLUME_NAME[10] != INDEX_NAME[10] && VOLUME_NAME[10] != CURRENT_NAME[10];
    assert INFO_NAME[10] != INDEX_NAME[10] && INFO_NAME[10] != CURRENT_NAME[10] && INDEX_NAME[10] != CURRENT_NAME[10];
    Search(dir);
  }

  /** The search passes over entries of other names. */
  lemma Search(dir: Sector)
    requires dir[0..11] == VOLUME_NAME && dir[32..43] == INFO_NAME && dir[64..75] == INDEX_NAME && dir[96..107] == CURRENT_NAME
    requires VOLUME_NAME != INFO_NAME && VOLUME_NAME != INDEX_NAME && VOLUME_NAME != CURRENT_NAME
    requires INFO_NAME != INDEX_NAME && INFO_NAME != CURRENT_NAME && INDEX_NAME != CURRENT_NAME
    requires dir[0] != 0 && dir[32] != 0 && dir[64] != 0 && dir[96] != 0
    ensures Find(dir, INFO_NAME, 0) == Some((U16At(dir, 58), U32At(dir, 60)))
    ensures Find(dir, INDEX_NAME, 0) == Some((U16At(dir, 90), U32At(dir, 92)))
    ensures Find(dir, CURRENT_NAME, 0) == Some((U16At(dir, 122), U32At(dir, 124)))
  {
    assert Find(dir, CURRENT_NAME, 3) == Some((U16At(dir, 122), U32At(dir, 124)));
    assert Find(dir, INDEX_NAME, 2) == Some((U16At(dir, 90), U32At(dir, 92)));
    assert Find(dir, CURRENT_NAME, 2) == Find(dir, CURRENT_NAME, 3);
    assert Find(dir, INFO_NAME, 1) == Some((U16At(dir, 58), U32At(dir, 60)));
    assert Find(dir, INDEX_NAME, 1) == Find(dir, INDEX_NAME, 2);
    assert Find(dir, CURRENT_NAME, 1) == Find(dir, CURRENT_NAME, 2);
  }
}
