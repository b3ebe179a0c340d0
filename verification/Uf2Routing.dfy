/** Which flash region a UF2 block is meant for, and whether the bootloader wants the block at all. */
module Uf2Routing {
  import opened Bytes
  import opened Options
  import opened Uf2Format
  import opened Uf2Tags

  /** A writable region: `struct uf2_region` together with its device's write-block size. */
  datatype Region = Region(base: U32, size: U32, name: Option<seq<Byte>>, addressRouted: bool, writeBlock: nat) {
    predicate Contains(addr: U32) {
      base <= addr < base + size
    }

    predicate Overlaps(other: Region) {
      base < other.base + other.size && other.base < base + size
    }
  }

  /** Legacy single-region mode is the one-entry table whose entry is unnamed and reachable by address. */
  datatype Cfg = Cfg(regions: seq<Region>, familyId: U32, boardId: seq<Byte>, eraseSize: U32)

  /** Region bounds and the erase round-up stay below 2^32; erase sectors and full payloads are made of whole write blocks. */
  predicate ValidCfg(c: Cfg) {
    && 1 <= |c.regions|
    && 0 < c.eraseSize
    && forall i :: 0 <= i < |c.regions| ==> ValidRegion(c.regions[i], c.eraseSize)
  }

  predicate ValidRegion(r: Region, eraseSize: U32)
    requires 0 < eraseSize
  {
    && r.base + r.size < WORD
    && r.size + eraseSize < WORD
    && r.size + PAYLOAD_SIZE < WORD
    && 0 < r.writeBlock && eraseSize % r.writeBlock == 0 && PAYLOAD_SIZE % r.writeBlock == 0
  }

  // ----- searching the table -----

  predicate ByAddress(r: Region, addr: U32) {
    r.addressRouted && r.Contains(addr)
  }

  /** Index of the first region reachable by this address. */
  function RegionAt(regions: seq<Region>, addr: U32): (r: Option<nat>)
    ensures r.Some? ==> r.value < |regions| && ByAddress(regions[r.value], addr) && forall i :: 0 <= i < r.value ==> !ByAddress(regions[i], addr)
    ensures r.None? ==> forall i :: 0 <= i < |regions| ==> !ByAddress(regions[i], addr)
  {
    if regions == [] then None
    else
      var last := |regions| - 1;
      var r := RegionAt(regions[..last], addr);
      if r.Some? then r else if ByAddress(regions[last], addr) then Some(last) else None
  }

  /** Index of the first region with this name. */
  function RegionNamed(regions: seq<Region>, name: seq<Byte>): (r: Option<nat>)
    ensures r.Some? ==> r.value < |regions| && regions[r.value].name == Some(name) && forall i :: 0 <= i < r.value ==> regions[i].name != Some(name)
    ensures r.None? ==> forall i :: 0 <= i < |regions| ==> regions[i].name != Some(name)
  {
    if regions == [] then None
    else
      var last := |regions| - 1;
      var r := RegionNamed(regions[..last], name);
      if r.Some? then r else if regions[last].name == Some(name) then Some(last) else None
  }

  /** `uf2_find_region`. */
  method FindRegion(regions: seq<Region>, addr: U32) returns (r: Option<nat>)
    ensures r == RegionAt(regions, addr)
  {
    var i := 0;
    while i < |regions|
      invariant i <= |regions|
      invariant forall j :: 0 <= j < i ==> !ByAddress(regions[j], addr)
    {
      if regions[i].addressRouted && regions[i].base <= addr && addr < regions[i].base + regions[i].size {
        return Some(i);
      }
      i := i + 1;
    }
    return None;
  }

  /** `uf2_find_region_by_label`. */
  method FindRegionByLabel(regions: seq<Region>, name: seq<Byte>) returns (r: Option<nat>)
    ensures r == RegionNamed(regions, name)
  {
    var i := 0;
    while i < |regions|
      invariant i <= |regions|
      invariant forall j :: 0 <= j < i ==> regions[j].name != Some(name)
    {
      if regions[i].name.Some? && |regions[i].name.value| == |name| && regions[i].name.value == name {
        return Some(i);
      }
      i := i + 1;
    }
    return None;
  }

  /** Where a block goes: the named region if it carries a partition tag, else the region at its address;
      either way the region contains the address. */
  function RouteOf(regions: seq<Region>, b: Block): (r: Option<nat>)
    ensures r.Some? ==> r.value < |regions| && regions[r.value].Contains(b.targetAddr)
  {
    match FindTag(b, TAG_PARTITION)
    case Found(name) =>
      var r := RegionNamed(regions, name);
      if r.Some? && regions[r.value].Contains(b.targetAddr) then r else None
    case Absent => RegionAt(regions, b.targetAddr)
    case _ => None
  }

  /** `uf2_route_block`. */
  method RouteBlock(regions: seq<Region>, b: Block) returns (r: Option<nat>)
    ensures r == RouteOf(regions, b)
  {
    var tag := FindExtTag(b, TAG_PARTITION);
    if tag.Malformed? || tag.OutOfField? {
      return None;
    }
    if tag.Found? {
      var named := FindRegionByLabel(regions, tag.payload);
      if named.None? {
        return None;
      }
      if b.targetAddr < regions[named.value].base || b.targetAddr >= regions[named.value].base + regions[named.value].size {
        return None;
      }
      return named;
    }
    r := FindRegion(regions, b.targetAddr);
  }

  // ----- what a block's own contents decide -----

  /** `Ignore` returns 0, `Reject` returns -1, `Target` goes on to the receiver's state. */
  datatype Verdict = Ignore | Reject | Target(region: nat, offset: nat)

  predicate FamilyMatches(c: Cfg, b: Block) {
    c.familyId == 0 || (b.HasFamily() && b.familyId == c.familyId)
  }

  predicate BoardMatches(c: Cfg, b: Block) {
    c.boardId == [] || FindTag(b, TAG_BOARD_ID) == Found(c.boardId)
  }

  predicate Numbered(b: Block, maxBlocks: U32) {
    b.blockNo < b.numBlocks <= maxBlocks
  }

  function Screen(c: Cfg, maxBlocks: U32, b: Block): (v: Verdict)
    ensures v.Target? ==>
              && b.HasMagic() && FamilyMatches(c, b) && BoardMatches(c, b) && Numbered(b, maxBlocks)
              && 0 < b.payloadSize <= PAYLOAD_SIZE
              && v.region < |c.regions| <= MAX_REGIONS
              && c.regions[v.region].base + v.offset == b.targetAddr
              && v.offset + b.payloadSize <= c.regions[v.region].size
  {
    if !b.HasMagic() || |c.regions| > MAX_REGIONS then Reject
    else if !FamilyMatches(c, b) || !BoardMatches(c, b) then Ignore
    else if !Numbered(b, maxBlocks) || b.payloadSize == 0 || b.payloadSize > PAYLOAD_SIZE then Reject
    else
      match RouteOf(c.regions, b)
      case None => Reject
      case Some(r) =>
        var offset := b.targetAddr - c.regions[r].base;
        if offset + b.payloadSize > c.regions[r].size then Reject else Target(r, offset)
  }

  /** Which of the three outcomes a block meets, each in both directions. */
  lemma ScreenDecides(c: Cfg, maxBlocks: U32, b: Block)
    ensures
      var v, route := Screen(c, maxBlocks, b), RouteOf(c.regions, b);
      var looksRight := b.HasMagic() && |c.regions| <= MAX_REGIONS;
      var meant := FamilyMatches(c, b) && BoardMatches(c, b);
      var stores := Numbered(b, maxBlocks) && 0 < b.payloadSize <= PAYLOAD_SIZE && route.Some?
                    && b.targetAddr + b.payloadSize <= c.regions[route.value].base + c.regions[route.value].size;
      && (v.Ignore? <==> looksRight && !meant)
      && (v.Target? <==> looksRight && meant && stores)
      && (v.Reject? <==> !looksRight || (meant && !stores))
      && (v.Target? ==> v.region == route.value && c.regions[v.region].base + v.offset == b.targetAddr)
  {
    hide RouteOf, FindTag;
  }

  /** A well-formed block for this board is ignored for its family exactly when the bootloader has a family and the block
      does not carry it, flag and number. */
  lemma FamilyIgnores(c: Cfg, maxBlocks: U32, b: Block)
    requires b.HasMagic() && |c.regions| <= MAX_REGIONS && BoardMatches(c, b)
    ensures Screen(c, maxBlocks, b) == Ignore <==> c.familyId != 0 && (!b.HasFamily() || b.familyId != c.familyId)
  {
    hide RouteOf, FindTag;
  }

  /** The rule as documented: only two different non-zero family ids are a mismatch. */
  predicate DocumentedMatch(c: Cfg, b: Block) {
    c.familyId == 0 || !b.HasFamily() || b.familyId == 0 || b.familyId == c.familyId
  }

  /** The code and the documented rule part ways exactly on blocks that name no family, given to a bootloader that has one. */
  lemma FamilyRulesDiffer(c: Cfg, b: Block)
    ensures FamilyMatches(c, b) != DocumentedMatch(c, b) <==> c.familyId != 0 && (!b.HasFamily() || b.familyId == 0)
    ensures FamilyMatches(c, b) ==> DocumentedMatch(c, b)
  {
  }

  /** Such as this block, which carries no flag at all. */
  lemma UnflaggedBlockIgnored(c: Cfg, maxBlocks: U32, addr: U32)
    requires c.familyId != 0 && c.boardId == [] && |c.regions| <= MAX_REGIONS
    ensures
      var b := Block(MAGIC_START0, MAGIC_START1, 0, addr, 256, 0, 1, 0, Fill(DATA_SIZE, 0), MAGIC_END);
      Screen(c, maxBlocks, b) == Ignore && DocumentedMatch(c, b)
  {
    var b := Block(MAGIC_START0, MAGIC_START1, 0, addr, 256, 0, 1, 0, Fill(DATA_SIZE, 0), MAGIC_END);
    assert !b.HasFamily();
    FamilyIgnores(c, maxBlocks, b);
  }

  // ----- building the table -----

  /** Regions reachable by address never overlap each other. */
  predicate RoutedDisjoint(regions: seq<Region>) {
    forall i, j :: 0 <= i < j < |regions| && regions[i].addressRouted && regions[j].addressRouted ==> !regions[i].Overlaps(regions[j])
  }

  /** A flash area as `flash_area_open` hands it out; `openRc` is that call's return code. */
  datatype FlashArea = FlashArea(openRc: int, off: U32, size: U32, device: Option<nat>, writeBlock: nat)

  const ENOSPC: int := 28
  const EINVAL: int := 22

  /** `uf2_disk.c`'s static region table, filled by `uf2_disk_add_region`. */
  class RegionTable {
    var regions: seq<Region>
    var primaryDevice: Option<nat>

    predicate Valid()
      reads this
    {
      |regions| <= MAX_REGIONS && RoutedDisjoint(regions)
    }

    constructor ()
      ensures Valid() && regions == []
    {
      regions := [];
      primaryDevice := None;
    }

    /** The entry this area would get: reachable by address when it is the first one or shares the first one's device. */
    function Entry(area: FlashArea, areaName: seq<Byte>): (r: Region)
      reads this
    {
      Region(area.off, area.size, Some(areaName), regions == [] || (primaryDevice.Some? && area.device == primaryDevice), area.writeBlock)
    }

    method Add(area: FlashArea, areaName: seq<Byte>) returns (rc: int)
      requires Valid()
      modifies this
      ensures Valid()
      ensures rc == 0 ==> regions == old(regions) + [old(Entry(area, areaName))]
      ensures rc != 0 ==> regions == old(regions) && primaryDevice == old(primaryDevice)
      ensures old(regions) != [] ==> primaryDevice == old(primaryDevice)
      ensures rc == 0 && old(regions) == [] ==> primaryDevice == area.device
      ensures rc == 0 <==>
              && |old(regions)| < MAX_REGIONS && area.openRc == 0
              && forall i :: 0 <= i < |old(regions)| && old(regions)[i].addressRouted && old(Entry(area, areaName)).addressRouted ==> !old(regions)[i].Overlaps(old(Entry(area, areaName)))
    {
      if |regions| >= MAX_REGIONS {
        return -ENOSPC;
      }
      if area.openRc != 0 {
        return area.openRc;
      }
      var entry := Entry(area, areaName);
      var i := 0;
      while i < |regions|
        invariant i <= |regions|
        invariant forall j :: 0 <= j < i && regions[j].addressRouted && entry.addressRouted ==> !regions[j].Overlaps(entry)
      {
        if entry.addressRouted && regions[i].addressRouted &&
           entry.base < regions[i].base + regions[i].size && regions[i].base < entry.base + entry.size {
          return -EINVAL;
        }
        i := i + 1;
      }
      if regions == [] {
        primaryDevice := area.device;
      }
      regions := regions + [entry];
      return 0;
    }
  }

  /** In such a table at most one region answers an address, so the search order cannot matter. */
  lemma OnlyRegionAt(regions: seq<Region>, addr: U32, i: nat)
    requires RoutedDisjoint(regions)
    requires i < |regions| && ByAddress(regions[i], addr)
    ensures RegionAt(regions, addr) == Some(i)
  {
    var r := RegionAt(regions, addr);
    if r.value < i {
      assert regions[r.value].Overlaps(regions[i]);
    }
  }

  /** Reordering the table does not change which region an untagged block reaches. */
  lemma RoutingIgnoresOrder(t1: seq<Region>, t2: seq<Region>, addr: U32)
    requires RoutedDisjoint(t1) && RoutedDisjoint(t2)
    requires multiset(t1) == multiset(t2)
    ensures RegionAt(t1, addr).Some? <==> RegionAt(t2, addr).Some?
    ensures RegionAt(t1, addr).Some? ==> t1[RegionAt(t1, addr).value] == t2[RegionAt(t2, addr).value]
  {
    SameRegionIn(t1, t2, addr);
    SameRegionIn(t2, t1, addr);
  }

  lemma SameRegionIn(t1: seq<Region>, t2: seq<Region>, addr: U32)
    requires RoutedDisjoint(t2)
    requires multiset(t1) == multiset(t2)
    ensures RegionAt(t1, addr).Some? ==>
              RegionAt(t2, addr).Some? && t1[RegionAt(t1, addr).value] == t2[RegionAt(t2, addr).value]
  {
    var r := RegionAt(t1, addr);
    if r.Some? {
      assert t1[r.value] in multiset(t2);
      var j :| 0 <= j < |t2| && t2[j] == t1[r.value];
      OnlyRegionAt(t2, addr, j);
    }
  }
}
