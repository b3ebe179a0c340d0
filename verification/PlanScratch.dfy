/** Planning a board's partitions from scratch: one method for each topology of internal and external flash. */
module PlanScratch {
  import opened Partitions

  const MCUBOOT_SIZE: nat := 128 * KB

  /** The whole largest-erase sectors that are left after the bootloader. */
  function Slot0Space(soc: Device, ext: Device): (n: int)
    requires soc.erase > 0 && ext.erase > 0
  {
    AlignDown(soc.size - AlignUp(MCUBOOT_SIZE, soc.erase), Max(soc.erase, ext.erase))
  }

  /** What rounding leaves of the internal device is enough for storage. */
  predicate StorageStays(soc: Device, ext: Device)
    requires soc.erase > 0 && ext.erase > 0
  {
    soc.size - AlignUp(MCUBOOT_SIZE, soc.erase) - Slot0Space(soc, ext) >= AlignUp(STORAGE_SIZE, soc.erase)
  }

  /** What the two-slot layout needs of the external device. */
  function TwoSlotNeeds(soc: Device, ext: Device, dataFlash: bool, overwriteOnly: bool): (n: int)
    requires soc.erase > 0 && ext.erase > 0
  {
    (if StorageStays(soc, ext) then 0 else AlignUp(STORAGE_SIZE, ext.erase)) + (if dataFlash then 0 else ext.erase) +
    Slot0Space(soc, ext) + (if overwriteOnly then 0 else Max(soc.erase, ext.erase))
  }

  /** Bootloader and first slot internal, second slot and filesystem external. */
  method PlanTwoSlot(soc: Device, ext: Device, dataFlash: bool, overwriteOnly: bool) returns (i: Planned, e: Planned)
    requires Compatible(soc.erase, ext.erase)
    requires soc.size - AlignUp(MCUBOOT_SIZE, soc.erase) >= SLOT0_MIN_SIZE
    ensures i.dev == soc && e.dev == ext && Laid(i)
    ensures Laid(e) <==> TwoSlotNeeds(soc, ext, dataFlash, overwriteOnly) <= ext.size
    // Each partition is planned once, storage on one device or the other.
    ensures Names(i.parts) == [Boot, Slot0] + if StorageStays(soc, ext) then [Storage] else []
    ensures Names(e.parts) ==
            (if StorageStays(soc, ext) then [] else [Storage]) + (if dataFlash then [] else [Nvm]) + [Slot1, Filesystem]
    // Slot 0 takes all the largest-erase sectors there are; slot 1 has one more for the swap.
    ensures |i.parts| >= 2 && i.parts[0].off == 0 && i.parts[1].name == Slot0
            && 0 <= soc.size - i.parts[1].End() < Max(soc.erase, ext.erase)
    ensures |e.parts| >= 2 && e.parts[|e.parts| - 2].name == Slot1
            && e.parts[|e.parts| - 2].size == i.parts[1].size + if overwriteOnly then 0 else Max(soc.erase, ext.erase)
  {
    hide Names, Laid, Filled, AlignUp, AlignDown;
    var largest: nat := Max(soc.erase, ext.erase);
    var bootSize := AlignUp(MCUBOOT_SIZE, soc.erase);
    var slot0 := AlignDown(soc.size - bootSize, largest);
    assert slot0 >= 0 by {
      ModUnique(0, largest, 0, 0);
      AlignDownGreatest(soc.size - bootSize, largest, 0);
    }
    var intParts := [Part(Boot, 0, bootSize), Part(Slot0, bootSize, slot0)];
    ghost var cursor := bootSize + slot0;
    SlotSizes(slot0, soc.erase, ext.erase);
    InternalPair(intParts, soc.erase, bootSize, slot0);

    var leftover := soc.size - (bootSize + slot0);
    var storage := AlignUp(STORAGE_SIZE, soc.erase);
    var storageStays := leftover >= storage;
    if storageStays {
      var p := Part(Storage, bootSize + slot0, storage);
      Append(intParts, soc.erase, cursor, p);
      intParts := intParts + [p];
      cursor := p.End();
    }
    i := Planned(soc, intParts);
    FilledIsLaid(i, cursor);
    e := ExternalOfTwoSlot(ext, storageStays, dataFlash, slot0 + if overwriteOnly then 0 else largest);
  }

  /** The external part: storage and NVM where they are not elsewhere, then the second slot, then the filesystem. */
  method ExternalOfTwoSlot(ext: Device, storageElsewhere: bool, dataFlash: bool, slot1: int) returns (e: Planned)
    requires ext.erase > 0 && slot1 >= 0 && slot1 % ext.erase == 0
    ensures e.dev == ext
    ensures
      var needs := (if storageElsewhere then 0 else AlignUp(STORAGE_SIZE, ext.erase)) + (if dataFlash then 0 else ext.erase) + slot1;
      Laid(e) <==> needs <= ext.size
    ensures Names(e.parts) ==
            (if storageElsewhere then [] else [Storage]) + (if dataFlash then [] else [Nvm]) + [Slot1, Filesystem]
    ensures |e.parts| >= 2 && e.parts[|e.parts| - 2] == Part(Slot1, e.parts[|e.parts| - 2].off, slot1)
  {
    hide Names, Laid, Filled, AlignUp, AlignDown;
    var nvmSize := if dataFlash then 0 else ext.erase;
    var storage, nvmOff, slot1Off := 0, 0, nvmSize;
    Units(ext.erase);
    if !storageElsewhere {
      storage := AlignUp(STORAGE_SIZE, ext.erase);
      nvmOff := storage;
      slot1Off := nvmOff + nvmSize;
      AlignedSum(storage, nvmSize, ext.erase);
    }
    AlignedFixed(slot1Off, ext.erase);
    slot1Off := AlignUp(slot1Off, ext.erase);
    AlignedSum(slot1Off, slot1, ext.erase);
    AlignedFixed(slot1Off + slot1, ext.erase);
    var fsOff := AlignUp(slot1Off + slot1, ext.erase);
    var fsSize := AlignDown(ext.size - fsOff, ext.erase);
    var parts: seq<Part> := [];
    ghost var cursor := 0;
    EmptyFilled(ext.erase);
    if !storageElsewhere {
      var p := Part(Storage, 0, storage);
      Append(parts, ext.erase, cursor, p);
      parts := parts + [p];
      cursor := p.End();
    }
    if !dataFlash {
      var p := Part(Nvm, nvmOff, nvmSize);
      Append(parts, ext.erase, cursor, p);
      parts := parts + [p];
      cursor := p.End();
    }
    assert cursor == slot1Off;
    var s := Part(Slot1, slot1Off, slot1);
    Append(parts, ext.erase, cursor, s);
    var f := Part(Filesystem, fsOff, fsSize);
    e := Planned(ext, parts + [s] + [f]);
    FilesystemLast(ext, parts + [s], f);
    assert e.parts[|e.parts| - 2] == s;
  }

  /** With the rest of the device as a last partition, the layout is right exactly when something is left, if only nothing. */
  lemma FilesystemLast(dev: Device, ps: seq<Part>, f: Part)
    requires dev.erase > 0 && Filled(ps, dev.erase, f.off) && f.size == AlignDown(dev.size - f.off, dev.erase)
    ensures Laid(Planned(dev, ps + [f])) <==> f.off <= dev.size
    ensures f.off <= dev.size ==> 0 <= f.size && 0 <= dev.size - f.End() < dev.erase
    ensures Names(ps + [f]) == Names(ps) + [f.name]
  {
    NamesAppend(ps, f);
    var p := Planned(dev, ps + [f]);
    assert p.parts[|ps|] == f;
    if f.off <= dev.size {
      Units(dev.erase);
      AlignDownGreatest(dev.size - f.off, dev.erase, 0);
      Append(ps, dev.erase, f.off, f);
      FilledIsLaid(p, f.End());
    }
  }

  lemma Units(erase: nat)
    requires erase > 0
    ensures 0 % erase == 0 && erase % erase == 0
  {
    ModUnique(0, erase, 0, 0);
    ModUnique(erase, erase, 1, 0);
  }

  lemma EmptyFilled(erase: nat)
    requires erase > 0
    ensures Filled([], erase, 0) && Names([]) == []
  {
    Units(erase);
  }

  lemma SlotSizes(slot0: int, a: nat, b: nat)
    requires Compatible(a, b) && slot0 % Max(a, b) == 0
    ensures slot0 % a == 0 && slot0 % b == 0 && (slot0 + Max(a, b)) % b == 0
  {
    LargestServesBoth(slot0, a, b);
    Units(Max(a, b));
    LargestServesBoth(Max(a, b), a, b);
    AlignedSum(slot0, Max(a, b), b);
  }

  lemma InternalPair(ps: seq<Part>, erase: nat, boot: int, slot0: int)
    requires erase > 0 && boot >= 0 && slot0 >= 0 && boot % erase == 0 && slot0 % erase == 0
    requires ps == [Part(Boot, 0, boot), Part(Slot0, boot, slot0)]
    ensures Filled(ps, erase, boot + slot0) && Names(ps) == [Boot, Slot0]
  {
    Units(erase);
    AlignedSum(boot, slot0, erase);
    assert Names(ps[..1]) == Names([]) + [Boot];
  }

  // ----- slots on the external device -----

  /** An eighth of the device and at most 2 MB; when above 1 MB, shrunk so that the filesystem keeps 1 MB. */
  function SlotSize(ext: Device, boot: int, tail: int): (n: int)
    requires ext.erase > 0
    ensures n % ext.erase == 0 && 0 <= n <= 2 * MB && 8 * n <= ext.size
    ensures MB < Eighth(ext) && boot + tail + AlignUp(MB, ext.erase) + 2 * ext.erase <= ext.size ==>
              boot + 2 * n + tail + AlignUp(MB, ext.erase) <= ext.size
  {
    Units(ext.erase);
    var slot := Eighth(ext);
    if slot > MB then
      var most := AlignDown((ext.size - boot - tail - AlignUp(MB, ext.erase)) / 2, ext.erase);
      Min(slot, Max(most, ext.erase))
    else slot
  }

  function Eighth(ext: Device): (n: int)
    requires ext.erase > 0
    ensures n % ext.erase == 0 && 0 <= n <= 2 * MB && 8 * n <= ext.size
  {
    Units(ext.erase);
    AlignDownGreatest(ext.size / 8, ext.erase, 0);
    AlignDownGreatest(2 * MB, ext.erase, 0);
    Min(AlignDown(ext.size / 8, ext.erase), AlignDown(2 * MB, ext.erase))
  }

  function XipBoot(ext: Device): (n: int)
    requires ext.erase > 0
  {
    AlignUp(MCUBOOT_SIZE * 2, ext.erase)
  }

  function Tail(ext: Device, dataFlash: bool): (n: int)
    requires ext.erase > 0
  {
    AlignUp(STORAGE_SIZE, ext.erase) + if dataFlash then 0 else ext.erase
  }

  /** Everything on one external device. */
  method PlanExternalOnly(ext: Device) returns (e: Planned)
    requires ext.erase > 0
    ensures e.dev == ext && |e.parts| == 6 && e.parts[1].size == e.parts[2].size
    ensures MB < Eighth(ext) && XipBoot(ext) + Tail(ext, false) + AlignUp(MB, ext.erase) + 2 * ext.erase <= ext.size ==>
              e.parts[5].size >= MB
    ensures Laid(e) <==> XipBoot(ext) + 2 * SlotSize(ext, XipBoot(ext), Tail(ext, false)) + Tail(ext, false) <= ext.size
    ensures Names(e.parts) == [Boot, Slot0, Slot1, Storage, Nvm, Filesystem]
  {
    hide Names, Laid, Filled, AlignUp, AlignDown, SlotSize;
    var boot := AlignUp(MCUBOOT_SIZE * 2, ext.erase);
    var storage := AlignUp(STORAGE_SIZE, ext.erase);
    var slot := SlotSize(ext, boot, storage + ext.erase);
    var ps: seq<Part> := [];
    EmptyFilled(ext.erase);
    Units(ext.erase);
    ps := Add(ps, ext.erase, 0, Boot, boot);
    ps := Add(ps, ext.erase, boot, Slot0, slot);
    ps := Add(ps, ext.erase, boot + slot, Slot1, slot);
    ps := Add(ps, ext.erase, boot + 2 * slot, Storage, storage);
    ps := Add(ps, ext.erase, boot + 2 * slot + storage, Nvm, ext.erase);
    var fsOff := boot + 2 * slot + storage + ext.erase;
    var f := Part(Filesystem, fsOff, AlignDown(ext.size - fsOff, ext.erase));
    FilesystemLast(ext, ps, f);
    e := Planned(ext, ps + [f]);
    NamesLength(ps);
    if boot + 2 * slot + storage + ext.erase + AlignUp(MB, ext.erase) <= ext.size {
      AlignDownGreatest(ext.size - fsOff, ext.erase, AlignUp(MB, ext.erase));
    }
  }

  /** The next partition at the cursor. */
  method Add(ps: seq<Part>, erase: nat, cursor: int, name: Name, size: int) returns (r: seq<Part>)
    requires erase > 0 && Filled(ps, erase, cursor) && size >= 0 && size % erase == 0
    ensures r == ps + [Part(name, cursor, size)] && Filled(r, erase, cursor + size) && Names(r) == Names(ps) + [name]
  {
    r := ps + [Part(name, cursor, size)];
    Append(ps, erase, cursor, Part(name, cursor, size));
  }

  lemma {:induction false} NamesLength(ps: seq<Part>)
    ensures |Names(ps)| == |ps|
  {
    if ps != [] {
      NamesLength(ps[..|ps| - 1]);
    }
  }

  /** The internal device holds the bootloader alone; everything else is external. */
  method PlanTinyInternal(soc: Device, ext: Device, dataFlash: bool, secondSlot: bool) returns (i: Planned, e: Planned)
    requires soc.erase > 0 && ext.erase > 0
    ensures i.dev == soc && e.dev == ext && Names(i.parts) == [Boot]
    ensures Laid(i) <==> AlignUp(MCUBOOT_SIZE, soc.erase) <= soc.size
    ensures [Slot0] + (if secondSlot then [Slot1] else []) + [Storage] + (if dataFlash then [] else [Nvm]) <= Names(e.parts)
    ensures Laid(e) <==> (if secondSlot then 2 else 1) * SlotSize(ext, 0, Tail(ext, dataFlash)) + Tail(ext, dataFlash) <= ext.size
  {
    hide Names, Laid, Filled, AlignUp, AlignDown, SlotSize;
    var bootSize := AlignUp(MCUBOOT_SIZE, soc.erase);
    i := Planned(soc, [Part(Boot, 0, bootSize)]);
    OnlyPart(i);
    e := ExternalOfTiny(ext, dataFlash, secondSlot);
  }

  method ExternalOfTiny(ext: Device, dataFlash: bool, secondSlot: bool) returns (e: Planned)
    requires ext.erase > 0
    ensures e.dev == ext
    ensures [Slot0] + (if secondSlot then [Slot1] else []) + [Storage] + (if dataFlash then [] else [Nvm]) <= Names(e.parts)
    ensures Laid(e) <==> (if secondSlot then 2 else 1) * SlotSize(ext, 0, Tail(ext, dataFlash)) + Tail(ext, dataFlash) <= ext.size
  {
    hide Names, Laid, Filled, AlignUp, AlignDown, SlotSize;
    var storage := AlignUp(STORAGE_SIZE, ext.erase);
    var slot := SlotSize(ext, 0, storage + if dataFlash then 0 else ext.erase);
    EmptyFilled(ext.erase);
    Units(ext.erase);
    var ps := Add([], ext.erase, 0, Slot0, slot);
    var cursor := slot;
    if secondSlot {
      ps := Add(ps, ext.erase, cursor, Slot1, slot);
      cursor := cursor + slot;
    }
    ps := Add(ps, ext.erase, cursor, Storage, storage);
    cursor := cursor + storage;
    if !dataFlash {
      ps := Add(ps, ext.erase, cursor, Nvm, ext.erase);
      FilledCursor(ps, ext.erase, cursor + ext.erase);
      cursor := AlignUp(cursor + ext.erase, ext.erase);
    }
    e := WithFilesystem(ext, ps, cursor);
  }

  /** The rest of the device becomes the filesystem, if there is any. */
  method WithFilesystem(dev: Device, ps: seq<Part>, cursor: int) returns (p: Planned)
    requires dev.erase > 0 && Filled(ps, dev.erase, cursor) && ps != [] && ps[|ps| - 1].End() == cursor
    ensures p.dev == dev && Names(ps) <= Names(p.parts)
    ensures Laid(p) <==> cursor <= dev.size
  {
    hide Names, Laid, Filled, AlignDown;
    LastBounds(dev, ps, cursor);
    var fs := AlignDown(dev.size - cursor, dev.erase);
    p := Planned(dev, ps);
    if fs > 0 {
      var f := Part(Filesystem, cursor, fs);
      FilesystemLast(dev, ps, f);
      p := Planned(dev, ps + [f]);
    }
  }

  lemma FilledCursor(ps: seq<Part>, erase: nat, cursor: int)
    requires erase > 0 && Filled(ps, erase, cursor)
    ensures AlignUp(cursor, erase) == cursor
  {
    AlignedFixed(cursor, erase);
  }

  lemma OnlyPart(p: Planned)
    requires p.dev.erase > 0 && |p.parts| == 1 && p.parts[0].off == 0 && p.parts[0].size >= 0 && p.parts[0].size % p.dev.erase == 0
    ensures Names(p.parts) == [p.parts[0].name]
    ensures Laid(p) <==> p.parts[0].size <= p.dev.size
  {
    Units(p.dev.erase);
    assert Names([]) == [] && p.parts == [p.parts[0]];
  }

  /** Partitions filled up to the end of the last one are right exactly when the cursor is inside. */
  lemma LastBounds(dev: Device, ps: seq<Part>, cursor: int)
    requires dev.erase > 0 && Filled(ps, dev.erase, cursor) && ps != [] && ps[|ps| - 1].End() == cursor
    ensures Laid(Planned(dev, ps)) <==> cursor <= dev.size
  {
    if cursor <= dev.size {
      FilledIsLaid(Planned(dev, ps), cursor);
    } else {
      assert !Inside(ps[|ps| - 1], dev);
    }
  }

  /** No second slot: the internal device up to the application tail is slot 0, the external one is the filesystem. */
  method PlanSingleApp(soc: Device, ext: Device, dataFlash: bool) returns (i: Planned, e: Planned)
    requires soc.erase > 0 && ext.erase > 0
    ensures i.dev == soc && e.dev == ext && Laid(e) && Names(e.parts) == [Filesystem]
    ensures Names(i.parts) == [Boot, Slot0, Storage] + if dataFlash then [] else [Nvm]
    ensures Laid(i) <==> AlignUp(MCUBOOT_SIZE, soc.erase) + Tail(soc, dataFlash) <= soc.size
  {
    hide Names, Laid, Filled, AlignUp, AlignDown;
    var boot := AlignUp(MCUBOOT_SIZE, soc.erase);
    var storage := AlignUp(STORAGE_SIZE, soc.erase);
    var nvm := if !dataFlash then soc.erase else 0;
    var slot0 := AlignDown(soc.size - boot - storage - nvm, soc.erase);
    var ps := [Part(Boot, 0, boot), Part(Slot0, boot, slot0)];
    ps := ps + [Part(Storage, boot + slot0, storage)];
    if nvm != 0 {
      ps := ps + [Part(Nvm, boot + slot0 + storage, nvm)];
    }
    i := Planned(soc, ps);
    SingleAppLaid(i, boot, slot0, storage, nvm);

    e := Planned(ext, [Part(Filesystem, 0, AlignDown(ext.size, ext.erase))]);
    Units(ext.erase);
    AlignDownGreatest(ext.size, ext.erase, 0);
    OnlyPart(e);
  }

  lemma SingleAppLaid(p: Planned, boot: int, slot0: int, storage: int, nvm: int)
    requires p.dev.erase > 0 && boot >= 0 && storage >= 0 && boot % p.dev.erase == 0 && storage % p.dev.erase == 0
    requires (nvm == 0 || nvm == p.dev.erase) && slot0 == AlignDown(p.dev.size - boot - storage - nvm, p.dev.erase)
    requires p.parts == [Part(Boot, 0, boot), Part(Slot0, boot, slot0), Part(Storage, boot + slot0, storage)] +
                        if nvm != 0 then [Part(Nvm, boot + slot0 + storage, nvm)] else []
    ensures Names(p.parts) == [Boot, Slot0, Storage] + if nvm != 0 then [Nvm] else []
    ensures Laid(p) <==> boot + storage + nvm <= p.dev.size
  {
    hide AlignDown, Filled, Laid, Names;
    var erase, pair := p.dev.erase, [Part(Boot, 0, boot), Part(Slot0, boot, slot0)];
    Units(erase);
    FrontNames(p.parts, boot, slot0, storage, nvm);
    var three := pair + [Part(Storage, boot + slot0, storage)];
    assert p.parts[1] == pair[1];
    if boot + storage + nvm <= p.dev.size {
      AlignDownGreatest(p.dev.size - boot - storage - nvm, erase, 0);
      InternalPair(pair, erase, boot, slot0);
      Append(pair, erase, boot + slot0, three[2]);
      if nvm != 0 {
        Append(three, erase, boot + slot0 + storage, p.parts[3]);
      } else {
        assert p.parts == three;
      }
      FilledIsLaid(p, boot + slot0 + storage + nvm);
    } else {
      NegativeNotLaid(p, 1);
    }
  }

  /** Everything on the internal device: half of what is left for slot 0, the rest for the filesystem. */
  method PlanInternalOnly(soc: Device, dataFlash: bool) returns (i: Planned)
    requires soc.erase > 0
    ensures i.dev == soc && |i.parts| >= 4
    ensures Laid(i) ==> i.parts[1].size <= i.parts[|i.parts| - 1].size + soc.erase
    ensures Laid(i) <==> AlignUp(MCUBOOT_SIZE, soc.erase) + Tail(soc, dataFlash) <= soc.size
    ensures Names(i.parts) == [Boot, Slot0, Storage] + (if dataFlash then [] else [Nvm]) + [Filesystem]
  {
    hide Names, Laid, Filled, AlignUp, AlignDown;
    var boot := AlignUp(MCUBOOT_SIZE, soc.erase);
    var storage := AlignUp(STORAGE_SIZE, soc.erase);
    var nvm := if !dataFlash then soc.erase else 0;
    var remaining := soc.size - boot - storage - nvm;
    var slot0 := AlignDown(remaining / 2, soc.erase);
    var storageOff := boot + slot0;
    var nvmOff := storageOff + storage;
    var fsOff := nvmOff + nvm;
    var fs := AlignDown(soc.size - fsOff, soc.erase);
    var ps := [Part(Boot, 0, boot), Part(Slot0, boot, slot0), Part(Storage, storageOff, storage)];
    if nvm > 0 {
      ps := ps + [Part(Nvm, nvmOff, nvm)];
    }
    ps := ps + [Part(Filesystem, fsOff, fs)];
    i := Planned(soc, ps);
    InternalLaid(i, boot, slot0, storage, nvm);
  }

  lemma InternalLaid(p: Planned, boot: int, slot0: int, storage: int, nvm: int)
    requires p.dev.erase > 0 && boot >= 0 && storage >= 0 && boot % p.dev.erase == 0 && storage % p.dev.erase == 0
    requires (nvm == 0 || nvm == p.dev.erase) && slot0 == AlignDown((p.dev.size - boot - storage - nvm) / 2, p.dev.erase)
    requires
      var fsOff := boot + slot0 + storage + nvm;
      p.parts == [Part(Boot, 0, boot), Part(Slot0, boot, slot0), Part(Storage, boot + slot0, storage)] +
                 (if nvm != 0 then [Part(Nvm, boot + slot0 + storage, nvm)] else []) +
                 [Part(Filesystem, fsOff, AlignDown(p.dev.size - fsOff, p.dev.erase))]
    ensures Names(p.parts) == [Boot, Slot0, Storage] + (if nvm != 0 then [Nvm] else []) + [Filesystem]
    ensures Laid(p) <==> boot + storage + nvm <= p.dev.size
    ensures Laid(p) ==> p.parts[1].size <= p.parts[|p.parts| - 1].size + p.dev.erase
  {
    hide AlignDown, Filled, Laid, Names;
    var erase, remaining := p.dev.erase, p.dev.size - boot - storage - nvm;
    var pair := [Part(Boot, 0, boot), Part(Slot0, boot, slot0)];
    var f := p.parts[|p.parts| - 1];
    var front := p.parts[..|p.parts| - 1];
    Units(erase);
    FrontNames(front, boot, slot0, storage, nvm);
    NamesAppend(front, f);
    assert front + [f] == p.parts;
    if remaining >= 0 {
      AlignDownGreatest(remaining / 2, erase, 0);
      InternalPair(pair, erase, boot, slot0);
      var three := pair + [Part(Storage, boot + slot0, storage)];
      Append(pair, erase, boot + slot0, three[2]);
      if nvm != 0 {
        Append(three, erase, boot + slot0 + storage, front[3]);
      } else {
        assert front == three;
      }
      FilesystemLast(p.dev, front, f);
    } else {
      assert p.parts[1] == pair[1];
      NegativeNotLaid(p, 1);
    }
  }

  lemma NegativeNotLaid(p: Planned, i: nat)
    requires p.dev.erase > 0 && i < |p.parts| && p.parts[i].size < 0
    ensures !Laid(p)
  {
    assert !Inside(p.parts[i], p.dev);
  }

  lemma FrontNames(front: seq<Part>, boot: int, slot0: int, storage: int, nvm: int)
    requires front == [Part(Boot, 0, boot), Part(Slot0, boot, slot0), Part(Storage, boot + slot0, storage)] +
                      if nvm != 0 then [Part(Nvm, boot + slot0 + storage, nvm)] else []
    ensures Names(front) == [Boot, Slot0, Storage] + if nvm != 0 then [Nvm] else []
  {
    assert Names([]) == [];
    NamesAppend([], front[0]);
    NamesAppend([front[0]], front[1]);
    NamesAppend([front[0], front[1]], front[2]);
    assert [] + [front[0]] == [front[0]] && [front[0]] + [front[1]] == [front[0], front[1]];
    var three := [front[0], front[1]] + [front[2]];
    if nvm != 0 {
      NamesAppend(three, front[3]);
      assert three + [front[3]] == front;
    } else {
      assert three == front;
    }
  }

  // ----- the whole board -----

  datatype Flash = Flash(dev: Device, internal: bool)

  /** Small internal flash is data flash; small external flash is left alone. */
  datatype Role = DataFlash | Internal | External | Unused

  function RoleOf(f: Flash): (r: Role) {
    if f.internal then if f.dev.size < 64 * KB then DataFlash else Internal
    else if f.dev.size >= MB then External else Unused
  }

  /** The first device of a role. */
  function First(fs: seq<Flash>, r: Role): (i: int)
    ensures -1 <= i < |fs|
    ensures i >= 0 ==> RoleOf(fs[i]) == r
    ensures forall k :: 0 <= k < (if i < 0 then |fs| else i) ==> RoleOf(fs[k]) != r
  {
    if fs == [] then -1
    else
      var i := First(fs[..|fs| - 1], r);
      if i >= 0 then i else if RoleOf(fs[|fs| - 1]) == r then |fs| - 1 else -1
  }

  /** Every erase size is positive, and the first internal and external ones go together. */
  predicate Usable(fs: seq<Flash>) {
    && (forall i :: 0 <= i < |fs| ==> fs[i].dev.erase > 0)
    && (First(fs, Internal) >= 0 && First(fs, External) >= 0 ==>
          Compatible(fs[First(fs, Internal)].dev.erase, fs[First(fs, External)].dev.erase))
  }

  /** The devices are large enough for the layout of their topology. */
  predicate Roomy(fs: seq<Flash>, secondSlot: bool, overwriteOnly: bool)
    requires Usable(fs)
  {
    var i, e, data := First(fs, Internal), First(fs, External), First(fs, DataFlash) >= 0;
    if i >= 0 && e >= 0 then
      var soc, ext := fs[i].dev, fs[e].dev;
      var boot := AlignUp(MCUBOOT_SIZE, soc.erase);
      if soc.size - boot < SLOT0_MIN_SIZE then
        && boot <= soc.size
        && (if secondSlot then 2 else 1) * SlotSize(ext, 0, Tail(ext, data)) + Tail(ext, data) <= ext.size
      else if !secondSlot then boot + Tail(soc, data) <= soc.size
      else TwoSlotNeeds(soc, ext, data, overwriteOnly) <= ext.size
    else if i >= 0 then
      AlignUp(MCUBOOT_SIZE, fs[i].dev.erase) + Tail(fs[i].dev, data) <= fs[i].dev.size
    else if e >= 0 then
      var ext := fs[e].dev;
      XipBoot(ext) + 2 * SlotSize(ext, XipBoot(ext), Tail(ext, false)) + Tail(ext, false) <= ext.size
    else true
  }

  /** Both slots, bootloader and first slot on the internal device. */
  predicate TwoSlots(fs: seq<Flash>, secondSlot: bool)
    requires Usable(fs)
  {
    var i, e := First(fs, Internal), First(fs, External);
    i >= 0 && e >= 0 && secondSlot && fs[i].dev.size - AlignUp(MCUBOOT_SIZE, fs[i].dev.erase) >= SLOT0_MIN_SIZE
  }

  /** Which partitions are planned where, for each topology. */
  predicate Named(fs: seq<Flash>, secondSlot: bool, plan: seq<Planned>)
    requires Usable(fs)
  {
    var i, e, nvm := First(fs, Internal), First(fs, External), if First(fs, DataFlash) >= 0 then [] else [Nvm];
    if TwoSlots(fs, secondSlot) then
      var stays := StorageStays(fs[i].dev, fs[e].dev);
      && |plan| >= 2 && plan[0].dev == fs[i].dev && plan[1].dev == fs[e].dev
      && Names(plan[0].parts) == [Boot, Slot0] + (if stays then [Storage] else [])
      && Names(plan[1].parts) == (if stays then [] else [Storage]) + nvm + [Slot1, Filesystem]
    else if i >= 0 && e >= 0 then
      && |plan| >= 2 && plan[0].dev == fs[i].dev && plan[1].dev == fs[e].dev
      && (if fs[i].dev.size - AlignUp(MCUBOOT_SIZE, fs[i].dev.erase) < SLOT0_MIN_SIZE then
            Names(plan[0].parts) == [Boot] && [Slot0] + (if secondSlot then [Slot1] else []) + [Storage] + nvm <= Names(plan[1].parts)
          else
            Names(plan[0].parts) == [Boot, Slot0, Storage] + nvm && Names(plan[1].parts) == [Filesystem])
    else if i >= 0 then
      |plan| >= 1 && plan[0].dev == fs[i].dev && Names(plan[0].parts) == [Boot, Slot0, Storage] + nvm + [Filesystem]
    else if e >= 0 then
      |plan| >= 1 && plan[0].dev == fs[e].dev && Names(plan[0].parts) == [Boot, Slot0, Slot1, Storage, Nvm, Filesystem]
    else true
  }

  /** In the two-slot topology slot 1 is slot 0 and, for the swap, one more sector of the largest erase size. */
  predicate SwapSector(fs: seq<Flash>, secondSlot: bool, overwriteOnly: bool, plan: seq<Planned>)
    requires Usable(fs)
  {
    TwoSlots(fs, secondSlot) ==>
      && |plan| >= 2 && |plan[0].parts| >= 2 && |plan[1].parts| >= 2
      && var slot0, slot1 := plan[0].parts[1], plan[1].parts[|plan[1].parts| - 2];
      && slot0.name == Slot0 && slot1.name == Slot1
      && slot1.size == slot0.size + if overwriteOnly then 0 else Max(plan[0].dev.erase, plan[1].dev.erase)
  }

  predicate AllLaid(plan: seq<Planned>) {
    forall k :: 0 <= k < |plan| ==> plan[k].dev.erase > 0 && Laid(plan[k])
  }

  /** Every planned layout of whole devices is right exactly when the devices are large enough. */
  method PlanPartitions(fs: seq<Flash>, secondSlot: bool, overwriteOnly: bool) returns (plan: seq<Planned>)
    requires Usable(fs)
    ensures AllLaid(plan) <==> Roomy(fs, secondSlot, overwriteOnly)
    ensures Named(fs, secondSlot, plan) && SwapSector(fs, secondSlot, overwriteOnly, plan)
    ensures forall k :: 0 <= k < |plan| ==> exists j :: 0 <= j < |fs| && plan[k].dev == fs[j].dev
  {
    hide Laid, AlignUp, AlignDown, Roomy, Names, StorageStays;
    plan := PlanSlots(fs, secondSlot, overwriteOnly);
    var d := First(fs, DataFlash);
    if d >= 0 {
      var dev := fs[d].dev;
      var nvm := AlignDown(dev.size, dev.erase);
      if nvm > 0 {
        var p := Planned(dev, [Part(Nvm, 0, nvm)]);
        OnlyPart(p);
        ghost var before := plan;
        plan := plan + [p];
        assert AllLaid(plan) <==> AllLaid(before) by {
          assert plan[|before|] == p;
          assert forall k :: 0 <= k < |before| ==> plan[k] == before[k];
        }
      }
    }
  }

  /** All but the data flash. */
  method PlanSlots(fs: seq<Flash>, secondSlot: bool, overwriteOnly: bool) returns (plan: seq<Planned>)
    requires Usable(fs)
    ensures AllLaid(plan) <==> Roomy(fs, secondSlot, overwriteOnly)
    ensures Named(fs, secondSlot, plan) && SwapSector(fs, secondSlot, overwriteOnly, plan)
    ensures forall k :: 0 <= k < |plan| ==> exists j :: 0 <= j < |fs| && plan[k].dev == fs[j].dev
  {
    hide Laid, AlignUp, AlignDown, SlotSize, TwoSlotNeeds, Tail, XipBoot, Names, Filled, AllLaid, StorageStays, Slot0Space;
    plan := [];
    var i, e, data := First(fs, Internal), First(fs, External), First(fs, DataFlash) >= 0;
    if i >= 0 && e >= 0 {
      var soc, ext := fs[i].dev, fs[e].dev;
      var pi, pe;
      if soc.size - AlignUp(MCUBOOT_SIZE, soc.erase) < SLOT0_MIN_SIZE {
        pi, pe := PlanTinyInternal(soc, ext, data, secondSlot);
      } else if !secondSlot {
        pi, pe := PlanSingleApp(soc, ext, data);
      } else {
        pi, pe := PlanTwoSlot(soc, ext, data, overwriteOnly);
      }
      plan := [pi, pe];
    } else if i >= 0 {
      var pi := PlanInternalOnly(fs[i].dev, data);
      plan := [pi];
    } else if e >= 0 {
      var pe := PlanExternalOnly(fs[e].dev);
      plan := [pe];
    }
    FewLaid(plan);
  }

  lemma FewLaid(plan: seq<Planned>)
    requires |plan| <= 2 && forall k :: 0 <= k < |plan| ==> plan[k].dev.erase > 0
    ensures AllLaid(plan) <==> (|plan| > 0 ==> Laid(plan[0])) && (|plan| > 1 ==> Laid(plan[1]))
  {
  }

  /** A usual external device, of at least 1 MB and with erase blocks of at most 64 KB, is always large enough for the slots. */
  lemma TinyInternalFits(ext: Device, dataFlash: bool)
    requires 0 < ext.erase <= 64 * KB && ext.size >= MB
    ensures 2 * SlotSize(ext, 0, Tail(ext, dataFlash)) + Tail(ext, dataFlash) <= ext.size
  {
    hide AlignUp, AlignDown, SlotSize;
  }

  /** Powers of two are all a board needs to be usable. */
  lemma PowersUsable(fs: seq<Flash>, logs: seq<nat>)
    requires |logs| == |fs| && forall i :: 0 <= i < |fs| ==> fs[i].dev.erase == Power(logs[i])
    ensures Usable(fs)
  {
    var i, e := First(fs, Internal), First(fs, External);
    if i >= 0 && e >= 0 {
      PowersCompatible(logs[i], logs[e]);
    }
  }
}
