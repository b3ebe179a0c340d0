/** Moving the second slot to external flash: slot 0 grows, and board-specific partitions carried from the previous layout
    keep their places. */
module PlanCarried {
  import opened Partitions
  import opened Options

  /** A board with a predefined layout on internal flash and spare external flash. Pins are in kilobytes. */
  datatype Board = Board(
    soc: Device,
    ext: Device,
    boot: Part,
    upstreamStorage: Option<nat>,
    bootPin: Option<nat>,
    slotPin: Option<nat>,
    rram: bool,
    dataFlash: bool,
    externalStorage: bool,
    overwriteOnly: bool,
    oldSlot0: Option<Part>,
    carried: seq<Part>,
    extCarried: seq<Part>)
  {
    predicate Valid() {
      soc.erase > 0 && ext.erase > 0
    }

    function Largest(): (n: nat) {
      Max(soc.erase, ext.erase)
    }

    function StorageBytes(): (n: int)
      requires Valid()
      ensures n >= 0
    {
      if upstreamStorage.Some? then upstreamStorage.value else AlignUp(STORAGE_SIZE, soc.erase)
    }

    /** A carried partition that lived beyond the previous slot 0. */
    predicate Beyond(c: Part) {
      oldSlot0.None? || c.off >= oldSlot0.value.End()
    }
  }

  /** How far slot 0 may grow: to the tail, or to the first carried partition that lived beyond it. */
  method SlotLimit(b: Board, carried: seq<Part>, tailStart: int) returns (limit: int)
    requires Ordered(carried)
    ensures limit <= tailStart
    ensures forall c :: c in carried && b.Beyond(c) ==> limit <= c.off
    ensures limit == tailStart || exists c :: c in carried && b.Beyond(c) && limit == c.off
  {
    limit := tailStart;
    for i := 0 to |carried|
      invariant limit == tailStart && forall k :: 0 <= k < i ==> !b.Beyond(carried[k])
    {
      if b.Beyond(carried[i]) {
        limit := Min(limit, carried[i].off);
        return;
      }
    }
  }

  /** The end of the carried partition that ends last. */
  method LastEnd(ps: seq<Part>) returns (e: int)
    ensures forall p :: p in ps ==> p.End() <= e
    ensures if ps == [] then e == 0 else exists p :: p in ps && p.End() == e
  {
    if ps == [] {
      return 0;
    }
    e := ps[0].End();
    for i := 1 to |ps|
      invariant forall k :: 0 <= k < i ==> ps[k].End() <= e
      invariant exists k :: 0 <= k < i && ps[k].End() == e
    {
      e := Max(e, ps[i].End());
    }
  }

  function BootBytes(b: Board): (n: int)
    requires b.Valid()
  {
    if b.bootPin.Some? then AlignUp(b.bootPin.value * KB, b.soc.erase) else Max(b.boot.size, AlignUp(128 * KB, b.soc.erase))
  }

  function NvmBytes(b: Board): (n: nat)
    requires b.Valid()
  {
    if b.rram && !b.dataFlash then b.soc.erase else 0
  }

  /** Where the tail of the internal device would start without carried partitions. */
  function TailStart(b: Board): (n: int)
    requires b.Valid()
  {
    AlignDown(b.soc.size - (if b.externalStorage then 0 else b.StorageBytes()) - NvmBytes(b), b.soc.erase)
  }

  /** Slot 0 from the end of the bootloader to its limit, in sectors of the largest erase size, or less when pinned. */
  method GrowSlot0(b: Board, carried: seq<Part>) returns (slot0: Part)
    requires b.Valid() && Ordered(carried)
    ensures slot0.name == Slot0 && slot0.off == AlignUp(b.boot.off + BootBytes(b), b.soc.erase) && slot0.size % b.Largest() == 0
    ensures slot0.End() <= TailStart(b)
    ensures forall c :: c in carried && b.Beyond(c) ==> slot0.End() <= c.off
    ensures slot0.size >= 0 <==> slot0.off <= TailStart(b) && forall c :: c in carried && b.Beyond(c) ==> slot0.off <= c.off
    // Either another sector would pass the tail or a carried partition, or the pin holds it down.
    ensures || slot0.End() + b.Largest() > TailStart(b)
            || (exists c :: c in carried && b.Beyond(c) && slot0.End() + b.Largest() > c.off)
            || (b.slotPin.Some? && slot0.size == AlignDown(b.slotPin.value * KB, b.Largest()))
    ensures b.slotPin.Some? ==> slot0.size <= AlignDown(b.slotPin.value * KB, b.Largest())
  {
    hide AlignUp, AlignDown;
    var off := AlignUp(b.boot.off + BootBytes(b), b.soc.erase);
    var limit := SlotLimit(b, carried, TailStart(b));
    var size := AlignDown(limit - off, b.Largest());
    SignKept(limit - off, b.Largest());
    if b.slotPin.Some? {
      var pinned := AlignDown(b.slotPin.value * KB, b.Largest());
      SignKept(b.slotPin.value * KB, b.Largest());
      if pinned <= size {
        size := pinned;
      }
    }
    slot0 := Part(Slot0, off, size);
  }

  lemma SignKept(v: int, a: nat)
    requires a > 0
    ensures v >= 0 <==> AlignDown(v, a) >= 0
  {
    ModUnique(0, a, 0, 0);
    if v >= 0 {
      AlignDownGreatest(v, a, 0);
    }
  }

  /** NVM and storage, from the first erase block at or after the cursor. */
  method InternalTail(b: Board, cursor: int) returns (tail: seq<Part>)
    requires b.Valid()
    ensures forall p :: p in tail ==> cursor <= p.off && p.off % b.soc.erase == 0
    ensures Names(tail) == (if NvmBytes(b) > 0 then [Nvm] else []) + if b.externalStorage then [] else [Storage]
    ensures Disjoint(tail)
    ensures cursor <= TailStart(b) ==> forall p :: p in tail ==> p.End() <= b.soc.size
  {
    hide AlignUp, AlignDown, Names, Disjoint, TailStart, NvmBytes, Board.StorageBytes;
    TailRoom(b);
    var c := cursor;
    var nvm, storage: seq<Part> := [], [];
    if NvmBytes(b) > 0 {
      nvm := [Part(Nvm, AlignUp(c, b.soc.erase), NvmBytes(b))];
      c := nvm[0].End();
      Whole(nvm[0].off, b.soc.erase);
    }
    if !b.externalStorage {
      storage := [Part(Storage, AlignUp(c, b.soc.erase), b.StorageBytes())];
    }
    tail := nvm + storage;
    AtMostTwo(nvm, storage);
    if cursor <= TailStart(b) {
      AlignUpLeast(cursor, b.soc.erase, TailStart(b));
    }
  }

  lemma TailRoom(b: Board)
    requires b.Valid()
    ensures TailStart(b) % b.soc.erase == 0 && (NvmBytes(b) == 0 || NvmBytes(b) == b.soc.erase)
    ensures TailStart(b) + NvmBytes(b) + (if b.externalStorage then 0 else b.StorageBytes()) <= b.soc.size
  {
  }

  lemma AtMostTwo(a: seq<Part>, b: seq<Part>)
    requires |a| <= 1 && |b| <= 1 && (|a| == 1 && |b| == 1 ==> a[0].End() <= b[0].off)
    ensures Disjoint(a + b)
    ensures Names(a + b) == (if a == [] then [] else [a[0].name]) + if b == [] then [] else [b[0].name]
  {
    hide Names;
    NamesNone();
    if a != [] {
      NamesAppend([], a[0]);
      assert [] + [a[0]] == a;
    }
    if b != [] {
      NamesAppend(a, b[0]);
      assert a + [b[0]] == a + b;
    } else {
      assert a + b == a;
    }
  }

  /** One block past a block boundary is a block boundary. */
  lemma Whole(x: int, a: nat)
    requires a > 0 && x % a == 0
    ensures AlignUp(x + a, a) == x + a && AlignUp(x, a) == x
  {
    ModUnique(a, a, 1, 0);
    AlignedSum(x, a, a);
    AlignedFixed(x + a, a);
    AlignedFixed(x, a);
  }

  /** The internal device: bootloader, grown slot 0, NVM and storage, then the carried partitions as they were. */
  method PlanInternal(b: Board) returns (i: Planned, slot0: Part, tail: seq<Part>)
    requires b.Valid()
    ensures i.dev == b.soc && i.parts == [Part(Boot, b.boot.off, BootBytes(b)), slot0] + tail + Sort(b.carried)
    ensures slot0.name == Slot0 && slot0.off % b.soc.erase == 0 && slot0.size % b.Largest() == 0
    ensures b.boot.off + BootBytes(b) <= slot0.off
    // What lived beyond slot 0 is not grown over, and the new tail touches nothing carried.
    ensures forall c :: c in b.carried && b.Beyond(c) ==> slot0.End() <= c.off
    ensures forall p, c :: p in tail && c in b.carried ==> c.End() <= p.off
    ensures forall p :: p in tail ==> slot0.End() <= p.off && p.off % b.soc.erase == 0
    ensures Disjoint(tail)
    ensures b.carried == [] && 0 <= TailStart(b) ==> slot0.End() <= b.soc.size && forall p :: p in tail ==> p.End() <= b.soc.size
  {
    hide Sort, AlignUp, AlignDown, Names, Disjoint;
    var carried := Sort(b.carried);
    slot0 := GrowSlot0(b, carried);
    var carriedEnd := LastEnd(carried);
    var cursor := Max(slot0.End(), AlignUp(carriedEnd, b.soc.erase));
    tail := InternalTail(b, cursor);
    var parts := [Part(Boot, b.boot.off, BootBytes(b)), slot0] + tail;
    for k := 0 to |carried|
      invariant parts == [Part(Boot, b.boot.off, BootBytes(b)), slot0] + tail + carried[..k]
    {
      parts := parts + [carried[k]];
    }
    assert carried[..|carried|] == carried;
    i := Planned(b.soc, parts);
    if b.carried == [] {
      AlignUpZero(b.soc.erase);
    }
  }

  lemma AlignUpZero(a: nat)
    requires a > 0
    ensures AlignUp(0, a) == 0
  {
    ModUnique(0, a, 0, 0);
    AlignedFixed(0, a);
  }

  // ----- the external device -----

  function ExtNvmBytes(b: Board): (n: nat)
    requires b.Valid()
  {
    if !b.rram && !b.dataFlash then b.ext.erase else 0
  }

  /** The size the swap wants of slot 1. */
  function Slot1Wanted(b: Board, slot0: int): (n: int)
    requires b.Valid()
  {
    if b.overwriteOnly then slot0 else slot0 + b.Largest()
  }

  /** The first carried partition leaves slot 1 its start. */
  predicate StartFree(b: Board)
    requires b.Valid()
  {
    b.extCarried == [] || Sort(b.extCarried)[0].off >= ExtNvmBytes(b)
  }

  /** Slot 1, cut off in front of the first carried partition. */
  method PlaceSlot1(b: Board, slot0: int, carried: seq<Part>) returns (slot1: Part)
    requires b.Valid() && Slot1Wanted(b, slot0) % b.ext.erase == 0
    ensures slot1.name == Slot1 && slot1.off == ExtNvmBytes(b) && slot1.off % b.ext.erase == 0 && slot1.size % b.ext.erase == 0
    ensures carried != [] ==> slot1.End() <= carried[0].off
    ensures slot1.size >= 0 <==> Slot1Wanted(b, slot0) >= 0 && (carried == [] || carried[0].off >= slot1.off)
    // It has the wanted size exactly when that much fits.
    ensures slot1.size <= Slot1Wanted(b, slot0)
    ensures slot1.size == Slot1Wanted(b, slot0) <==> carried == [] || slot1.off + Slot1Wanted(b, slot0) <= carried[0].off
  {
    hide AlignUp, AlignDown;
    var erase := b.ext.erase;
    ModUnique(0, erase, 0, 0);
    ModUnique(erase, erase, 1, 0);
    AlignUpZero(erase);
    var cursor := 0;
    if !b.rram && !b.dataFlash {
      AlignedFixed(erase, erase);
      cursor := AlignUp(cursor + erase, erase);
    }
    AlignedFixed(cursor, erase);
    var off := AlignUp(cursor, erase);
    var size := Slot1Wanted(b, slot0);
    if carried != [] {
      var avail := AlignDown(carried[0].off, erase) - off;
      AlignedSum(AlignDown(carried[0].off, erase), off, erase);
      AlignedFixed(avail, erase);
      size := Min(size, AlignDown(avail, erase));
      if off <= carried[0].off {
        AlignDownGreatest(carried[0].off, erase, off);
      }
      AlignedSum(off, Slot1Wanted(b, slot0), erase);
      if off + Slot1Wanted(b, slot0) <= carried[0].off {
        AlignDownGreatest(carried[0].off, erase, off + Slot1Wanted(b, slot0));
      }
    }
    slot1 := Part(Slot1, off, size);
  }

  /** The external device: NVM, slot 1 and storage in front of the carried partitions, the filesystem behind them. */
  method PlanExternal(b: Board, slot0: int) returns (e: Planned, slot1: Part, own: seq<Part>, fs: seq<Part>)
    requires b.Valid() && Slot1Wanted(b, slot0) % b.ext.erase == 0
    ensures e.dev == b.ext && e.parts == own + Sort(b.extCarried) + fs
    ensures slot1 in own && slot1.name == Slot1 && slot1.off == ExtNvmBytes(b) && slot1.size % b.ext.erase == 0
    ensures slot1.size == Slot1Wanted(b, slot0) <==>
            b.extCarried == [] || slot1.off + Slot1Wanted(b, slot0) <= Sort(b.extCarried)[0].off
    ensures slot1.size >= 0 <==> Slot1Wanted(b, slot0) >= 0 && StartFree(b)
    // Otherwise the NVM page at the start of the device is in the way.
    ensures !StartFree(b) && Sort(b.extCarried)[0].off >= 0 && Sort(b.extCarried)[0].size > 0 ==> Overlap(own[0], Sort(b.extCarried)[0])
    ensures slot1.size >= 0 ==> Disjoint(own) && forall p, c :: p in own && c in b.extCarried ==> p.End() <= c.off
    ensures slot1.size >= 0 ==> forall p, f :: p in own && f in fs ==> p.End() <= f.off
    ensures forall c, f :: c in b.extCarried && f in fs ==> c.End() <= f.off
    ensures |fs| <= 1 && forall f :: f in fs ==> f.size > 0 && f.End() <= b.ext.size && f.off % b.ext.erase == 0 && f.size % b.ext.erase == 0
  {
    hide AlignUp, AlignDown, Sort, Disjoint, Slot1Wanted;
    var cursor;
    slot1, own, cursor := PlaceOwn(b, slot0);
    var parts;
    parts, fs := AddBehind(b.ext, own, Sort(b.extCarried), cursor);
    e := Planned(b.ext, parts);
  }

  /** NVM, slot 1 and storage, and where they end. */
  method PlaceOwn(b: Board, slot0: int) returns (slot1: Part, own: seq<Part>, cursor: int)
    requires b.Valid() && Slot1Wanted(b, slot0) % b.ext.erase == 0
    ensures slot1 in own && slot1.name == Slot1 && slot1.off == ExtNvmBytes(b) && slot1.size % b.ext.erase == 0
    ensures slot1.size == Slot1Wanted(b, slot0) <==>
            b.extCarried == [] || slot1.off + Slot1Wanted(b, slot0) <= Sort(b.extCarried)[0].off
    ensures slot1.size >= 0 <==> Slot1Wanted(b, slot0) >= 0 && StartFree(b)
    // Otherwise the NVM page at the start of the device is in the way.
    ensures !StartFree(b) && Sort(b.extCarried)[0].off >= 0 && Sort(b.extCarried)[0].size > 0 ==> Overlap(own[0], Sort(b.extCarried)[0])
    ensures slot1.size >= 0 ==> Disjoint(own) && forall p, c :: p in own && c in b.extCarried ==> p.End() <= c.off
    ensures slot1.size >= 0 ==> forall p :: p in own ==> p.End() <= cursor
    ensures cursor % b.ext.erase == 0
  {
    hide AlignUp, AlignDown, Sort, Disjoint, Slot1Wanted;
    var erase, carried := b.ext.erase, Sort(b.extCarried);
    assert carried == [] <==> b.extCarried == [];
    slot1 := PlaceSlot1(b, slot0, carried);
    var nvm := if !b.rram && !b.dataFlash then [Part(Nvm, 0, erase)] else [];
    cursor := AlignUp(slot1.End(), erase);
    var storage: seq<Part> := [];
    if b.externalStorage {
      var storageOff := AlignUp(cursor, erase);
      if carried == [] || storageOff + b.StorageBytes() <= carried[0].off {
        storage := [Part(Storage, storageOff, b.StorageBytes())];
        cursor := AlignUp(storageOff + b.StorageBytes(), erase);
      }
    }
    own := nvm + [slot1] + storage;
    OwnInFront(b, nvm, slot1, storage, cursor, carried);
    assert own[|nvm|] == slot1;
  }

  /** The carried partitions as they are, and the filesystem from behind the last of them to the end of the device. */
  method AddBehind(dev: Device, own: seq<Part>, carried: seq<Part>, start: int) returns (parts: seq<Part>, fs: seq<Part>)
    requires dev.erase > 0 && start % dev.erase == 0
    ensures parts == own + carried + fs && |fs| <= 1
    ensures forall f :: f in fs ==> start <= f.off && f.size > 0 && f.End() <= dev.size && f.off % dev.erase == 0 && f.size % dev.erase == 0
    ensures forall c, f :: c in carried && f in fs ==> c.End() <= f.off
  {
    hide AlignUp, AlignDown;
    parts := own;
    var cursor := start;
    for k := 0 to |carried|
      invariant parts == own + carried[..k] && cursor >= start && cursor % dev.erase == 0
      invariant forall i :: 0 <= i < k ==> carried[i].End() <= cursor
    {
      parts := parts + [carried[k]];
      cursor := Max(cursor, AlignUp(carried[k].End(), dev.erase));
    }
    assert carried[..|carried|] == carried;
    fs := [];
    var size := AlignDown(dev.size - cursor, dev.erase);
    if size > 0 {
      fs := [Part(Filesystem, cursor, size)];
      parts := parts + fs;
    }
  }

  /** The planner's own partitions follow each other and end before the first carried one. */
  lemma OwnInFront(b: Board, nvm: seq<Part>, slot1: Part, storage: seq<Part>, cursor: int, carried: seq<Part>)
    requires b.Valid() && carried == Sort(b.extCarried) && slot1.off == ExtNvmBytes(b) && (slot1.size >= 0 ==> StartFree(b))
    requires nvm == if ExtNvmBytes(b) > 0 then [Part(Nvm, 0, b.ext.erase)] else []
    requires |storage| <= 1 && slot1.End() <= cursor && (carried != [] ==> slot1.End() <= carried[0].off)
    requires |storage| == 1 ==> slot1.End() <= storage[0].off && storage[0].End() <= cursor
                                && (carried != [] ==> storage[0].End() <= carried[0].off)
    ensures slot1.size >= 0 ==> Disjoint(nvm + [slot1] + storage)
    ensures slot1.size >= 0 ==> forall p :: p in nvm + [slot1] + storage ==> p.End() <= cursor
    ensures slot1.size >= 0 ==> forall p, c :: p in nvm + [slot1] + storage && c in b.extCarried ==> p.End() <= c.off
  {
    hide Sort, AlignUp, AlignDown;
    assert forall c :: c in b.extCarried ==> c in carried;
    assert forall c :: c in carried ==> carried[0].off <= c.off;
    var own := nvm + [slot1] + storage;
    if slot1.size >= 0 {
      assert forall p :: p in own ==> p in nvm || p == slot1 || p in storage;
    }
  }

  /** Both devices: no partition the planner places shares a byte with a carried one that the previous slot 0 did not cover. */
  method MoveSlot1(b: Board) returns (i: Planned, e: Planned, slot0: Part, slot1: Part)
    requires Compatible(b.soc.erase, b.ext.erase)
    ensures i.dev == b.soc && e.dev == b.ext && slot0 in i.parts && slot1 in e.parts
    ensures forall c :: c in b.carried ==> c in i.parts
    ensures forall c :: c in b.extCarried ==> c in e.parts
    ensures forall c :: c in b.carried && b.Beyond(c) ==> !Overlap(slot0, c)
    ensures forall p, c :: p in i.parts && p.name in {Nvm, Storage} && p !in b.carried && c in b.carried ==> !Overlap(p, c)
    ensures slot0.size >= 0 && StartFree(b) ==>
              && slot1.size >= 0 && !Overlap(slot0, i.parts[0])
              && forall p, c :: p in e.parts && p !in b.extCarried && c in b.extCarried ==> !Overlap(p, c)
    // Room for the swap, unless a carried partition is in the way.
    ensures b.extCarried == [] ==> slot1.size == slot0.size + if b.overwriteOnly then 0 else Max(b.soc.erase, b.ext.erase)
  {
    hide Sort, Disjoint, AlignUp, AlignDown;
    var tail, own, fs;
    i, slot0, tail := PlanInternal(b);
    SwapSize(b, slot0.size);
    e, slot1, own, fs := PlanExternal(b, slot0.size);
    assert i.parts[1] == slot0;
    assert forall p :: p in i.parts ==> p == i.parts[0] || p == slot0 || p in tail || p in b.carried;
    assert forall p :: p in e.parts ==> p in own || p in b.extCarried || p in fs;
    assert forall c :: c in b.carried ==> c in Sort(b.carried);
    assert forall c :: c in b.extCarried ==> c in Sort(b.extCarried);
  }

  lemma SwapSize(b: Board, slot0: int)
    requires Compatible(b.soc.erase, b.ext.erase) && slot0 % b.Largest() == 0
    ensures Slot1Wanted(b, slot0) % b.ext.erase == 0
  {
    LargestServesBoth(slot0, b.soc.erase, b.ext.erase);
    ModUnique(b.Largest(), b.Largest(), 1, 0);
    LargestServesBoth(b.Largest(), b.soc.erase, b.ext.erase);
    AlignedSum(slot0, b.Largest(), b.ext.erase);
  }
}
