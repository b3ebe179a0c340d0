/** Planning on a predefined layout without spare external flash: the slots are kept or re-sized in place, and storage, NVM
    and filesystem follow them. */
module PlanPredefined {
  import opened Partitions
  import opened Options

  /** A device with a predefined layout. Pins and the filesystem cap are in kilobytes; `hasCarried` says that board-specific
      partitions are carried along, which rules out re-sizing. */
  datatype Board = Board(
    dev: Device,
    parts: seq<Part>,
    hasCarried: bool,
    singleApp: bool,
    dataFlash: bool,
    bootPin: Option<nat>,
    slotPin: Option<nat>,
    fsCap: Option<nat>)

  /** What is kept of the upstream layout. */
  predicate Keeps(b: Board, p: Part) {
    p.name !in {Storage, Nvm, Filesystem} && !(b.singleApp && p.name == Slot1)
  }

  function Upstream(b: Board, ps: seq<Part>): (r: seq<Part>)
    ensures forall p :: p in r <==> p in ps && Keeps(b, p)
  {
    if ps == [] then []
    else
      assert ps == ps[..|ps| - 1] + [ps[|ps| - 1]];
      Upstream(b, ps[..|ps| - 1]) + if Keeps(b, ps[|ps| - 1]) then [ps[|ps| - 1]] else []
  }

  function Without(ps: seq<Part>, names: set<Name>): (r: seq<Part>)
    ensures forall p :: p in r <==> p in ps && p.name !in names
  {
    if ps == [] then []
    else
      assert ps == ps[..|ps| - 1] + [ps[|ps| - 1]];
      Without(ps[..|ps| - 1], names) + if ps[|ps| - 1].name in names then [] else [ps[|ps| - 1]]
  }

  /** The first partition of a name. */
  function Find(ps: seq<Part>, name: Name): (p: Option<Part>)
    ensures p.Some? ==> p.value in ps && p.value.name == name
    ensures p.None? <==> forall q :: q in ps ==> q.name != name
  {
    if ps == [] then None
    else
      assert ps == ps[..|ps| - 1] + [ps[|ps| - 1]];
      var p := Find(ps[..|ps| - 1], name);
      if p.Some? then p else if ps[|ps| - 1].name == name then Some(ps[|ps| - 1]) else None
  }

  // ----- sizes -----

  function BootEnd(b: Board, boot: Part): (n: int)
    requires b.dev.erase > 0
    ensures n % b.dev.erase == 0 && n >= boot.End()
  {
    AlignUp(boot.End(), b.dev.erase)
  }

  /** Storage and NVM. */
  function TailMin(b: Board): (n: int)
    requires b.dev.erase > 0
    ensures n % b.dev.erase == 0 && n >= 0
  {
    ModUnique(0, b.dev.erase, 0, 0);
    ModUnique(b.dev.erase, b.dev.erase, 1, 0);
    AlignedSum(AlignUp(STORAGE_SIZE, b.dev.erase), if b.dataFlash then 0 else b.dev.erase, b.dev.erase);
    AlignUp(STORAGE_SIZE, b.dev.erase) + if b.dataFlash then 0 else b.dev.erase
  }

  /** Half of what the filesystem cap, the tail and the swap sector leave. */
  function Shared(b: Board, boot: Part): (n: int)
    requires b.dev.erase > 0 && b.fsCap.Some?
    ensures n % b.dev.erase == 0
    ensures BootEnd(b, boot) + 2 * n + b.dev.erase + TailMin(b) + b.fsCap.value * KB <= b.dev.size
  {
    AlignDown((b.dev.size - BootEnd(b, boot) - TailMin(b) - b.fsCap.value * KB - b.dev.erase) / 2, b.dev.erase)
  }

  datatype Sizing = KeepSizes | Resize(slot0: int, slot1Off: int, slot1: int)

  /** Whether and how the slots are re-sized before the 2 MB cap. */
  function Decide(b: Board, boot: Option<Part>, slot0: Option<Part>, slot1: Option<Part>): (s: Sizing)
    requires b.dev.erase > 0
  {
    if boot.None? || b.hasCarried then KeepSizes
    else
      var end := BootEnd(b, boot.value);
      var sharing := b.slotPin.None? && b.fsCap.Some?;
      var size := if b.slotPin.Some? then AlignDown(b.slotPin.value * KB, b.dev.erase)
                  else if sharing then Shared(b, boot.value)
                  else AlignDown(SLOT0_MIN_SIZE, b.dev.erase);
      var wanted :=
        if b.slotPin.Some? then slot0.Some? && size != slot0.value.size
        else if sharing then
          size > 0 && ((slot0.Some? && size != slot0.value.size) || (slot1.Some? && size + b.dev.erase != slot1.value.size))
        else slot0.Some? && slot0.value.size < SLOT0_MIN_SIZE;
      var slot1Size := if sharing then size + b.dev.erase else Max(if slot1.Some? then slot1.value.size else 0, size);
      var slot1Off := if sharing then end + size else if slot1.Some? then Max(slot1.value.off, end + size) else 0;
      if wanted && slot1Off + slot1Size + TailMin(b) <= b.dev.size then Resize(size, slot1Off, slot1Size) else KeepSizes
  }

  /** The slots replaced, in order of offset. */
  function Reslot(kept: seq<Part>, slots: seq<Part>): (r: seq<Part>) {
    Sort(Without(kept, {Slot0, Slot1}) + slots)
  }

  /** A slot 0, and a slot 1 if there was one. */
  function Pair(slot0: Part, slot1: Part, both: bool): (r: seq<Part>)
    ensures r != []
  {
    [slot0] + if both then [slot1] else []
  }

  function SlotCap(b: Board): (n: int)
    requires b.dev.erase > 0
    ensures n % b.dev.erase == 0
  {
    AlignDown(2 * MB, b.dev.erase)
  }

  /** The boot partition re-sized to its pin. */
  function PinBoot(b: Board, kept: seq<Part>): (r: seq<Part>)
    requires b.dev.erase > 0
  {
    var boot := Find(kept, Boot);
    if b.bootPin.None? || boot.None? then kept
    else
      var size := AlignUp(b.bootPin.value * KB, b.dev.erase);
      if size == boot.value.size then kept else Sort(Without(kept, {Boot}) + [Part(Boot, boot.value.off, size)])
  }

  /** The slots with other sizes, or none when the sizes are kept. */
  function NewSizes(b: Board, kept: seq<Part>): (r: seq<Part>)
    requires b.dev.erase > 0
  {
    var boot, slot0, slot1 := Find(kept, Boot), Find(kept, Slot0), Find(kept, Slot1);
    match Decide(b, boot, slot0, slot1)
    case KeepSizes => []
    case Resize(size0, off1, size1) =>
      Pair(Part(Slot0, if boot.Some? then BootEnd(b, boot.value) else 0, size0), Part(Slot1, off1, size1), slot1.Some?)
  }

  function Resized(b: Board, kept: seq<Part>): (r: seq<Part>)
    requires b.dev.erase > 0
  {
    if NewSizes(b, kept) == [] then kept else Reslot(kept, NewSizes(b, kept))
  }

  /** Slots above 2 MB cut down to that, or none; the upstream size of slot 0 decides. */
  function CutSlots(b: Board, kept: seq<Part>): (r: seq<Part>)
    requires b.dev.erase > 0
  {
    var boot, slot0, slot1 := Find(kept, Boot), Find(kept, Slot0), Find(kept, Slot1);
    if b.slotPin.None? && boot.Some? && slot0.Some? && slot0.value.size > SlotCap(b) && !b.hasCarried then
      var end, cap := BootEnd(b, boot.value), SlotCap(b);
      Pair(Part(Slot0, end, cap), Part(Slot1, if slot1.Some? then Max(slot1.value.off, end + cap) else 0, cap), slot1.Some?)
    else []
  }

  function Capped(b: Board, kept: seq<Part>, resized: seq<Part>): (r: seq<Part>)
    requires b.dev.erase > 0
  {
    if CutSlots(b, kept) == [] then resized else Reslot(resized, CutSlots(b, kept))
  }

  function LastEnd(ps: seq<Part>): (e: int)
    ensures ps == [] ==> e == 0
    ensures forall p :: p in ps ==> p.End() <= e
    ensures ps != [] ==> exists p :: p in ps && p.End() == e
  {
    if ps == [] then 0
    else if |ps| == 1 then ps[0].End()
    else
      assert ps == ps[..|ps| - 1] + [ps[|ps| - 1]];
      Max(LastEnd(ps[..|ps| - 1]), ps[|ps| - 1].End())
  }

  function StorageBytes(b: Board): (n: int)
    requires b.dev.erase > 0
  {
    AlignUp(STORAGE_SIZE, b.dev.erase)
  }

  /** Storage, if it fits. */
  function StorageAt(b: Board, cursor: int): (r: seq<Part>)
    requires b.dev.erase > 0
  {
    if cursor + StorageBytes(b) <= b.dev.size then [Part(Storage, cursor, StorageBytes(b))] else []
  }

  /** One erase page of NVM, if it fits and there is no data flash for it. */
  function NvmAt(b: Board, cursor: int): (r: seq<Part>) {
    if !b.dataFlash && cursor + b.dev.erase <= b.dev.size then [Part(Nvm, cursor, b.dev.erase)] else []
  }

  /** All whole blocks that are left, or the cap if that is less. */
  function FilesystemBytes(b: Board, cursor: int): (n: int)
    requires b.dev.erase > 0
  {
    var left := AlignDown(b.dev.size - cursor, b.dev.erase);
    if b.fsCap.Some? then Min(left, AlignDown(b.fsCap.value * KB, b.dev.erase)) else left
  }

  function FilesystemAt(b: Board, cursor: int): (r: seq<Part>)
    requires b.dev.erase > 0
  {
    if FilesystemBytes(b, cursor) > 0 then [Part(Filesystem, cursor, FilesystemBytes(b, cursor))] else []
  }

  /** Where a list of at most one partition at the cursor ends. */
  function EndOf(ps: seq<Part>, cursor: int): (e: int) {
    if ps == [] then cursor else ps[0].End()
  }

  /** The tail from an aligned cursor. */
  function Tail(b: Board, cursor: int): (r: seq<Part>)
    requires b.dev.erase > 0
  {
    var c1 := EndOf(StorageAt(b, cursor), cursor);
    var c2 := EndOf(NvmAt(b, c1), c1);
    StorageAt(b, cursor) + NvmAt(b, c1) + FilesystemAt(b, c2)
  }

  /** The kept partitions with their new sizes. */
  function Slots(b: Board): (r: seq<Part>)
    requires b.dev.erase > 0
  {
    var kept := PinBoot(b, Sort(Upstream(b, b.parts)));
    Capped(b, kept, Resized(b, kept))
  }

  function Plan(b: Board): (r: seq<Part>)
    requires b.dev.erase > 0
  {
    Slots(b) + Tail(b, AlignUp(LastEnd(Slots(b)), b.dev.erase))
  }
}
