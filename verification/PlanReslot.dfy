/** The planner on a predefined layout: the lists it rebuilds step by step. */
module PlanReslot {
  import opened Partitions
  import opened Options
  import opened PlanPredefined
  import opened PlanLayout

  /** The plan, and the labels that the generated file may leave out because upstream still defines them. */
  method PlanKept(b: Board, deleted: bool, forkSized: set<Name>) returns (plan: Planned, predefined: set<Name>)
    requires b.dev.erase > 0
    ensures plan.dev == b.dev && plan.parts == Plan(b)
    // What is left out is what upstream has, at its upstream place and size.
    ensures forall p :: p in plan.parts && p.name in predefined ==> p in b.parts && p.name !in forkSized && !deleted
    // What the planner does not own stays as it was.
    ensures forall p: Part :: p.name.Other? ==> (p in plan.parts <==> p in b.parts)
    // From a right layout the plan is right exactly when the partitions planned anew are.
    ensures WellFormed(b) ==> (Disjoint(plan.parts) <==> AllApart(New(b), Rest(b)))
    ensures WellFormed(b) ==> ((forall p :: p in plan.parts ==> Inside(p, b.dev)) <==> forall p :: p in New(b) ==> p.End() <= b.dev.size)
  {
    hide Sort, PinBoot, Resized, Capped, Tail, LastEnd, AlignUp, New, Rest, Disjoint, AllApart, WellFormed;
    var upstream := Upstream(b, b.parts);
    predefined := if deleted then {} else (set p | p in upstream && p.name !in forkSized :: p.name);
    ghost var first := predefined;
    var kept := Sort(upstream);
    kept, predefined := ApplyBootPin(b, kept, predefined);
    ghost var pinned := kept;
    var boot, slot0, slot1 := Find(kept, Boot), Find(kept, Slot0), Find(kept, Slot1);
    kept, predefined := ApplySizes(b, kept, predefined, boot, slot0, slot1);
    kept, predefined := ApplyCap(b, pinned, kept, predefined, boot, slot0, slot1);
    assert kept == Slots(b) && predefined <= first;
    var parts := AddTail(b, kept);
    plan := Planned(b.dev, parts);
    Guarantees(b);
  }

  lemma Guarantees(b: Board)
    requires b.dev.erase > 0
    ensures forall p: Part :: p.name.Other? ==> (p in Plan(b) <==> p in b.parts)
    ensures WellFormed(b) ==> (Disjoint(Plan(b)) <==> AllApart(New(b), Rest(b)))
    ensures WellFormed(b) ==> ((forall p :: p in Plan(b) ==> Inside(p, b.dev)) <==> forall p :: p in New(b) ==> p.End() <= b.dev.size)
  {
    hide Plan, New, Rest, Disjoint, AllApart, WellFormed;
    forall p: Part | p.name.Other?
      ensures p in Plan(b) <==> p in b.parts
    {
      OthersStay(b, p);
    }
    if WellFormed(b) {
      PlanDisjointIff(b);
      PlanInsideIff(b);
    }
  }

  /** Labels that may be left out name only upstream partitions, and none of the tail. */
  predicate Untouched(kept: seq<Part>, predefined: set<Name>, parts: seq<Part>) {
    && (forall p :: p in kept && p.name in predefined ==> p in parts)
    && predefined !! {Storage, Nvm, Filesystem}
  }

  method ApplyBootPin(b: Board, was: seq<Part>, predefined: set<Name>) returns (kept: seq<Part>, left: set<Name>)
    requires b.dev.erase > 0 && Untouched(was, predefined, b.parts)
    ensures kept == PinBoot(b, was) && left <= predefined && Untouched(kept, left, b.parts)
    ensures forall p: Part :: p.name != Boot ==> (p in kept <==> p in was)
    // A bootloader of another size keeps the list disjoint exactly when it meets none of the others.
    ensures kept != was && Disjoint(was) ==>
              exists p :: p in kept && p.name == Boot && (Disjoint(kept) <==> AllApart([p], Without(was, {Boot})))
  {
    hide Sort, AlignUp, Disjoint, AllApart;
    kept, left := was, predefined;
    var boot := Find(kept, Boot);
    if b.bootPin.Some? && boot.Some? {
      var size := AlignUp(b.bootPin.value * KB, b.dev.erase);
      if size != boot.value.size {
        var pinned := Part(Boot, boot.value.off, size);
        kept := Without(kept, {Boot});
        kept := kept + [pinned];
        kept := Sort(kept);
        left := left - {Boot};
        Joined(was, {Boot}, [pinned], kept);
        assert pinned in kept;
      }
    }
  }

  /** Putting disjoint partitions in place of those of some names. */
  lemma Joined(was: seq<Part>, names: set<Name>, put: seq<Part>, r: seq<Part>)
    requires multiset(r) == multiset(Without(was, names) + put) && (|put| == 1 || Disjoint(put))
    ensures Disjoint(was) ==> (Disjoint(r) <==> AllApart(put, Without(was, names)))
  {
    hide AllApart;
    DisjointSame(r, Without(was, names) + put);
    DisjointAppend(Without(was, names), put);
    ApartSwap(Without(was, names), put);
    if Disjoint(was) {
      WithoutDisjoint(was, names);
    }
  }

  method ApplySizes(b: Board, was: seq<Part>, predefined: set<Name>, boot: Option<Part>, slot0: Option<Part>, slot1: Option<Part>)
    returns (kept: seq<Part>, left: set<Name>)
    requires b.dev.erase > 0 && Untouched(was, predefined, b.parts)
    requires boot == Find(was, Boot) && slot0 == Find(was, Slot0) && slot1 == Find(was, Slot1)
    ensures kept == Resized(b, was) && left <= predefined && Untouched(kept, left, b.parts)
    ensures forall p: Part :: p.name !in {Slot0, Slot1} ==> (p in kept <==> p in was)
    // Other sizes keep the list disjoint exactly when no new slot meets another partition.
    ensures Disjoint(was) && NewSizes(b, was) != [] ==> (Disjoint(kept) <==> AllApart(NewSizes(b, was), Without(was, {Slot0, Slot1})))
  {
    hide Decide, BootEnd, Reslot, Disjoint, AllApart, Without, Find;
    kept, left := was, predefined;
    var sizing := Decide(b, boot, slot0, slot1);
    if sizing.Resize? {
      var end := if boot.Some? then BootEnd(b, boot.value) else 0;
      kept, left := ReplaceSlots(kept, left, Pair(Part(Slot0, end, sizing.slot0), Part(Slot1, sizing.slot1Off, sizing.slot1), slot1.Some?), b.parts);
      DecideFacts(b, boot, slot0, slot1);
      PairDisjoint(Part(Slot0, end, sizing.slot0), Part(Slot1, sizing.slot1Off, sizing.slot1), slot1.Some?);
    }
  }

  lemma PairDisjoint(slot0: Part, slot1: Part, both: bool)
    requires both ==> slot0.End() <= slot1.off
    ensures Disjoint(Pair(slot0, slot1, both))
  {
  }

  method ApplyCap(b: Board, ghost first: seq<Part>, was: seq<Part>, predefined: set<Name>,
                  boot: Option<Part>, slot0: Option<Part>, slot1: Option<Part>) returns (kept: seq<Part>, left: set<Name>)
    requires b.dev.erase > 0 && Untouched(was, predefined, b.parts)
    requires boot == Find(first, Boot) && slot0 == Find(first, Slot0) && slot1 == Find(first, Slot1)
    ensures kept == Capped(b, first, was) && left <= predefined && Untouched(kept, left, b.parts)
    ensures forall p: Part :: p.name !in {Slot0, Slot1} ==> (p in kept <==> p in was)
    // Cut slots keep the list disjoint exactly when neither meets another partition.
    ensures Disjoint(was) && CutSlots(b, first) != [] ==> (Disjoint(kept) <==> AllApart(CutSlots(b, first), Without(was, {Slot0, Slot1})))
  {
    hide BootEnd, SlotCap, Reslot, Disjoint, AllApart, Without, Find;
    kept, left := was, predefined;
    if b.slotPin.None? && boot.Some? && slot0.Some? && slot0.value.size > SlotCap(b) && !b.hasCarried {
      var end, cap := BootEnd(b, boot.value), SlotCap(b);
      var cut0, cut1 := Part(Slot0, end, cap), Part(Slot1, if slot1.Some? then Max(slot1.value.off, end + cap) else 0, cap);
      kept, left := ReplaceSlots(kept, left, Pair(cut0, cut1, slot1.Some?), b.parts);
      PairDisjoint(cut0, cut1, slot1.Some?);
    }
  }

  /** Re-emitted slots in place of the upstream ones; all others stay. */
  method ReplaceSlots(kept: seq<Part>, predefined: set<Name>, slots: seq<Part>, ghost parts: seq<Part>)
    returns (r: seq<Part>, left: set<Name>)
    requires AreSlots(slots) && Untouched(kept, predefined, parts)
    ensures r == Reslot(kept, slots) && left == predefined - {Slot0, Slot1} && Untouched(r, left, parts)
    ensures forall p :: p in r <==> p in slots || (p in kept && p.name !in {Slot0, Slot1})
    ensures Disjoint(kept) && Disjoint(slots) ==> (Disjoint(r) <==> AllApart(slots, Without(kept, {Slot0, Slot1})))
  {
    hide Sort, Disjoint, AllApart;
    r := Without(kept, {Slot0, Slot1});
    r := r + slots;
    r := Sort(r);
    left := predefined - {Slot0};
    left := left - {Slot1};
    if Disjoint(slots) {
      Joined(kept, {Slot0, Slot1}, slots, r);
    }
  }

  /** Storage and NVM where they fit, then the filesystem with what is left or its cap: all behind what is kept, so that the
      list is as disjoint as that. */
  method AddTail(b: Board, kept: seq<Part>) returns (r: seq<Part>)
    requires b.dev.erase > 0
    ensures kept <= r && r == kept + Tail(b, AlignUp(LastEnd(kept), b.dev.erase))
    ensures forall i, p :: |kept| <= i < |r| && p in kept ==> p.End() <= r[i].off
    ensures forall i :: |kept| <= i < |r| ==>
              && r[i].name in {Storage, Nvm, Filesystem} && 0 < r[i].size && r[i].End() <= b.dev.size && Aligned(r[i], b.dev)
    ensures Disjoint(r) <==> Disjoint(kept)
  {
    hide AlignUp, AlignDown, LastEnd, Disjoint;
    ghost var start := AlignUp(LastEnd(kept), b.dev.erase);
    var cursor := AlignUp(LastEnd(kept), b.dev.erase);
    var part;
    part, cursor := AddStorage(b, cursor);
    r := kept + part;
    part, cursor := AddNvm(b, cursor);
    r := r + part;
    part := AddFilesystem(b, cursor);
    r := r + part;
    var tail := Tail(b, start);
    assert r == kept + tail;
    TailFacts(b, start);
    TailApart(b, kept);
    DisjointAppend(kept, tail);
    forall i | |kept| <= i < |r|
      ensures r[i] in tail
    {
      assert r[i] == tail[i - |kept|];
    }
  }

  method AddStorage(b: Board, cursor: int) returns (r: seq<Part>, next: int)
    requires b.dev.erase > 0 && cursor % b.dev.erase == 0
    ensures r == StorageAt(b, cursor) && next == EndOf(r, cursor) && next % b.dev.erase == 0
  {
    hide AlignUp;
    var storage := AlignUp(STORAGE_SIZE, b.dev.erase);
    r, next := [], cursor;
    if cursor + storage <= b.dev.size {
      r := [Part(Storage, cursor, storage)];
      AlignedSum(cursor, storage, b.dev.erase);
      next := cursor + storage;
    }
  }

  method AddNvm(b: Board, cursor: int) returns (r: seq<Part>, next: int)
    requires b.dev.erase > 0 && cursor % b.dev.erase == 0
    ensures r == NvmAt(b, cursor) && next == EndOf(r, cursor) && next % b.dev.erase == 0
  {
    hide AlignUp;
    var erase := b.dev.erase;
    r, next := [], cursor;
    if !b.dataFlash {
      if cursor + erase <= b.dev.size {
        r := [Part(Nvm, cursor, erase)];
        ModUnique(erase, erase, 1, 0);
        AlignedSum(cursor, erase, erase);
        AlignedFixed(cursor + erase, erase);
        next := AlignUp(cursor + erase, erase);
      }
    }
  }

  method AddFilesystem(b: Board, cursor: int) returns (r: seq<Part>)
    requires b.dev.erase > 0
    ensures r == FilesystemAt(b, cursor)
    ensures r != [] && b.fsCap.None? ==> b.dev.size < r[0].End() + b.dev.erase
    ensures r != [] && b.fsCap.Some? ==> r[0].size <= b.fsCap.value * KB && (b.dev.size < r[0].End() + b.dev.erase || b.fsCap.value * KB < r[0].size + b.dev.erase)
  {
    hide AlignDown;
    FilesystemFacts(b, cursor);
    var fs := AlignDown(b.dev.size - cursor, b.dev.erase);
    if b.fsCap.Some? {
      var cap := AlignDown(b.fsCap.value * KB, b.dev.erase);
      if cap <= fs {
        fs := cap;
      }
    }
    r := if fs > 0 then [Part(Filesystem, cursor, fs)] else [];
  }
}
