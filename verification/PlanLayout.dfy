/** What a plan on a predefined layout guarantees for every board: what stays, what is new, and exactly when the result is
    disjoint and inside the device. */
module PlanLayout {
  import opened Partitions
  import opened Options
  import opened PlanPredefined

  // ----- filtering -----

  lemma {:induction false} WithoutCount(ps: seq<Part>, names: set<Name>)
    ensures forall q :: multiset(Without(ps, names))[q] == if q.name in names then 0 else multiset(ps)[q]
  {
    if ps != [] {
      var init, last := ps[..|ps| - 1], ps[|ps| - 1];
      assert ps == init + [last];
      WithoutCount(init, names);
    }
  }

  lemma {:induction false} WithoutDisjoint(ps: seq<Part>, names: set<Name>)
    requires Disjoint(ps)
    ensures Disjoint(Without(ps, names))
  {
    if ps != [] {
      var init, last := ps[..|ps| - 1], ps[|ps| - 1];
      assert ps == init + [last];
      DisjointAppend(init, [last]);
      WithoutDisjoint(init, names);
      DisjointAppend(Without(init, names), [last]);
      assert Without(init, names) + [] == Without(init, names);
    }
  }

  lemma {:induction false} UpstreamDisjoint(b: Board, ps: seq<Part>)
    requires Disjoint(ps)
    ensures Disjoint(Upstream(b, ps))
  {
    if ps != [] {
      var init, last := ps[..|ps| - 1], ps[|ps| - 1];
      assert ps == init + [last];
      DisjointAppend(init, [last]);
      UpstreamDisjoint(b, init);
      DisjointAppend(Upstream(b, init), [last]);
      assert Upstream(b, init) + [] == Upstream(b, init);
    }
  }

  lemma {:induction false} UpstreamFront(b: Board, a: seq<Part>, c: seq<Part>)
    requires (forall p :: p in a ==> Keeps(b, p)) && (forall p :: p in c ==> !Keeps(b, p))
    ensures Upstream(b, a + c) == a
    decreases |a| + |c|
  {
    if c != [] {
      var init, last := c[..|c| - 1], c[|c| - 1];
      assert (a + c)[..|a + c| - 1] == a + init && (a + c)[|a + c| - 1] == last;
      UpstreamFront(b, a, init);
    } else if a != [] {
      var init, last := a[..|a| - 1], a[|a| - 1];
      assert a + c == a && init + c == init && a == init + [last];
      UpstreamFront(b, init, c);
    } else {
      assert a + c == [];
    }
  }

  lemma FindOnly(ps: seq<Part>, p: Part)
    requires p in ps && forall q :: q in ps && q.name == p.name ==> q == p
    ensures Find(ps, p.name) == Some(p)
  {
  }

  // ----- what is new and what stays -----

  /** The bootloader with another size, if it is pinned to one. */
  function NewBoot(b: Board): (r: seq<Part>)
    requires b.dev.erase > 0
    ensures forall p :: p in r ==> p.name == Boot
  {
    var boot := Find(Sort(Upstream(b, b.parts)), Boot);
    if b.bootPin.None? || boot.None? then []
    else
      var size := AlignUp(b.bootPin.value * KB, b.dev.erase);
      if size == boot.value.size then [] else [Part(Boot, boot.value.off, size)]
  }

  /** The partitions the slots are planned from. */
  function Pinned(b: Board): (r: seq<Part>)
    requires b.dev.erase > 0
  {
    PinBoot(b, Sort(Upstream(b, b.parts)))
  }

  /** The slots with other sizes, if they are re-sized or cut to the cap. */
  function NewSlots(b: Board): (r: seq<Part>)
    requires b.dev.erase > 0
  {
    if CutSlots(b, Pinned(b)) != [] then CutSlots(b, Pinned(b)) else NewSizes(b, Pinned(b))
  }

  function New(b: Board): (r: seq<Part>)
    requires b.dev.erase > 0
  {
    NewBoot(b) + NewSlots(b)
  }

  /** The names that are planned anew. */
  function Renewed(b: Board): (names: set<Name>)
    requires b.dev.erase > 0
  {
    (if NewBoot(b) == [] then {} else {Boot}) + if NewSlots(b) == [] then {} else {Slot0, Slot1}
  }

  /** The partitions that stay where and as they are. */
  function Rest(b: Board): (r: seq<Part>)
    requires b.dev.erase > 0
    ensures forall p :: p in r <==> p in b.parts && Keeps(b, p) && p.name !in Renewed(b)
  {
    Without(Upstream(b, b.parts), Renewed(b))
  }

  lemma ReslotCount(ps: seq<Part>, slots: seq<Part>)
    ensures multiset(Reslot(ps, slots)) == multiset(Without(ps, {Slot0, Slot1})) + multiset(slots)
  {
    hide Sort, Without;
  }

  predicate AreSlots(ps: seq<Part>) {
    forall p :: p in ps ==> p.name in {Slot0, Slot1}
  }

  /** Re-slotting a list that was already re-slotted. */
  lemma ReslotTwice(ps: seq<Part>, slots: seq<Part>)
    requires AreSlots(slots)
    ensures multiset(Without(Reslot(ps, slots), {Slot0, Slot1})) == multiset(Without(ps, {Slot0, Slot1}))
  {
    hide Sort, Without, Reslot;
    var names, r := {Slot0, Slot1}, Reslot(ps, slots);
    ReslotCount(ps, slots);
    WithoutCount(r, names);
    WithoutCount(ps, names);
    forall q
      ensures multiset(Without(r, names))[q] == multiset(Without(ps, names))[q]
    {
      assert q.name !in names ==> q !in slots;
    }
  }

  lemma PinnedCount(b: Board)
    requires b.dev.erase > 0
    ensures multiset(Pinned(b)) ==
            multiset(Without(Upstream(b, b.parts), if NewBoot(b) == [] then {} else {Boot})) + multiset(NewBoot(b))
  {
    hide Sort, Without, Upstream, AlignUp;
    var up := Upstream(b, b.parts);
    WithoutCount(up, {});
    assert multiset(Without(up, {})) == multiset(up);
    WithoutCount(up, {Boot});
    WithoutCount(Sort(up), {Boot});
    assert multiset(Without(Sort(up), {Boot})) == multiset(Without(up, {Boot}));
  }

  lemma SizesAreSlots(b: Board, kept: seq<Part>)
    requires b.dev.erase > 0
    ensures AreSlots(NewSizes(b, kept)) && AreSlots(CutSlots(b, kept))
  {
    hide Decide, BootEnd, SlotCap, Find;
  }

  lemma SlotsCountOf(b: Board)
    requires b.dev.erase > 0
    ensures multiset(Slots(b)) ==
            multiset(Without(Pinned(b), if NewSlots(b) == [] then {} else {Slot0, Slot1})) + multiset(NewSlots(b))
  {
    hide Sort, Without, Reslot, NewSizes, CutSlots, PinBoot, Upstream;
    var kept := Pinned(b);
    WithoutCount(kept, {});
    assert multiset(Without(kept, {})) == multiset(kept);
    SizesAreSlots(b, kept);
    ReslotCount(kept, NewSizes(b, kept));
    ReslotTwice(kept, NewSizes(b, kept));
    ReslotCount(Resized(b, kept), CutSlots(b, kept));
  }

  /** The slots of the plan are what stays and what is new. */
  lemma SlotsAreRestAndNew(b: Board)
    requires b.dev.erase > 0
    ensures multiset(Slots(b)) == multiset(Rest(b) + New(b))
  {
    hide Sort, Without, NewBoot, NewSlots, Slots, Pinned, Upstream;
    var boots, slots := if NewBoot(b) == [] then {} else {Boot}, if NewSlots(b) == [] then {} else {Slot0, Slot1};
    SlotsCountOf(b);
    PinnedCount(b);
    FilterTwice(Upstream(b, b.parts), Pinned(b), NewBoot(b), boots, slots);
  }

  lemma FilterTwice(up: seq<Part>, pinned: seq<Part>, boot: seq<Part>, boots: set<Name>, slots: set<Name>)
    requires multiset(pinned) == multiset(Without(up, boots)) + multiset(boot)
    requires Boot !in slots && forall p :: p in boot ==> p.name == Boot
    ensures multiset(Without(pinned, slots)) == multiset(Without(up, boots + slots)) + multiset(boot)
  {
    hide Without;
    WithoutCount(pinned, slots);
    WithoutCount(up, boots);
    WithoutCount(up, boots + slots);
    forall q
      ensures multiset(Without(pinned, slots))[q] == multiset(Without(up, boots + slots))[q] + multiset(boot)[q]
    {
      assert q in boot ==> q.name == Boot;
      assert q !in boot ==> multiset(boot)[q] == 0;
    }
  }

  // ----- the tail -----

  /** Storage, NVM and filesystem, wherever they fit: whole erase blocks, inside the device, one behind the other, and behind
      the cursor. */
  lemma TailFacts(b: Board, cursor: int)
    requires b.dev.erase > 0 && cursor % b.dev.erase == 0
    ensures Disjoint(Tail(b, cursor))
    ensures forall p :: p in Tail(b, cursor) ==>
              && p.name in {Storage, Nvm, Filesystem} && cursor <= p.off && 0 < p.size && p.End() <= b.dev.size
              && p.off % b.dev.erase == 0 && p.size % b.dev.erase == 0
  {
    hide AlignUp, AlignDown;
    var e, storage := b.dev.erase, StorageBytes(b);
    assert storage >= STORAGE_SIZE > 0;
    var c1 := cursor + if cursor + storage <= b.dev.size then storage else 0;
    AlignedSum(cursor, storage, e);
    var c2 := c1 + if !b.dataFlash && c1 + e <= b.dev.size then e else 0;
    ModUnique(e, e, 1, 0);
    AlignedSum(c1, e, e);
    FilesystemFacts(b, c2);
  }

  /** The filesystem leaves less than a block, of the device or of its cap. */
  lemma FilesystemFacts(b: Board, cursor: int)
    requires b.dev.erase > 0
    ensures
      var n := FilesystemBytes(b, cursor);
      && n % b.dev.erase == 0 && cursor + n <= b.dev.size
      && (b.fsCap.None? ==> b.dev.size < cursor + n + b.dev.erase)
      && (b.fsCap.Some? ==> n <= b.fsCap.value * KB && (b.dev.size < cursor + n + b.dev.erase || b.fsCap.value * KB < n + b.dev.erase))
  {
    hide AlignDown;
  }

  // ----- every board -----

  /** An upstream layout that is disjoint and inside its device. */
  predicate WellFormed(b: Board) {
    b.dev.erase > 0 && Disjoint(b.parts) && forall p :: p in b.parts ==> Inside(p, b.dev)
  }

  lemma DecideFacts(b: Board, boot: Option<Part>, slot0: Option<Part>, slot1: Option<Part>)
    requires b.dev.erase > 0
    ensures
      var d := Decide(b, boot, slot0, slot1);
      d.Resize? ==>
        && boot.Some? && d.slot0 >= 0 && d.slot1 >= 0 && d.slot0 <= d.slot1
        && (slot1.Some? ==> d.slot1Off >= BootEnd(b, boot.value) + d.slot0)
  {
    hide AlignUp, Shared, BootEnd, TailMin;
    ModUnique(0, b.dev.erase, 0, 0);
    AlignDownGreatest(SLOT0_MIN_SIZE, b.dev.erase, 0);
    if b.slotPin.Some? {
      AlignDownGreatest(b.slotPin.value * KB, b.dev.erase, 0);
    }
  }

  /** The new slots start right behind the bootloader and one behind the other. */
  predicate SlotsFrom(slots: seq<Part>, end: int) {
    && |slots| <= 2
    && (slots != [] ==> slots[0].off == end && slots[0].size >= 0)
    && (|slots| == 2 ==> slots[0].End() <= slots[1].off && slots[0].size <= slots[1].size)
  }

  lemma NewSlotsFacts(b: Board)
    requires b.dev.erase > 0 && NewSlots(b) != []
    ensures Find(Pinned(b), Boot).Some? && SlotsFrom(NewSlots(b), BootEnd(b, Find(Pinned(b), Boot).value))
  {
    hide Decide, BootEnd, Find, Pinned, AlignDown;
    var kept := Pinned(b);
    var boot, slot0, slot1 := Find(kept, Boot), Find(kept, Slot0), Find(kept, Slot1);
    DecideFacts(b, boot, slot0, slot1);
    ModUnique(0, b.dev.erase, 0, 0);
    AlignDownGreatest(2 * MB, b.dev.erase, 0);
  }

  /** The bootloader the slots are planned behind: the re-sized one, or one that stays. */
  lemma PinnedBoot(b: Board)
    requires b.dev.erase > 0 && Find(Pinned(b), Boot).Some?
    ensures
      var boot := Find(Pinned(b), Boot).value;
      boot in (if NewBoot(b) == [] then b.parts else NewBoot(b)) && (NewBoot(b) != [] ==> NewBoot(b) == [boot])
  {
    hide Sort, AlignUp, Without, Upstream;
  }

  lemma NewFacts(b: Board)
    requires WellFormed(b)
    ensures Disjoint(New(b)) && forall p :: p in New(b) ==> 0 <= p.off && 0 <= p.size
  {
    hide NewSlots, Pinned, Find, BootEnd, Disjoint;
    if NewSlots(b) != [] {
      NewSlotsFacts(b);
      PinnedBoot(b);
    }
    NewBootFacts(b);
    InOrder(b, NewBoot(b), NewSlots(b));
  }

  lemma NewBootFacts(b: Board)
    requires WellFormed(b)
    ensures |NewBoot(b)| <= 1 && forall p :: p in NewBoot(b) ==> 0 <= p.off && 0 <= p.size
  {
    hide Sort, Upstream;
  }

  lemma InOrder(b: Board, boot: seq<Part>, slots: seq<Part>)
    requires |boot| <= 1 && |slots| <= 2 && forall p :: p in boot ==> 0 <= p.off && 0 <= p.size
    requires slots != [] ==> exists end :: 0 <= end && SlotsFrom(slots, end) && (boot != [] ==> boot[0].End() <= end)
    ensures Disjoint(boot + slots) && forall p :: p in boot + slots ==> 0 <= p.off && 0 <= p.size
  {
    assert forall p :: p in boot + slots ==> p in boot || p in slots;
  }

  /** For every board: the plan is disjoint exactly when no new partition meets one that stays. */
  lemma PlanDisjointIff(b: Board)
    requires WellFormed(b)
    ensures Disjoint(Plan(b)) <==> AllApart(New(b), Rest(b))
  {
    hide Disjoint, AllApart, Slots, New, Rest, Tail, LastEnd, AlignUp;
    var slots := Slots(b);
    var tail := Tail(b, AlignUp(LastEnd(slots), b.dev.erase));
    TailApart(b, slots);
    DisjointAppend(slots, tail);
    SlotsAreRestAndNew(b);
    DisjointSame(slots, Rest(b) + New(b));
    DisjointAppend(Rest(b), New(b));
    ApartSwap(Rest(b), New(b));
    NewFacts(b);
    RestDisjoint(b);
  }

  lemma TailApart(b: Board, kept: seq<Part>)
    requires b.dev.erase > 0
    ensures
      var tail := Tail(b, AlignUp(LastEnd(kept), b.dev.erase));
      Disjoint(tail) && AllApart(kept, tail) && forall p, q :: p in kept && q in tail ==> p.End() <= q.off
  {
    hide Tail, LastEnd, AlignUp, Disjoint;
    TailFacts(b, AlignUp(LastEnd(kept), b.dev.erase));
  }

  lemma ApartSwap(a: seq<Part>, c: seq<Part>)
    ensures AllApart(a, c) <==> AllApart(c, a)
  {
  }

  lemma RestDisjoint(b: Board)
    requires WellFormed(b)
    ensures Disjoint(Rest(b))
  {
    UpstreamDisjoint(b, b.parts);
    WithoutDisjoint(Upstream(b, b.parts), Renewed(b));
  }

  lemma PlanMembers(b: Board)
    requires b.dev.erase > 0
    ensures forall p :: p in Plan(b) <==> p in Rest(b) || p in New(b) || p in Tail(b, AlignUp(LastEnd(Slots(b)), b.dev.erase))
  {
    hide Slots, New, Rest, Tail, LastEnd, AlignUp;
    SlotsAreRestAndNew(b);
    assert forall p :: p in Slots(b) <==> p in multiset(Slots(b));
    assert forall p :: p in Rest(b) + New(b) <==> p in multiset(Rest(b) + New(b));
  }

  /** For every board: the plan is inside the device exactly when the new partitions end inside it. */
  lemma PlanInsideIff(b: Board)
    requires WellFormed(b)
    ensures (forall p :: p in Plan(b) ==> Inside(p, b.dev)) <==> forall p :: p in New(b) ==> p.End() <= b.dev.size
  {
    hide Disjoint, Slots, New, Rest, Tail, LastEnd, AlignUp, Plan;
    var cursor := AlignUp(LastEnd(Slots(b)), b.dev.erase);
    PlanMembers(b);
    NewFacts(b);
    TailFacts(b, cursor);
    SlotsAreRestAndNew(b);
    assert forall p :: p in Rest(b) + New(b) <==> p in multiset(Rest(b) + New(b));
    assert forall p :: p in Slots(b) ==> p in multiset(Slots(b));
    assert LastEnd(Slots(b)) >= 0;
  }

  /** For every board: the partitions the planner does not own are in the plan as they were, and no others of their kind. */
  lemma OthersStay(b: Board, p: Part)
    requires b.dev.erase > 0 && p.name.Other?
    ensures p in Plan(b) <==> p in b.parts
  {
    hide Slots, Tail, LastEnd, AlignUp, Plan, New, Renewed;
    PlanMembers(b);
    TailFacts(b, AlignUp(LastEnd(Slots(b)), b.dev.erase));
    NewNames(b);
  }

  lemma NewNames(b: Board)
    requires b.dev.erase > 0
    ensures Renewed(b) <= {Boot, Slot0, Slot1} && forall p :: p in New(b) ==> p.name in {Boot, Slot0, Slot1}
  {
    hide NewBoot, Pinned, CutSlots, NewSizes;
    SizesAreSlots(b, Pinned(b));
  }

  // ----- two boards whose plan goes wrong -----

  /** A list in order of offset that is kept whole, and nothing pinned. */
  lemma KeptWhole(b: Board)
    requires b.dev.erase > 0 && b.bootPin.None? && Ordered(b.parts) && forall p :: p in b.parts ==> Keeps(b, p)
    ensures Upstream(b, b.parts) == b.parts && Pinned(b) == b.parts && NewBoot(b) == []
  {
    hide Sort, Find, Upstream;
    UpstreamFront(b, b.parts, []);
    assert b.parts + [] == b.parts;
    SortFixed(b.parts);
  }

  /** Growth to the minimum: slot 0 behind the bootloader, and a slot 1 at least as large behind that. */
  lemma GrowthSizes(b: Board, boot: Part, slot0: Part, slot1: Option<Part>)
    requires b.dev.erase > 0 && NewBoot(b) == [] && !b.hasCarried && b.slotPin.None? && b.fsCap.None?
    requires Find(Pinned(b), Boot) == Some(boot) && Find(Pinned(b), Slot0) == Some(slot0) && Find(Pinned(b), Slot1) == slot1
    requires slot0.size < SLOT0_MIN_SIZE && slot0.size <= SlotCap(b)
    requires
      var end, size := BootEnd(b, boot), AlignDown(SLOT0_MIN_SIZE, b.dev.erase);
      var size1 := Max(if slot1.Some? then slot1.value.size else 0, size);
      (if slot1.Some? then Max(slot1.value.off, end + size) else 0) + size1 + TailMin(b) <= b.dev.size
    ensures Part(Slot0, BootEnd(b, boot), AlignDown(SLOT0_MIN_SIZE, b.dev.erase)) in New(b)
    ensures Renewed(b) == {Slot0, Slot1}
  {
    hide BootEnd, AlignDown, TailMin, SlotCap, Find, Pinned, AlignUp, NewBoot;
    assert New(b)[0] == Part(Slot0, BootEnd(b, boot), AlignDown(SLOT0_MIN_SIZE, b.dev.erase));
  }

  function Scratch(): (p: Part) {
    Part(Other("scratch"), 960 * KB, 64 * KB)
  }

  /** An upstream layout with a partition behind slot 1 that is not the planner's. */
  function WithScratch(): (b: Board) {
    Board(Device("flash", 4 * MB, 4096),
          [Part(Boot, 0, 64 * KB), Part(Slot0, 64 * KB, 448 * KB), Part(Slot1, 512 * KB, 448 * KB), Scratch()],
          false, false, false, None, None, None)
  }

  /** Growing slot 0 to 1 MB goes over that partition. */
  lemma ScratchBoard()
    ensures
      var b, grown := WithScratch(), Part(Slot0, 64 * KB, MB);
      && WellFormed(b) && grown in Plan(b) && Scratch() in Plan(b) && Overlap(grown, Scratch()) && !Disjoint(Plan(b))
  {
    hide Plan, New, Rest, Disjoint, WellFormed, Renewed;
    var b := WithScratch();
    ScratchGrows();
    PlanMembers(b);
    PlanDisjointIff(b);
  }

  lemma ScratchGrows()
    ensures
      var b := WithScratch();
      WellFormed(b) && Part(Slot0, 64 * KB, MB) in New(b) && Scratch() in Rest(b)
  {
    hide New, Find, AlignUp, AlignDown, Renewed, NewBoot, Pinned, WellFormed, Upstream, Without;
    var b := WithScratch();
    ScratchFound();
    Rounded(64 * KB);
    GrowthSizes(b, b.parts[0], b.parts[1], Some(b.parts[2]));
    assert Scratch() == b.parts[3];
  }

  lemma ScratchFound()
    ensures
      var b := WithScratch();
      && WellFormed(b) && NewBoot(b) == []
      && Find(Pinned(b), Boot) == Some(b.parts[0]) && Find(Pinned(b), Slot0) == Some(b.parts[1]) && Find(Pinned(b), Slot1) == Some(b.parts[2])
  {
    hide Find, AlignUp, NewBoot, Pinned, Upstream, Sort;
    var b := WithScratch();
    KeptWhole(b);
    FindOnly(b.parts, b.parts[0]);
    FindOnly(b.parts, b.parts[1]);
    FindOnly(b.parts, b.parts[2]);
  }

  lemma Rounded(end: nat)
    requires end % 4096 == 0
    ensures AlignUp(end, 4096) == end && AlignDown(SLOT0_MIN_SIZE, 4096) == MB && AlignDown(2 * MB, 4096) == 2 * MB
    ensures AlignUp(STORAGE_SIZE, 4096) == STORAGE_SIZE
  {
    hide AlignUp, AlignDown;
    AlignedFixed(end, 4096);
    AlignedFixed(MB, 4096);
    AlignedFixed(2 * MB, 4096);
    AlignedFixed(STORAGE_SIZE, 4096);
  }

  /** Without a slot 1 the room check leaves out the bootloader: slot 0 grows past the end of the device. */
  lemma OneSlotBoard(b: Board)
    requires b == Board(Device("flash", 1100 * KB, 4096), [Part(Boot, 0, 128 * KB), Part(Slot0, 128 * KB, 512 * KB)],
                        false, false, false, None, None, None)
    ensures WellFormed(b) && Part(Slot0, 128 * KB, MB) in Plan(b) && !Inside(Part(Slot0, 128 * KB, MB), b.dev)
  {
    hide Plan, Slots, Tail, LastEnd, Without, Upstream, Sort, Find, AlignUp, AlignDown;
    KeptWhole(b);
    FindOnly(b.parts, b.parts[0]);
    FindOnly(b.parts, b.parts[1]);
    Rounded(128 * KB);
    assert Find(b.parts, Slot1).None?;
    GrowthSizes(b, b.parts[0], b.parts[1], None);
    PlanMembers(b);
  }
}
