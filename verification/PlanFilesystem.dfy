/** Planning with a filesystem cap: the layout it gives, and when planning again from that layout changes nothing. */
module PlanFilesystem {
  import opened Partitions
  import opened Options
  import opened PlanPredefined
  import opened PlanLayout

  lemma OnlyOne(ps: seq<Part>, p: Part)
    requires multiset(ps) == multiset{p}
    ensures ps == [p]
  {
    assert |ps| == |multiset(ps)| == 1;
    assert ps == [ps[0]];
    assert p in multiset(ps);
  }

  /** The three partitions, in any order. */
  ghost predicate Triple(ps: seq<Part>, boot: Part, slot0: Part, slot1: Part) {
    && boot.name == Boot && slot0.name == Slot0 && slot1.name == Slot1
    && multiset(ps) == multiset{boot, slot0, slot1}
  }

  lemma FindTriple(ps: seq<Part>, boot: Part, slot0: Part, slot1: Part)
    requires Triple(ps, boot, slot0, slot1)
    ensures Find(ps, Boot) == Some(boot) && Find(ps, Slot0) == Some(slot0) && Find(ps, Slot1) == Some(slot1)
  {
    assert forall q :: q in ps <==> q in multiset(ps);
    FindOnly(ps, boot);
    FindOnly(ps, slot0);
    FindOnly(ps, slot1);
  }

  lemma PairBoth(slot0: Part, slot1: Part)
    ensures Pair(slot0, slot1, true) == [slot0, slot1]
  {
  }

  /** Replacing the slots of a triple. */
  lemma ReslotTriple(ps: seq<Part>, boot: Part, slot0: Part, slot1: Part, new0: Part, new1: Part)
    requires Triple(ps, boot, slot0, slot1) && new0.name == Slot0 && new1.name == Slot1 && boot.off <= new0.off <= new1.off
    ensures Reslot(ps, [new0, new1]) == [boot, new0, new1]
  {
    hide Sort, Without;
    WithoutCount(ps, {Slot0, Slot1});
    assert multiset(Without(ps, {Slot0, Slot1})) == multiset{boot};
    OnlyOne(Without(ps, {Slot0, Slot1}), boot);
    assert [boot] + [new0, new1] == [boot, new0, new1];
    SortFixed([boot, new0, new1]);
  }

  /** The boot partition with its pinned size. */
  function BootOf(b: Board, boot: Part): (p: Part)
    requires b.dev.erase > 0 && boot.name == Boot
    ensures p.name == Boot && p.off == boot.off
  {
    if b.bootPin.Some? then Part(Boot, boot.off, AlignUp(b.bootPin.value * KB, b.dev.erase)) else boot
  }

  lemma WithoutBoot(ps: seq<Part>, boot: Part, slot0: Part, slot1: Part)
    requires Triple(ps, boot, slot0, slot1)
    ensures multiset(Without(ps, {Boot})) == multiset{slot0, slot1}
  {
    hide Without;
    WithoutCount(ps, {Boot});
  }

  lemma PinTriple(b: Board, ps: seq<Part>, boot: Part, slot0: Part, slot1: Part)
    requires b.dev.erase > 0 && Triple(ps, boot, slot0, slot1)
    ensures Triple(PinBoot(b, ps), BootOf(b, boot), slot0, slot1)
  {
    hide Sort, Without, AlignUp;
    FindTriple(ps, boot, slot0, slot1);
    if PinBoot(b, ps) != ps {
      WithoutBoot(ps, boot, slot0, slot1);
    }
  }

  /** A board whose kept partitions are a bootloader and two slots, planned with a filesystem cap. */
  ghost predicate Standard(b: Board, boot: Part, slot0: Part, slot1: Part) {
    && b.dev.erase > 0 && !b.hasCarried && b.slotPin.None? && b.fsCap.Some?
    && Triple(Upstream(b, b.parts), boot, slot0, slot1)
    && 0 <= boot.off && 0 <= boot.size
  }

  /** The layout the cap asks for: the slots share what is left, slot 1 with one more sector, and the filesystem has the cap. */
  function CapSlots(b: Board, boot: Part): (r: seq<Part>)
    requires b.dev.erase > 0 && b.fsCap.Some?
  {
    var end, n := BootEnd(b, boot), Shared(b, boot);
    [boot, Part(Slot0, end, n), Part(Slot1, end + n, n + b.dev.erase)]
  }

  function CapTail(b: Board, boot: Part): (r: seq<Part>)
    requires b.dev.erase > 0 && b.fsCap.Some?
  {
    var cursor := BootEnd(b, boot) + 2 * Shared(b, boot) + b.dev.erase;
    var fs := AlignDown(b.fsCap.value * KB, b.dev.erase);
    [Part(Storage, cursor, StorageBytes(b))] +
    (if b.dataFlash then [] else [Part(Nvm, cursor + StorageBytes(b), b.dev.erase)]) +
    if fs > 0 then [Part(Filesystem, cursor + TailMin(b), fs)] else []
  }

  function CapLayout(b: Board, boot: Part): (r: seq<Part>)
    requires b.dev.erase > 0 && b.fsCap.Some?
  {
    CapSlots(b, boot) + CapTail(b, boot)
  }

  /** The cap and the tail fit behind the slots. */
  lemma TailOfCap(b: Board, boot: Part)
    requires b.dev.erase > 0 && b.fsCap.Some?
    ensures
      var cursor := BootEnd(b, boot) + 2 * Shared(b, boot) + b.dev.erase;
      cursor % b.dev.erase == 0 && Tail(b, cursor) == CapTail(b, boot)
  {
    hide AlignUp, AlignDown, Shared, BootEnd;
    var e := b.dev.erase;
    var end, n := BootEnd(b, boot), Shared(b, boot);
    var cursor := end + 2 * n + e;
    ModUnique(e, e, 1, 0);
    AlignedSum(end, n, e);
    AlignedSum(end + n, n, e);
    AlignedSum(end + n + n, e, e);
    var c2 := cursor + TailMin(b);
    var cap := AlignDown(b.fsCap.value * KB, e);
    AlignDownGreatest(b.dev.size - c2, e, cap);
    assert Min(AlignDown(b.dev.size - c2, e), cap) == cap;
  }

  lemma LastEndOfCap(b: Board, boot: Part)
    requires b.dev.erase > 0 && b.fsCap.Some? && Shared(b, boot) > 0
    ensures LastEnd(CapSlots(b, boot)) == BootEnd(b, boot) + 2 * Shared(b, boot) + b.dev.erase
  {
    hide Shared, BootEnd, LastEnd;
    var s := CapSlots(b, boot);
    assert s[0] in s && s[1] in s && s[2] in s;
    assert BootEnd(b, boot) >= boot.End();
  }

  /** The shared sizes differ from the slots at hand. */
  predicate Reslots(b: Board, boot: Part, slot0: Part, slot1: Part)
    requires b.dev.erase > 0 && b.fsCap.Some?
  {
    var n := Shared(b, boot);
    n > 0 && (slot0.size != n || slot1.size != n + b.dev.erase)
  }

  /** Slots cut down to 2 MB. */
  function CutTo(b: Board, boot: Part, slot1: Part): (r: seq<Part>)
    requires b.dev.erase > 0
  {
    var end, cap := BootEnd(b, boot), SlotCap(b);
    [boot, Part(Slot0, end, cap), Part(Slot1, Max(slot1.off, end + cap), cap)]
  }

  /** The slots of any standard board: cut when slot 0 is above the cap, else shared, else as they are. */
  lemma StandardSlots(b: Board, boot: Part, slot0: Part, slot1: Part)
    requires Standard(b, boot, slot0, slot1)
    ensures
      var p, kept := BootOf(b, boot), PinBoot(b, Sort(Upstream(b, b.parts)));
      && Triple(kept, p, slot0, slot1)
      && Slots(b) == if slot0.size > SlotCap(b) then CutTo(b, p, slot1) else if Reslots(b, p, slot0, slot1) then CapSlots(b, p) else kept
  {
    hide Sort, Upstream, PinBoot, AlignUp, AlignDown, Shared, BootEnd, Reslot, SlotCap, Find, NewSizes, CutSlots, BootOf;
    var p := BootOf(b, boot);
    var kept := PinBoot(b, Sort(Upstream(b, b.parts)));
    PinTriple(b, Sort(Upstream(b, b.parts)), boot, slot0, slot1);
    PinnedSize(b, boot);
    TripleSizes(b, kept, p, slot0, slot1);
    var end, n, cap := BootEnd(b, p), Shared(b, p), SlotCap(b);
    var shared := CapSlots(b, p);
    assert shared == [shared[0], shared[1], shared[2]];
    if Reslots(b, p, slot0, slot1) {
      ReslotTriple(kept, p, slot0, slot1, shared[1], shared[2]);
    }
    if slot0.size > cap {
      CapIsNat(b);
      var cut := CutTo(b, p, slot1);
      ReslotTriple(kept, p, slot0, slot1, cut[1], cut[2]);
      ReslotTriple(shared, p, shared[1], shared[2], cut[1], cut[2]);
    }
  }

  lemma CapIsNat(b: Board)
    requires b.dev.erase > 0
    ensures SlotCap(b) >= 0
  {
    ModUnique(0, b.dev.erase, 0, 0);
    AlignDownGreatest(2 * MB, b.dev.erase, 0);
  }

  lemma TripleSizes(b: Board, kept: seq<Part>, boot: Part, slot0: Part, slot1: Part)
    requires b.dev.erase > 0 && !b.hasCarried && b.slotPin.None? && b.fsCap.Some? && Triple(kept, boot, slot0, slot1)
    ensures NewSizes(b, kept) == if Reslots(b, boot, slot0, slot1) then CapSlots(b, boot)[1..] else []
    ensures CutSlots(b, kept) == if slot0.size > SlotCap(b) then CutTo(b, boot, slot1)[1..] else []
  {
    hide Shared, BootEnd, SlotCap, Find, Decide;
    FindTriple(kept, boot, slot0, slot1);
    DecideShares(b, boot, slot0, slot1);
    var end, n, cap := BootEnd(b, boot), Shared(b, boot), SlotCap(b);
    PairBoth(Part(Slot0, end, n), Part(Slot1, end + n, n + b.dev.erase));
    PairBoth(Part(Slot0, end, cap), Part(Slot1, Max(slot1.off, end + cap), cap));
  }

  /** A standard board whose slots have other sizes than the cap asks for gets the layout it asks for; with a slot 0 above
      2 MB it gets slots cut to that first. */
  lemma CapPlan(b: Board, boot: Part, slot0: Part, slot1: Part)
    requires Standard(b, boot, slot0, slot1)
    requires slot0.size <= SlotCap(b) ==> Reslots(b, BootOf(b, boot), slot0, slot1)
    ensures
      var p := BootOf(b, boot);
      var cut := CutTo(b, p, slot1);
      Plan(b) == if slot0.size <= SlotCap(b) then CapLayout(b, p) else cut + Tail(b, AlignUp(LastEnd(cut), b.dev.erase))
  {
    hide Sort, Upstream, PinBoot, AlignUp, AlignDown, Shared, BootEnd, Tail, LastEnd, TailMin, CapTail, SlotCap, BootOf, Slots, CapSlots, CutTo;
    StandardSlots(b, boot, slot0, slot1);
    if slot0.size <= SlotCap(b) {
      var p := BootOf(b, boot);
      LastEndOfCap(b, p);
      TailOfCap(b, p);
      AlignedFixed(BootEnd(b, p) + 2 * Shared(b, p) + b.dev.erase, b.dev.erase);
    }
  }

  lemma DecideShares(b: Board, boot: Part, slot0: Part, slot1: Part)
    requires b.dev.erase > 0 && !b.hasCarried && b.slotPin.None? && b.fsCap.Some?
    ensures
      var n := Shared(b, boot);
      Decide(b, Some(boot), Some(slot0), Some(slot1)) ==
      if Reslots(b, boot, slot0, slot1) then Resize(n, BootEnd(b, boot) + n, n + b.dev.erase) else KeepSizes
  {
    hide Shared, BootEnd, TailMin, AlignUp, AlignDown;
  }

  lemma PinnedSize(b: Board, boot: Part)
    requires b.dev.erase > 0 && boot.name == Boot && boot.size >= 0
    ensures BootOf(b, boot).size >= 0
  {
  }

  /** The slots are equal up to the swap sector, the filesystem has exactly the cap, and all is disjoint and in the device. */
  lemma CapLayoutIsRight(b: Board, boot: Part)
    requires b.dev.erase > 0 && b.fsCap.Some? && Shared(b, boot) > 0 && boot.name == Boot && 0 <= boot.off && 0 <= boot.size
    ensures
      var r := CapLayout(b, boot);
      && Disjoint(r) && (forall i :: 0 <= i < |r| ==> Inside(r[i], b.dev))
      && (forall i :: 1 <= i < |r| ==> Aligned(r[i], b.dev))
      && r[2].size == r[1].size + b.dev.erase
      && (b.fsCap.value * KB >= b.dev.erase ==> r[|r| - 1].name == Filesystem && r[|r| - 1].size == AlignDown(b.fsCap.value * KB, b.dev.erase))
  {
    hide AlignUp, AlignDown, Shared, BootEnd, Filled, TailMin;
    var r, e := CapLayout(b, boot), b.dev.erase;
    var rest := r[1..];
    assert r == [boot] + rest;
    RestFilled(b, boot);
    BootThenRest(boot, rest, e, BootEnd(b, boot), BootEnd(b, boot) + 2 * Shared(b, boot) + e + TailMin(b) + AlignDown(b.fsCap.value * KB, e));
    if b.fsCap.value * KB >= e {
      ModUnique(e, e, 1, 0);
      AlignDownGreatest(b.fsCap.value * KB, e, e);
    }
  }

  /** Everything from the end of the bootloader on. */
  lemma RestFilled(b: Board, boot: Part)
    requires b.dev.erase > 0 && b.fsCap.Some? && Shared(b, boot) > 0 && 0 <= boot.off && 0 <= boot.size
    ensures
      var rest, e := CapLayout(b, boot)[1..], b.dev.erase;
      && Filled(rest, e, BootEnd(b, boot) + 2 * Shared(b, boot) + e + TailMin(b) + AlignDown(b.fsCap.value * KB, e))
      && (forall i :: 0 <= i < |rest| ==> rest[i].off >= BootEnd(b, boot))
  {
    hide AlignUp, AlignDown, Shared, BootEnd, Filled, Names, CapTail;
    var e, end, n := b.dev.erase, BootEnd(b, boot), Shared(b, boot);
    var s0, s1 := CapSlots(b, boot)[1], CapSlots(b, boot)[2];
    ModUnique(e, e, 1, 0);
    AlignedSum(n, e, e);
    AlignedSum(end, n, e);
    NoneFilled(e, end);
    Append([], e, end, s0);
    Append([] + [s0], e, end + n, s1);
    assert [] + [s0] + [s1] == [s0, s1];
    TailFilled(b, boot, [s0, s1]);
    assert CapLayout(b, boot)[1..] == [s0, s1] + CapTail(b, boot);
  }

  lemma TailFilled(b: Board, boot: Part, slots: seq<Part>)
    requires b.dev.erase > 0 && b.fsCap.Some?
    requires Filled(slots, b.dev.erase, BootEnd(b, boot) + 2 * Shared(b, boot) + b.dev.erase)
    ensures
      var c, e := BootEnd(b, boot) + 2 * Shared(b, boot) + b.dev.erase, b.dev.erase;
      && Filled(slots + CapTail(b, boot), e, c + TailMin(b) + AlignDown(b.fsCap.value * KB, e))
      && forall p :: p in CapTail(b, boot) ==> p.off >= c
  {
    hide AlignUp, AlignDown, Shared, BootEnd, Filled, Names;
    var e, c := b.dev.erase, BootEnd(b, boot) + 2 * Shared(b, boot) + b.dev.erase;
    var tail, fs := CapTail(b, boot), AlignDown(b.fsCap.value * KB, e);
    ModUnique(0, e, 0, 0);
    ModUnique(e, e, 1, 0);
    AlignDownGreatest(b.fsCap.value * KB, e, 0);
    TailOfCap(b, boot);
    AlignedSum(c, StorageBytes(b), e);
    Append(slots, e, c, tail[0]);
    var ps := slots + [tail[0]];
    if !b.dataFlash {
      AlignedSum(c + StorageBytes(b), e, e);
      Append(ps, e, c + StorageBytes(b), tail[1]);
      ps := ps + [tail[1]];
    }
    if fs > 0 {
      Append(ps, e, c + TailMin(b), tail[|tail| - 1]);
      ps := ps + [tail[|tail| - 1]];
    }
    assert slots + tail == ps;
  }

  lemma NoneFilled(erase: nat, cursor: int)
    requires erase > 0 && cursor >= 0 && cursor % erase == 0
    ensures Filled([], erase, cursor)
  {
  }

  lemma BootThenRest(boot: Part, rest: seq<Part>, erase: nat, end: int, cursor: int)
    requires erase > 0 && boot.End() <= end && Filled(rest, erase, cursor) && forall i :: 0 <= i < |rest| ==> rest[i].off >= end
    ensures Disjoint([boot] + rest)
    ensures forall i :: 1 <= i < |[boot] + rest| ==> ([boot] + rest)[i] == rest[i - 1]
    ensures forall i :: 0 <= i < |rest| ==> rest[i].off >= 0 && rest[i].size >= 0 && rest[i].End() <= cursor
                                            && rest[i].off % erase == 0 && rest[i].size % erase == 0
  {
  }

  // ----- planning again -----

  /** The numbers do not depend on the partitions. */
  lemma SameNumbers(b: Board, parts: seq<Part>, boot: Part)
    requires b.dev.erase > 0 && b.fsCap.Some? && boot.name == Boot
    ensures
      var b2 := b.(parts := parts);
      && Shared(b2, boot) == Shared(b, boot) && BootEnd(b2, boot) == BootEnd(b, boot) && SlotCap(b2) == SlotCap(b)
      && CapSlots(b2, boot) == CapSlots(b, boot) && CapTail(b2, boot) == CapTail(b, boot) && BootOf(b2, boot) == BootOf(b, boot)
  {
  }

  lemma PinnedTwice(b: Board, boot: Part)
    requires b.dev.erase > 0 && boot.name == Boot
    ensures BootOf(b, BootOf(b, boot)) == BootOf(b, boot)
  {
  }

  /** Planning from a layout of three sorted partitions in front of a tail starts from those three. */
  lemma StartsFrom(b: Board, three: seq<Part>, tail: seq<Part>)
    requires b.dev.erase > 0 && !b.singleApp && |three| == 3 && Ordered(three)
    requires three[0].name == Boot && three[1].name == Slot0 && three[2].name == Slot1 && BootOf(b, three[0]) == three[0]
    requires forall p :: p in tail ==> p.name in {Storage, Nvm, Filesystem}
    ensures
      var b2 := b.(parts := three + tail);
      Triple(Upstream(b2, b2.parts), three[0], three[1], three[2]) && PinBoot(b2, Sort(Upstream(b2, b2.parts))) == three
  {
    hide Sort, Upstream, AlignUp;
    var b2 := b.(parts := three + tail);
    UpstreamFront(b2, three, tail);
    SortFixed(three);
    assert three == [three[0], three[1], three[2]];
    FindTriple(three, three[0], three[1], three[2]);
  }

  /** Planning again from the layout changes nothing exactly when the shared size is within the 2 MB cap. */
  lemma CapFixedPoint(b: Board, boot: Part)
    requires b.dev.erase > 0 && !b.hasCarried && !b.singleApp && b.slotPin.None? && b.fsCap.Some?
    requires boot.name == Boot && 0 <= boot.off && 0 <= boot.size && BootOf(b, boot) == boot && Shared(b, boot) > 0
    ensures Plan(b.(parts := CapLayout(b, boot))) == CapLayout(b, boot) <==> Shared(b, boot) <= SlotCap(b)
    ensures Shared(b, boot) > SlotCap(b) ==>
              Slots(b.(parts := CapLayout(b, boot))) ==
              [boot, Part(Slot0, BootEnd(b, boot), SlotCap(b)), Part(Slot1, BootEnd(b, boot) + Shared(b, boot), SlotCap(b))]
  {
    hide Sort, AlignUp, AlignDown, Shared, BootEnd, Tail, LastEnd, TailMin, CapTail, SlotCap, Slots, CapSlots;
    var b2 := b.(parts := CapLayout(b, boot));
    var end, n, cap := BootEnd(b, boot), Shared(b, boot), SlotCap(b);
    SlotsAgain(b, boot);
    SameNumbers(b, b2.parts, boot);
    if n <= cap {
      LastEndOfCap(b, boot);
      TailOfCap(b2, boot);
      AlignedFixed(end + 2 * n + b.dev.erase, b.dev.erase);
    } else {
      assert Plan(b2)[1] == Slots(b2)[1];
      assert CapSlots(b, boot)[1].size == n by {
        SlotsOf(b, boot);
      }
      assert CapLayout(b, boot)[1] == CapSlots(b, boot)[1];
    }
  }

  lemma SlotsOf(b: Board, boot: Part)
    requires b.dev.erase > 0 && b.fsCap.Some?
    ensures |CapSlots(b, boot)| == 3 && CapSlots(b, boot)[1].size == Shared(b, boot)
  {
  }

  /** The slots on the second run: the same, or cut down to the cap. */
  lemma SlotsAgain(b: Board, boot: Part)
    requires b.dev.erase > 0 && !b.hasCarried && !b.singleApp && b.slotPin.None? && b.fsCap.Some?
    requires boot.name == Boot && 0 <= boot.off && 0 <= boot.size && BootOf(b, boot) == boot && Shared(b, boot) > 0
    ensures |CapSlots(b, boot)| == 3
    ensures
      var end, n, cap := BootEnd(b, boot), Shared(b, boot), SlotCap(b);
      Slots(b.(parts := CapLayout(b, boot))) ==
      if n <= cap then CapSlots(b, boot) else [boot, Part(Slot0, end, cap), Part(Slot1, end + n, cap)]
  {
    hide Sort, Upstream, PinBoot, AlignUp, AlignDown, Shared, BootEnd, Tail, TailMin, CapTail, SlotCap, BootOf, Slots;
    var three, tail := CapSlots(b, boot), CapTail(b, boot);
    var b2 := b.(parts := three + tail);
    CapTailNames(b, boot);
    StartsFrom(b, three, tail);
    SameNumbers(b, three + tail, boot);
    StandardSlots(b2, three[0], three[1], three[2]);
    if Shared(b, boot) > SlotCap(b) {
      CapBelow(b, boot);
    }
  }

  lemma CapBelow(b: Board, boot: Part)
    requires b.dev.erase > 0 && b.fsCap.Some? && Shared(b, boot) > SlotCap(b)
    ensures Max(BootEnd(b, boot) + Shared(b, boot), BootEnd(b, boot) + SlotCap(b)) == BootEnd(b, boot) + Shared(b, boot)
  {
  }

  /** Re-slotting and planning again: a fixed point exactly when the shared size is within the 2 MB cap. */
  lemma PlanTwice(b: Board, boot: Part, slot0: Part, slot1: Part)
    requires Standard(b, boot, slot0, slot1)
    requires
      var n := Shared(b, BootOf(b, boot));
      n > 0 && (slot0.size != n || slot1.size != n + b.dev.erase) && slot0.size <= SlotCap(b)
    ensures Plan(b.(parts := Plan(b))) == Plan(b) <==> Shared(b, BootOf(b, boot)) <= SlotCap(b)
  {
    hide Plan, CapLayout, Shared, SlotCap, Upstream;
    assert slot1 in multiset(Upstream(b, b.parts)) && slot1 in Upstream(b, b.parts) && Keeps(b, slot1);
    CapPlan(b, boot, slot0, slot1);
    PinnedTwice(b, boot);
    PinnedSize(b, boot);
    CapFixedPoint(b, BootOf(b, boot));
  }

  lemma CapTailNames(b: Board, boot: Part)
    requires b.dev.erase > 0 && b.fsCap.Some?
    ensures forall p :: p in CapTail(b, boot) ==> p.name in {Storage, Nvm, Filesystem}
  {
  }

  /** Above the cap, planning alternates between the two layouts for ever. */
  lemma CapAlternates(b: Board, boot: Part)
    requires b.dev.erase > 0 && !b.hasCarried && !b.singleApp && b.slotPin.None? && b.fsCap.Some?
    requires boot.name == Boot && 0 <= boot.off && 0 <= boot.size && BootOf(b, boot) == boot && Shared(b, boot) > SlotCap(b)
    requires Shared(b, boot) > 0
    ensures
      var capped := Plan(b.(parts := CapLayout(b, boot)));
      capped != CapLayout(b, boot) && Plan(b.(parts := capped)) == CapLayout(b, boot)
  {
    hide Sort, Upstream, PinBoot, AlignUp, AlignDown, Shared, BootEnd, Tail, LastEnd, CapTail, SlotCap, BootOf, Slots, CapSlots;
    CapFixedPoint(b, boot);
    var b2 := b.(parts := CapLayout(b, boot));
    var three := Slots(b2);
    var cursor := AlignUp(LastEnd(three), b2.dev.erase);
    TailFacts(b2, cursor);
    var b3 := b.(parts := Plan(b2));
    StartsFrom(b, three, Tail(b2, cursor));
    SameNumbers(b, Plan(b2), boot);
    CapPlan(b3, boot, three[1], three[2]);
  }

  /** A 16 MB device with 4 KB erase blocks and a 4 MB cap is one of them. */
  lemma AlternatingBoard(b: Board, boot: Part)
    requires b == Board(Device("flash", 16 * MB, 4096), [], false, false, false, None, None, Some(4096)) && boot == Part(Boot, 0, 128 * KB)
    ensures
      var once := CapLayout(b, boot);
      var twice := Plan(b.(parts := once));
      twice != once && Plan(b.(parts := twice)) == once
  {
    hide Plan, CapLayout;
    assert Shared(b, boot) > SlotCap(b) by {
      assert BootEnd(b, boot) == 128 * KB && TailMin(b) == 36 * KB;
    }
    CapAlternates(b, boot);
  }

  /** A 2 MB device with two 512 KB slots and a 512 KB cap is re-slotted once and then settled. */
  lemma SettledBoard(b: Board, boot: Part, slot0: Part, slot1: Part)
    requires boot == Part(Boot, 0, 64 * KB) && slot0 == Part(Slot0, 64 * KB, 512 * KB) && slot1 == Part(Slot1, 576 * KB, 512 * KB)
    requires b == Board(Device("flash", 2 * MB, 4096), [boot, slot0, slot1], false, false, false, None, None, Some(512))
    ensures Plan(b) != b.parts && Plan(b.(parts := Plan(b))) == Plan(b)
  {
    hide Plan, CapLayout, Upstream, Shared, SlotCap;
    UpstreamFront(b, b.parts, []);
    assert b.parts + [] == b.parts;
    SettledNumbers(b, boot);
    CapPlan(b, boot, slot0, slot1);
    PlanTwice(b, boot, slot0, slot1);
    SecondIsSlot0(b, boot);
  }

  lemma SettledNumbers(b: Board, boot: Part)
    requires boot == Part(Boot, 0, 64 * KB) && b.dev == Device("flash", 2 * MB, 4096) && !b.dataFlash && b.fsCap == Some(512)
    ensures Shared(b, boot) == 716 * KB && SlotCap(b) == 2 * MB
  {
    assert BootEnd(b, boot) == 64 * KB && TailMin(b) == 36 * KB;
  }

  lemma SecondIsSlot0(b: Board, boot: Part)
    requires b.dev.erase > 0 && b.fsCap.Some?
    ensures |CapLayout(b, boot)| >= 3 && CapLayout(b, boot)[1].size == Shared(b, boot)
  {
    hide Shared, BootEnd, CapTail;
  }
}
