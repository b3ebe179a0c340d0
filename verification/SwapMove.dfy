/** Swap using move: the running image is first moved up one sector within the primary slot, then the two images are
    exchanged sector by sector. */
module SwapMove {
  import opened Bytes
  import opened Options
  import opened SwapEngine

  /** `n` sectors to swap (`find_last_idx`), and the `BOOT_MAX_IMG_SECTORS` of the status area's layout. */
  datatype Swap = Swap(n: nat, maxSectors: nat) {
    predicate Valid() {
      1 <= n < maxSectors
    }
  }

  /** Steps `0 .. n` move a sector up, from the last one down; then two steps per sector exchange it. */
  function MoveStep(w: Swap, k: nat): (t: Step)
    requires w.Valid() && k < 3 * w.n
  {
    if k < w.n then Step(Some(Copy(Primary(w.n - k - 1), Primary(w.n - k))), k)
    else
      var j := (k - w.n) / 2;
      Step(Some(if (k - w.n) % 2 == 0 then Copy(Secondary(j), Primary(j)) else Copy(Primary(j + 1), Secondary(j))), w.maxSectors + (k - w.n))
  }

  function MovePlan(w: Swap): (plan: Plan)
    requires w.Valid()
    ensures |plan| == 3 * w.n
    ensures forall k :: 0 <= k < |plan| ==> plan[k] == MoveStep(w, k)
  {
    seq(3 * w.n, (k: nat) requires k < 3 * w.n => MoveStep(w, k))
  }

  predicate Room(w: Swap, f: Flash) {
    |f.pri| >= w.n + 1 && |f.sec| >= w.n && |f.status| >= 3 * w.maxSectors
  }

  lemma MoveFits(w: Swap, f: Flash)
    requires w.Valid() && Room(w, f)
    ensures PlanFits(f, MovePlan(w))
  {
    var plan := MovePlan(w);
    forall k | 0 <= k < |plan|
      ensures StepFits(f, plan[k])
    {
    }
  }

  /** Moving up: the secondary slot is untouched and every old sector is in its place or one above. */
  ghost predicate MovingUp(w: Swap, f0: Flash, f: Flash, k: nat)
    requires SameShape(f0, f) && Room(w, f0) && k <= w.n
  {
    && (forall j :: 0 <= j < w.n ==> f.sec[j] == f0.sec[j])
    && (forall j :: 0 <= j < w.n - k ==> f.pri[j] == f0.pri[j])
    && (forall j :: w.n - k < j <= w.n ==> f.pri[j] == f0.pri[j - 1])
  }

  /** Exchanging: sectors below `c / 2` are exchanged, old sectors from there on are one above their place. */
  ghost predicate Exchanging(w: Swap, f0: Flash, f: Flash, c: nat)
    requires SameShape(f0, f) && Room(w, f0)
  {
    var i := c / 2;
    && (forall j :: 0 <= j < i && j < w.n ==> f.pri[j] == f0.sec[j] && f.sec[j] == f0.pri[j])
    && (c % 2 == 1 && i < w.n ==> f.pri[i] == f0.sec[i])
    && (c % 2 == 0 && i < w.n ==> f.sec[i] == f0.sec[i])
    && (forall j :: i < j <= w.n ==> f.pri[j] == f0.pri[j - 1])
    && (forall j :: i < j < w.n ==> f.sec[j] == f0.sec[j])
  }

  predicate Recorded(w: Swap, k: nat, p: nat) {
    (p < w.n && p < k) || (p >= w.maxSectors && p - w.maxSectors < k - w.n)
  }

  ghost predicate MoveInv(w: Swap, f0: Flash, f: Flash, k: nat) {
    && SameShape(f0, f) && Room(w, f0) && k <= 3 * w.n
    && (forall p :: 0 <= p < |f.status| ==> (f.status[p] <==> Recorded(w, k, p)))
    && (k <= w.n ==> MovingUp(w, f0, f, k))
    && (k >= w.n ==> Exchanging(w, f0, f, k - w.n))
  }

  ghost function MoveInvOf(w: Swap, f0: Flash): (inv: (Flash, nat) -> bool) {
    (f: Flash, k: nat) => MoveInv(w, f0, f, k)
  }

  lemma MoveTorn(w: Swap, f0: Flash, f: Flash, k: nat, s: Sector)
    requires w.Valid() && MoveInv(w, f0, f, k) && k < 3 * w.n
    ensures MoveInv(w, f0, Write(f, MoveStep(w, k).copy.value.dst, s), k)
  {
  }

  lemma MoveSteppedUp(w: Swap, f0: Flash, f: Flash, k: nat)
    requires w.Valid() && MoveInv(w, f0, f, k) && k < w.n
    ensures MoveInv(w, f0, Stepped(f, MoveStep(w, k)), k + 1)
  {
  }

  lemma MoveSteppedAcross(w: Swap, f0: Flash, f: Flash, k: nat)
    requires w.Valid() && MoveInv(w, f0, f, k) && w.n <= k < 3 * w.n
    ensures MoveInv(w, f0, Stepped(f, MoveStep(w, k)), k + 1)
  {
  }

  lemma MoveSound(w: Swap, f0: Flash)
    requires w.Valid()
    ensures Sound(MoveInvOf(w, f0), MovePlan(w), 0)
  {
    hide MovingUp, Exchanging, Stepped, Write;
    var inv, plan := MoveInvOf(w, f0), MovePlan(w);
    forall f, k: nat | k < |plan| && inv(f, k)
      ensures SoundAt(inv, plan[k], f, k)
    {
      MoveFits(w, f);
      forall s
        ensures inv(Write(f, plan[k].copy.value.dst, s), k)
      {
        MoveTorn(w, f0, f, k, s);
      }
      if k < w.n {
        MoveSteppedUp(w, f0, f, k);
      } else {
        MoveSteppedAcross(w, f0, f, k);
      }
    }
  }

  // ----- booting -----

  /** The step to go on with, from the number of the last status byte written: move entries come first, swap entries from
      `maxSectors` on. */
  function Resume(w: Swap, found: nat): (k: nat) {
    if found < w.maxSectors then found else w.n + (found - w.maxSectors)
  }

  /** Where the two headers are looked for: `bs->op`, `bs->idx` and `bs->state` as read from the status. */
  function HeaderPlaces(w: Swap, found: nat): (p: (Place, Place))
    ensures p.0 in {Primary(0), Primary(1), Secondary(0)} && p.1 in {Primary(0), Secondary(0)}
  {
    if found == 0 then (Primary(0), Secondary(0))
    else if found < w.maxSectors then
      (if found + 1 > w.n then Primary(1) else Primary(0), Secondary(0))
    else
      var idx, state := (found - w.maxSectors) / 2 + 1, (found - w.maxSectors) % 2 + 1;
      if idx > 1 && idx <= w.n then (Secondary(0), Primary(0))
      else if idx == 1 then (Primary(1), if state == 2 then Primary(0) else Secondary(0))
      else (Primary(0), Secondary(0))
  }

  datatype Outcome = Outcome(f: Flash, done: bool)

  /** One boot with a swap under way. */
  function MoveBoot(w: Swap, f: Flash, budget: nat, junk: Sector): (o: Outcome)
    requires w.Valid() && Room(w, f)
    ensures SameShape(f, o.f)
  {
    var found := Found(f.status);
    var k, places := Resume(w, found), HeaderPlaces(w, found);
    if Read(f, places.0).imageSize.None? || Read(f, places.1).imageSize.None? || k > 3 * w.n then Outcome(f, false)
    else
      MoveFits(w, f);
      var m := RunFrom(Machine(f, budget, junk, true), MovePlan(w), k);
      Outcome(m.f, m.on)
  }

  function MoveBoots(w: Swap, f: Flash, cuts: seq<(nat, Sector)>): (f': Flash)
    requires w.Valid() && Room(w, f)
    ensures SameShape(f, f')
    decreases |cuts|
  {
    hide MoveBoot;
    if cuts == [] then f else MoveBoots(w, MoveBoot(w, f, cuts[0].0, cuts[0].1).f, cuts[1..])
  }

  predicate Ready(w: Swap, f: Flash) {
    && Room(w, f) && f.pri[0].imageSize.Some? && |f.sec| > 0 && f.sec[0].imageSize.Some?
    && forall p :: 0 <= p < |f.status| ==> !f.status[p]
  }

  predicate Swapped(w: Swap, f0: Flash, f: Flash)
    requires Room(w, f0) && SameShape(f0, f)
  {
    forall j :: 0 <= j < w.n ==> f.pri[j] == f0.sec[j] && f.sec[j] == f0.pri[j]
  }

  /** At any point the status leads back to the step in hand and both headers are where they are looked for. */
  lemma MoveHeaders(w: Swap, f0: Flash, f: Flash, k: nat)
    requires w.Valid() && Ready(w, f0) && MoveInv(w, f0, f, k)
    ensures
      var found := Found(f.status);
      && Resume(w, found) == k
      && Read(f, HeaderPlaces(w, found).0).imageSize.Some? && Read(f, HeaderPlaces(w, found).1).imageSize.Some?
  {
    var found := if k <= w.n then k else w.maxSectors + (k - w.n);
    if k > 0 {
      assert Recorded(w, k, found - 1);
    }
    FoundUnique(f.status, found);
  }

  lemma MoveBootKeeps(w: Swap, f0: Flash, f: Flash, k: nat, budget: nat, junk: Sector) returns (k': nat)
    requires w.Valid() && Ready(w, f0) && MoveInv(w, f0, f, k)
    ensures Room(w, f) && MoveInv(w, f0, MoveBoot(w, f, budget, junk).f, k')
    ensures MoveBoot(w, f, budget, junk).done ==> k' == 3 * w.n
    ensures budget >= 6 * w.n ==> MoveBoot(w, f, budget, junk).done
  {
    hide MovingUp, Exchanging, MoveStep, Sound;
    MoveHeaders(w, f0, f, k);
    MoveSound(w, f0);
    MoveFits(w, f);
    var m := Machine(f, budget, junk, true);
    SoundLater(MoveInvOf(w, f0), MovePlan(w), k);
    k' := Survives(MoveInvOf(w, f0), MovePlan(w), m, k);
    if budget >= 6 * w.n {
      EnoughPower(m, MovePlan(w), k);
    }
  }

  lemma SoundLater(inv: (Flash, nat) -> bool, plan: Plan, from: nat)
    requires Sound(inv, plan, 0)
    ensures Sound(inv, plan, from)
  {
  }

  lemma {:induction false} MoveBootsKeep(w: Swap, f0: Flash, f: Flash, k: nat, cuts: seq<(nat, Sector)>) returns (k': nat)
    requires w.Valid() && Ready(w, f0) && MoveInv(w, f0, f, k)
    ensures Room(w, f) && MoveInv(w, f0, MoveBoots(w, f, cuts), k')
    decreases |cuts|
  {
    hide MovingUp, Exchanging, MoveBoot;
    if cuts == [] {
      k' := k;
    } else {
      var k1 := MoveBootKeeps(w, f0, f, k, cuts[0].0, cuts[0].1);
      k' := MoveBootsKeep(w, f0, MoveBoot(w, f, cuts[0].0, cuts[0].1).f, k1, cuts[1..]);
    }
  }

  /** Every swap using move survives any number of power failures anywhere; the first boot with power enough finishes it. */
  lemma MoveSurvives(w: Swap, f0: Flash, cuts: seq<(nat, Sector)>, budget: nat, junk: Sector)
    requires w.Valid() && Ready(w, f0) && budget >= 6 * w.n
    ensures MoveBoot(w, MoveBoots(w, f0, cuts), budget, junk).done
    ensures Swapped(w, f0, MoveBoot(w, MoveBoots(w, f0, cuts), budget, junk).f)
  {
    hide MoveBoot;
    assert MoveInv(w, f0, f0, 0);
    var k := MoveBootsKeep(w, f0, f0, 0, cuts);
    var k' := MoveBootKeeps(w, f0, MoveBoots(w, f0, cuts), k, budget, junk);
  }

  // ----- the bootloader's own loops -----

  /** `swap_run`, resumed at step `k`. */
  method SwapRun(dev: Device, w: Swap, k: nat)
    requires w.Valid() && Room(w, dev.m.f) && k <= 3 * w.n && PlanFits(dev.m.f, MovePlan(w))
    modifies dev
    ensures dev.m == RunFrom(old(dev.m), MovePlan(w), k)
  {
    hide DoStep, PlanFits;
    if k <= w.n {
      MoveLoop(dev, w, k);
      SwapLoop(dev, w, w.n);
    } else {
      SwapLoop(dev, w, k);
    }
  }

  /** The move loop counts sectors down and skips those already moved. */
  method MoveLoop(dev: Device, w: Swap, k: nat)
    requires w.Valid() && Room(w, dev.m.f) && k <= w.n && PlanFits(dev.m.f, MovePlan(w))
    modifies dev
    ensures SameShape(old(dev.m.f), dev.m.f) && PlanFits(dev.m.f, MovePlan(w))
    ensures RunFrom(old(dev.m), MovePlan(w), k) == RunFrom(dev.m, MovePlan(w), w.n)
  {
    hide DoStep, StepFits, MoveStep;
    ghost var plan, m0 := MovePlan(w), dev.m;
    var at, idx := k, w.n;
    while idx > 0
      invariant 0 <= idx <= w.n && k <= at <= w.n && (idx >= w.n - k ==> at == k) && (idx < w.n - k ==> at == w.n - idx)
      invariant SameShape(m0.f, dev.m.f) && PlanFits(dev.m.f, plan)
      invariant RunFrom(m0, plan, k) == RunFrom(dev.m, plan, at)
    {
      if idx <= w.n - at {
        ghost var m := dev.m;
        assert StepFits(m.f, plan[at]);
        MoveSectorUp(dev, w, idx);
        FitsByShape(m.f, dev.m.f, plan);
        at := at + 1;
      }
      idx := idx - 1;
    }
  }

  /** The swap loop starts over at sector 1 and skips those already exchanged. */
  method SwapLoop(dev: Device, w: Swap, k: nat)
    requires w.Valid() && Room(w, dev.m.f) && w.n <= k <= 3 * w.n && PlanFits(dev.m.f, MovePlan(w))
    modifies dev
    ensures dev.m == RunFrom(old(dev.m), MovePlan(w), k)
  {
    hide DoStep, StepFits, MoveStep;
    ghost var plan, m0 := MovePlan(w), dev.m;
    var at, idx := k, 1;
    while idx <= w.n
      invariant 1 <= idx <= w.n + 1 && k <= at <= 3 * w.n
      invariant if idx - 1 <= (k - w.n) / 2 then at == k else at == w.n + 2 * (idx - 1)
      invariant SameShape(m0.f, dev.m.f) && PlanFits(dev.m.f, plan)
      invariant RunFrom(m0, plan, k) == RunFrom(dev.m, plan, at)
    {
      if idx - 1 >= (at - w.n) / 2 {
        ghost var m := dev.m;
        if (at - w.n) % 2 == 0 {
          assert StepFits(m.f, plan[at]);
          SwapHalf(dev, w, at);
          FitsByShape(m.f, dev.m.f, plan);
          at := at + 1;
        }
        m := dev.m;
        assert StepFits(m.f, plan[at]);
        SwapHalf(dev, w, at);
        FitsByShape(m.f, dev.m.f, plan);
        at := at + 1;
      }
      idx := idx + 1;
    }
  }

  /** `boot_move_sector_up`, past the trailer initialisation. */
  method MoveSectorUp(dev: Device, w: Swap, idx: nat)
    requires w.Valid() && 1 <= idx <= w.n && StepFits(dev.m.f, MoveStep(w, w.n - idx))
    modifies dev
    ensures dev.m == DoStep(old(dev.m), MoveStep(w, w.n - idx))
  {
    dev.CopySector(Primary(idx - 1), Primary(idx));
    dev.WriteStatus(w.n - idx);
  }

  /** One of the two halves of `boot_swap_sectors`. */
  method SwapHalf(dev: Device, w: Swap, k: nat)
    requires w.Valid() && w.n <= k < 3 * w.n && StepFits(dev.m.f, MoveStep(w, k))
    modifies dev
    ensures dev.m == DoStep(old(dev.m), MoveStep(w, k))
  {
    var idx, state := (k - w.n) / 2 + 1, (k - w.n) % 2;
    if state == 0 {
      dev.CopySector(Secondary(idx - 1), Primary(idx - 1));
    } else {
      dev.CopySector(Primary(idx), Secondary(idx - 1));
    }
    dev.WriteStatus(w.maxSectors + (idx - 1) * 2 + state);
  }
}
