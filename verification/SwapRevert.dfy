/** Swap using offset, reverting: from the last sector down, the image on trial goes back up one sector into the secondary
    slot and the old image comes back into the primary slot. */
module SwapRevert {
  import opened Bytes
  import opened Options
  import opened SwapEngine
  import opened SwapOffset

  /** `nOld` counts the sectors of the image now in the secondary slot, from sector 0; `nNew` those of the one on trial. */
  function RevertStep(last: nat, usedPri: nat, usedSec: nat, k: nat): (t: Step)
    requires k < 2 * (last + 1)
  {
    var i := last - k / 2;
    if k % 2 == 0 then Step(if i > usedPri then None else Some(Copy(Primary(i), Secondary(i + 1))), k)
    else Step(if i > usedSec then None else Some(Copy(Secondary(i), Primary(i))), k)
  }

  function RevertPlan(last: nat, usedPri: nat, usedSec: nat): (plan: Plan)
    ensures |plan| == 2 * (last + 1)
    ensures forall k :: 0 <= k < |plan| ==> plan[k] == RevertStep(last, usedPri, usedSec, k)
  {
    seq(2 * (last + 1), (k: nat) requires k < 2 * (last + 1) => RevertStep(last, usedPri, usedSec, k))
  }

  lemma RevertFits(last: nat, f: Flash, usedPri: nat, usedSec: nat)
    requires Room(last, f)
    ensures PlanFits(f, RevertPlan(last, usedPri, usedSec))
  {
    var plan := RevertPlan(last, usedPri, usedSec);
    forall k | 0 <= k < |plan|
      ensures StepFits(f, plan[k])
    {
    }
  }

  /** The mirror image of the upgrade's invariant. */
  ghost predicate RevertInv(e: Extent, f0: Flash, f: Flash, k: nat) {
    var i := e.last - k / 2;
    && SameShape(f0, f) && Room(e.last, f0) && k <= 2 * (e.last + 1)
    && (forall p :: 0 <= p < |f.status| ==> (f.status[p] <==> p < k))
    && (forall j :: i < j <= e.last && j < e.nOld ==> f.pri[j] == f0.sec[j])
    && (forall j :: i < j <= e.last && j < e.nNew ==> f.sec[j + 1] == f0.pri[j])
    && (k % 2 == 1 && i < e.nNew ==> f.sec[i + 1] == f0.pri[i])
    && (k % 2 == 0 && i >= 0 ==> f.pri[i] == f0.pri[i])
    && (forall j :: 0 <= j < i ==> f.pri[j] == f0.pri[j])
    && (forall j :: 0 <= j <= i ==> f.sec[j] == f0.sec[j])
  }

  ghost function RevertInvOf(e: Extent, f0: Flash): (inv: (Flash, nat) -> bool) {
    (f: Flash, k: nat) => RevertInv(e, f0, f, k)
  }

  lemma RevertTorn(e: Extent, f0: Flash, usedPri: nat, usedSec: nat, f: Flash, k: nat, s: Sector)
    requires RevertInv(e, f0, f, k) && k < 2 * (e.last + 1) && RevertStep(e.last, usedPri, usedSec, k).copy.Some?
    ensures RevertInv(e, f0, Write(f, RevertStep(e.last, usedPri, usedSec, k).copy.value.dst, s), k)
  {
  }

  lemma RevertStepped(e: Extent, f0: Flash, usedPri: nat, usedSec: nat, f: Flash, k: nat)
    requires RevertInv(e, f0, f, k) && k < 2 * (e.last + 1) && usedPri + 1 >= e.nNew && usedSec + 1 >= e.nOld
    ensures RevertInv(e, f0, Stepped(f, RevertStep(e.last, usedPri, usedSec, k)), k + 1)
  {
    if k % 2 == 0 {
      assert (k + 1) / 2 == k / 2;
    } else {
      assert (k + 1) / 2 == k / 2 + 1;
    }
  }

  lemma RevertStepFits(e: Extent, f0: Flash, usedPri: nat, usedSec: nat, f: Flash, k: nat)
    requires RevertInv(e, f0, f, k) && k < 2 * (e.last + 1)
    ensures StepFits(f, RevertStep(e.last, usedPri, usedSec, k))
  {
  }

  lemma RevertStepSound(e: Extent, f0: Flash, usedPri: nat, usedSec: nat, f: Flash, k: nat)
    requires RevertInv(e, f0, f, k) && k < 2 * (e.last + 1) && usedPri + 1 >= e.nNew && usedSec + 1 >= e.nOld
    ensures SoundAt(RevertInvOf(e, f0), RevertStep(e.last, usedPri, usedSec, k), f, k)
  {
    hide RevertInv, Stepped, Write;
    assert k <= 2 * (e.last + 1);
    RevertStepFits(e, f0, usedPri, usedSec, f, k);
    var inv, t := RevertInvOf(e, f0), RevertStep(e.last, usedPri, usedSec, k);
    if t.copy.Some? {
      forall s
        ensures inv(Write(f, t.copy.value.dst, s), k)
      {
        RevertTorn(e, f0, usedPri, usedSec, f, k, s);
      }
    }
    RevertStepped(e, f0, usedPri, usedSec, f, k);
  }

  lemma RevertSound(e: Extent, f0: Flash, usedPri: nat, usedSec: nat, from: nat)
    requires usedPri + 1 >= e.nNew && usedSec + 1 >= e.nOld
    ensures Sound(RevertInvOf(e, f0), RevertPlan(e.last, usedPri, usedSec), from)
  {
    hide RevertInv, RevertStep, SoundAt;
    var inv, plan := RevertInvOf(e, f0), RevertPlan(e.last, usedPri, usedSec);
    forall f, k: nat | from <= k < |plan| && inv(f, k)
      ensures SoundAt(inv, plan[k], f, k)
    {
      RevertStepSound(e, f0, usedPri, usedSec, f, k);
    }
  }

  // ----- booting -----

  /** Where the two headers are looked for during a revert; state 3 is the code's `BOOT_STATUS_STATE_2`, which a two-state
      swap never records. */
  function HeaderPlaces(last: nat, k: nat): (p: (Place, Place))
    ensures p.0 in {Primary(0), Secondary(1)} && p.1 in {Primary(0), Secondary(0)}
  {
    var idx, state := k / 2, k % 2 + 1;
    if k == 0 then (Primary(0), Secondary(0))
    else
      (if idx > last || (idx == last && state == 2) then Secondary(1) else Primary(0),
       if idx > last || (idx == last && state == 3) then Primary(0) else Secondary(0))
  }

  function RevertPlanAt(u: Upgrade, f: Flash, k: nat): (p: Option<Plan>)
    requires u.Valid() && Room(ExtentOf(u).last, f)
    ensures p.Some? ==> |p.value| == 2 * (ExtentOf(u).last + 1) && PlanFits(f, p.value)
  {
    var last, places := ExtentOf(u).last, HeaderPlaces(ExtentOf(u).last, k);
    match (Read(f, places.0).imageSize, Read(f, places.1).imageSize)
    case (Some(size0), Some(size1)) =>
      RevertFits(last, f, u.Used(size0, u.tlvSec), u.Used(size1, u.tlvPri));
      Some(RevertPlan(last, u.Used(size0, u.tlvSec), u.Used(size1, u.tlvPri)))
    case _ => None
  }

  /** Erasing a sector, cut short or not. */
  function DoErase(m: Machine, p: Place): (m': Machine)
    requires Within(m.f, p)
    ensures SameShape(m.f, m'.f)
  {
    if !m.on then m
    else if m.budget == 0 then m.(f := Write(m.f, p, m.junk), on := false)
    else m.(f := Write(m.f, p, Sector(None, [])), budget := m.budget - 1)
  }

  /** One boot with a revert under way. `u` describes the upgrade being undone, so the primary slot holds its new image.
      After the last sector the first sector of the secondary slot is erased. */
  function RevertBoot(u: Upgrade, f: Flash, budget: nat, junk: Sector): (o: Outcome)
    requires u.Valid() && Room(ExtentOf(u).last, f)
    ensures SameShape(f, o.f)
  {
    var k, plan := Found(f.status), RevertPlanAt(u, f, Found(f.status));
    if plan.None? || k > |plan.value| then Outcome(f, false)
    else
      var m := DoErase(RunFrom(Machine(f, budget, junk, true), plan.value, k), Secondary(0));
      Outcome(m.f, m.on)
  }

  function RevertBoots(u: Upgrade, f: Flash, cuts: seq<(nat, Sector)>): (f': Flash)
    requires u.Valid() && Room(ExtentOf(u).last, f)
    ensures SameShape(f, f')
    decreases |cuts|
  {
    hide ExtentOf, RevertBoot;
    if cuts == [] then f else RevertBoots(u, RevertBoot(u, f, cuts[0].0, cuts[0].1).f, cuts[1..])
  }

  /** The flash when a revert begins: the trial image in the primary slot, the old one in the secondary, no status byte. */
  predicate OnTrial(u: Upgrade, f: Flash)
    requires u.Valid()
  {
    && Room(ExtentOf(u).last, f)
    && f.pri[0].imageSize == Some(u.newSize) && f.sec[0].imageSize == Some(u.oldSize)
    && forall p :: 0 <= p < |f.status| ==> !f.status[p]
  }

  /** The old image is back in the primary slot, the trial image one sector up in the secondary slot. */
  predicate Reverted(e: Extent, f0: Flash, f: Flash)
    requires e.Valid() && Room(e.last, f0) && SameShape(f0, f)
  {
    && (forall j :: 0 <= j < e.nOld ==> f.pri[j] == f0.sec[j])
    && (forall j :: 0 <= j < e.nNew ==> f.sec[j + 1] == f0.pri[j])
  }

  /** At any point of a revert both headers are found and are the right ones. */
  lemma RevertHeaders(u: Upgrade, f0: Flash, f: Flash, k: nat)
    requires u.Valid() && OnTrial(u, f0) && RevertInv(ExtentOf(u), f0, f, k)
    ensures Found(f.status) == k
    ensures RevertPlanAt(u, f, k).Some? && Sound(RevertInvOf(ExtentOf(u), f0), RevertPlanAt(u, f, k).value, k)
  {
    hide Upgrade.Used, Upgrade.Last, RevertStep, Sound;
    FoundUnique(f.status, k);
    var e, places := ExtentOf(u), HeaderPlaces(ExtentOf(u).last, k);
    assert Read(f, places.0).imageSize == Some(u.newSize);
    assert Read(f, places.1).imageSize == Some(u.oldSize);
    RevertSound(e, f0, e.nNew, e.nOld, k);
  }

  /** The sector erased at the end no longer matters by then. */
  lemma EraseKeeps(e: Extent, f0: Flash, m: Machine)
    requires RevertInv(e, f0, m.f, 2 * (e.last + 1))
    ensures RevertInv(e, f0, DoErase(m, Secondary(0)).f, 2 * (e.last + 1))
  {
  }

  lemma RevertBootKeeps(u: Upgrade, f0: Flash, f: Flash, k: nat, budget: nat, junk: Sector) returns (k': nat)
    requires u.Valid() && OnTrial(u, f0) && RevertInv(ExtentOf(u), f0, f, k)
    ensures Room(ExtentOf(u).last, f)
    ensures RevertInv(ExtentOf(u), f0, RevertBoot(u, f, budget, junk).f, k')
    ensures RevertBoot(u, f, budget, junk).done ==> k' == 2 * (ExtentOf(u).last + 1)
    ensures budget > 4 * (ExtentOf(u).last + 1) ==> RevertBoot(u, f, budget, junk).done
  {
    hide Upgrade.Used, Upgrade.Last, RevertPlanAt, Sound, ExtentOf, DoErase, RevertInv;
    var e := ExtentOf(u);
    RevertRoom(e, f0, f, k);
    RevertHeaders(u, f0, f, k);
    var plan, m := RevertPlanAt(u, f, k).value, Machine(f, budget, junk, true);
    k' := Survives(RevertInvOf(e, f0), plan, m, k);
    var m' := RunFrom(m, plan, k);
    if budget > 4 * (e.last + 1) {
      EnoughPower(m, plan, k);
      BudgetLeft(m, plan, k);
    }
    assert (m'.on && m'.budget > 0 ==> DoErase(m', Secondary(0)).on) && (!m'.on ==> DoErase(m', Secondary(0)) == m') by {
      EraseRuns(m', Secondary(0));
    }
    if m'.on {
      EraseKeeps(e, f0, m');
    }
  }

  lemma RevertRoom(e: Extent, f0: Flash, f: Flash, k: nat)
    requires RevertInv(e, f0, f, k)
    ensures Room(e.last, f) && k <= 2 * (e.last + 1)
  {
  }

  lemma EraseRuns(m: Machine, p: Place)
    requires Within(m.f, p)
    ensures m.on && m.budget > 0 ==> DoErase(m, p).on
    ensures !m.on ==> DoErase(m, p) == m
  {
  }

  /** A step uses at most two operations. */
  lemma {:induction false} BudgetLeft(m: Machine, plan: Plan, k: nat)
    requires k <= |plan| && PlanFits(m.f, plan)
    ensures RunFrom(m, plan, k).budget + 2 * (|plan| - k) >= m.budget
    decreases |plan| - k
  {
    if k < |plan| {
      BudgetLeft(DoStep(m, plan[k]), plan, k + 1);
    }
  }

  lemma {:induction false} RevertBootsKeep(u: Upgrade, f0: Flash, f: Flash, k: nat, cuts: seq<(nat, Sector)>) returns (k': nat)
    requires u.Valid() && OnTrial(u, f0) && RevertInv(ExtentOf(u), f0, f, k)
    ensures Room(ExtentOf(u).last, f)
    ensures RevertInv(ExtentOf(u), f0, RevertBoots(u, f, cuts), k')
    decreases |cuts|
  {
    hide OnTrial, ExtentOf, RevertInv, RevertBoot;
    var k1;
    if cuts == [] {
      k1 := RevertBootKeeps(u, f0, f, k, 0, Sector(None, []));
      k' := k;
    } else {
      k1 := RevertBootKeeps(u, f0, f, k, cuts[0].0, cuts[0].1);
      k' := RevertBootsKeep(u, f0, RevertBoot(u, f, cuts[0].0, cuts[0].1).f, k1, cuts[1..]);
    }
  }

  /** Every revert survives any number of power failures anywhere; the first boot with power enough finishes it. */
  lemma RevertSurvives(u: Upgrade, f0: Flash, cuts: seq<(nat, Sector)>, budget: nat, junk: Sector)
    requires u.Valid() && OnTrial(u, f0)
    requires budget > 4 * (ExtentOf(u).last + 1)
    ensures RevertBoot(u, RevertBoots(u, f0, cuts), budget, junk).done
    ensures Reverted(ExtentOf(u), f0, RevertBoot(u, RevertBoots(u, f0, cuts), budget, junk).f)
  {
    hide Upgrade.Used, Upgrade.Last, RevertBoot;
    assert RevertInv(ExtentOf(u), f0, f0, 0);
    var k := RevertBootsKeep(u, f0, f0, 0, cuts);
    var k' := RevertBootKeeps(u, f0, RevertBoots(u, f0, cuts), k, budget, junk);
  }

  function StatusCleared(f: Flash): (f': Flash) {
    f.(status := seq(|f.status|, i => false))
  }

  /** An upgrade and, once its status is cleared, a revert: whatever power failures either goes through, both images end up
      where they were. */
  lemma RevertUndoesUpgrade(u: Upgrade, f0: Flash, cuts1: seq<(nat, Sector)>, cuts2: seq<(nat, Sector)>, budget: nat, junk: Sector)
    requires u.Valid() && Ready(u, f0) && Safe(u)
    requires budget > 4 * (ExtentOf(u).last + 1)
    ensures
      var e := ExtentOf(u);
      var f1 := StatusCleared(ForwardBoot(u, ForwardBoots(u, f0, cuts1), budget, junk).f);
      Room(e.last, f1) &&
      var f2 := RevertBoot(u, RevertBoots(u, f1, cuts2), budget, junk).f;
      && SameShape(f0, f2)
      && (forall j :: 0 <= j < e.nOld ==> f2.pri[j] == f0.pri[j])
      && (forall j :: 1 <= j <= e.nNew ==> f2.sec[j] == f0.sec[j])
  {
    hide Upgrade.Used, Upgrade.Last, RevertBoot, ForwardBoot, Safe;
    ForwardSurvives(u, f0, cuts1, budget, junk);
    var e := ExtentOf(u);
    var f1 := StatusCleared(ForwardBoot(u, ForwardBoots(u, f0, cuts1), budget, junk).f);
    assert OnTrial(u, f1);
    RevertSurvives(u, f1, cuts2, budget, junk);
    var f2 := RevertBoot(u, RevertBoots(u, f1, cuts2), budget, junk).f;
    forall j | 1 <= j <= e.nNew
      ensures f2.sec[j] == f0.sec[j]
    {
      assert f2.sec[j - 1 + 1] == f1.pri[j - 1];
    }
  }

  // ----- the bootloader's own loops -----

  /** `boot_swap_sectors_revert`. */
  method SwapSectorsRevert(dev: Device, last: nat, idx: nat, firstHalf: bool, usedPri: nat, usedSec: nat)
    requires idx <= last
    requires StepFits(dev.m.f, RevertStep(last, usedPri, usedSec, 2 * idx)) && StepFits(dev.m.f, RevertStep(last, usedPri, usedSec, 2 * idx + 1))
    modifies dev
    ensures SameShape(old(dev.m.f), dev.m.f)
    ensures dev.m ==
            var m := if firstHalf then DoStep(old(dev.m), RevertStep(last, usedPri, usedSec, 2 * idx)) else old(dev.m);
            DoStep(m, RevertStep(last, usedPri, usedSec, 2 * idx + 1))
  {
    var mirror := last - idx;
    assert 2 * idx / 2 == idx && 2 * idx % 2 == 0 && (2 * idx + 1) / 2 == idx && (2 * idx + 1) % 2 == 1;
    if firstHalf {
      if mirror > usedPri {
      } else {
        dev.CopySector(Primary(mirror), Secondary(mirror + 1));
      }
      dev.WriteStatus(2 * idx);
    }
    if mirror > usedSec {
    } else {
      dev.CopySector(Secondary(mirror), Primary(mirror));
    }
    dev.WriteStatus(2 * idx + 1);
  }

  /** The revert loop of `swap_run`, resumed at status `k`. */
  method RevertRun(dev: Device, last: nat, usedPri: nat, usedSec: nat, k: nat)
    requires Room(last, dev.m.f) && k <= 2 * (last + 1) && PlanFits(dev.m.f, RevertPlan(last, usedPri, usedSec))
    modifies dev
    ensures dev.m == RunFrom(old(dev.m), RevertPlan(last, usedPri, usedSec), k)
  {
    hide RevertStep, DoStep, StepFits;
    ghost var plan := RevertPlan(last, usedPri, usedSec);
    ghost var m0 := dev.m;
    var idx := 0;
    while idx <= last
      invariant idx <= last + 1
      invariant SameShape(m0.f, dev.m.f) && PlanFits(dev.m.f, plan)
      invariant idx <= k / 2 ==> dev.m == m0
      invariant idx > k / 2 ==> RunFrom(m0, plan, k) == RunFrom(dev.m, plan, 2 * idx)
    {
      if idx >= k / 2 {
        ghost var m := dev.m;
        assert StepFits(m.f, plan[2 * idx]) && StepFits(m.f, plan[2 * idx + 1]);
        SwapSectorsRevert(dev, last, idx, idx > k / 2 || k % 2 == 0, usedPri, usedSec);
        FitsByShape(m.f, dev.m.f, plan);
        TwoSteps(m, plan, idx, k);
      }
      idx := idx + 1;
    }
  }
}
