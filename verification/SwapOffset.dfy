/** Swap using offset, upgrading: sector by sector, the running image moves to the secondary slot and the new image, which
    starts one sector further up there, moves down into the primary slot. */
module SwapOffset {
  import opened Bytes
  import opened Options
  import opened SwapEngine

  /** The two images: bytes of header, protected TLVs and body, then bytes of unprotected TLVs as kept in the trailer. */
  datatype Upgrade = Upgrade(sectorSize: nat, oldSize: nat, newSize: nat, tlvPri: nat, tlvSec: nat) {
    predicate Valid() {
      sectorSize > 0 && oldSize > 0 && newSize > 0
    }

    /** Sectors for an image with this header size and these trailing TLVs. */
    function Used(size: nat, tlv: nat): (n: nat)
      requires Valid()
    {
      (size + tlv + sectorSize - 1) / sectorSize
    }

    function OldSectors(): (n: nat)
      requires Valid()
    {
      Used(oldSize, tlvPri)
    }

    function NewSectors(): (n: nat)
      requires Valid()
    {
      Used(newSize, tlvSec)
    }

    /** Bytes to swap: the larger image. */
    function SwapSize(): (n: nat) {
      if newSize + tlvSec > oldSize + tlvPri then newSize + tlvSec else oldSize + tlvPri
    }

    /** Index of the last sector to swap. */
    function Last(): (n: nat)
      requires Valid()
      ensures OldSectors() <= n + 1 && NewSectors() <= n + 1 && (OldSectors() == n + 1 || NewSectors() == n + 1)
      ensures n * sectorSize < SwapSize() <= (n + 1) * sectorSize
    {
      UsedBounds(oldSize, tlvPri);
      UsedBounds(newSize, tlvSec);
      Scaled(OldSectors(), NewSectors(), sectorSize);
      Scaled(NewSectors(), OldSectors(), sectorSize);
      if OldSectors() > NewSectors() then OldSectors() - 1 else NewSectors() - 1
    }

    lemma UsedBounds(size: nat, tlv: nat)
      requires Valid() && size > 0
      ensures Used(size, tlv) >= 1
      ensures (Used(size, tlv) - 1) * sectorSize < size + tlv <= Used(size, tlv) * sectorSize
    {
      var x, n := size + tlv + sectorSize - 1, Used(size, tlv);
      assert x == n * sectorSize + x % sectorSize;
      assert (n - 1) * sectorSize == n * sectorSize - sectorSize;
      if n == 0 {
        assert false;
      }
    }
  }

  /** How many sectors the images take, and the index of the last sector to swap. */
  datatype Extent = Extent(last: nat, nOld: nat, nNew: nat) {
    predicate Valid() {
      1 <= nOld <= last + 1 && 1 <= nNew <= last + 1
    }
  }

  function ExtentOf(u: Upgrade): (e: Extent)
    requires u.Valid()
    ensures e.Valid()
  {
    u.UsedBounds(u.oldSize, u.tlvPri);
    u.UsedBounds(u.newSize, u.tlvSec);
    Extent(u.Last(), u.OldSectors(), u.NewSectors())
  }

  /** `find_last_idx`. */
  method FindLastIdx(u: Upgrade) returns (last: nat)
    requires u.Valid()
    ensures last == u.Last()
  {
    var sz := 0;
    last := 0;
    while true
      invariant sz == last * u.sectorSize
      invariant last <= u.Last()
      decreases u.Last() - last
    {
      sz := sz + u.sectorSize;
      assert sz == (last + 1) * u.sectorSize;
      if sz >= u.SwapSize() {
        Scaled(u.Last(), last, u.sectorSize);
        Scaled(u.Last(), last + 1, u.sectorSize);
        break;
      }
      Scaled(last + 1, u.Last(), u.sectorSize);
      Scaled(last, u.Last(), u.sectorSize);
      last := last + 1;
    }
  }

  // ----- the forward swap -----

  function ForwardStep(usedPri: nat, usedSec: nat, k: nat): (t: Step)
  {
    var i := k / 2;
    if k % 2 == 0 then Step(if i > usedPri then None else Some(Copy(Primary(i), Secondary(i))), k)
    else Step(if i > usedSec then None else Some(Copy(Secondary(i + 1), Primary(i))), k)
  }

  /** Per sector: primary to secondary, then the sector above in the secondary down to the primary; copies past what the
      images are thought to use are skipped. */
  function ForwardPlan(last: nat, usedPri: nat, usedSec: nat): (plan: Plan)
    ensures |plan| == 2 * (last + 1)
    ensures forall k :: 0 <= k < |plan| ==> plan[k] == ForwardStep(usedPri, usedSec, k)
  {
    seq(2 * (last + 1), (k: nat) => ForwardStep(usedPri, usedSec, k))
  }

  /** Room for the swap below the trailers. */
  predicate Room(last: nat, f: Flash) {
    |f.pri| >= last + 1 && |f.sec| >= last + 2 && |f.status| >= 2 * (last + 1)
  }

  lemma ForwardFits(last: nat, f: Flash, usedPri: nat, usedSec: nat)
    requires Room(last, f)
    ensures PlanFits(f, ForwardPlan(last, usedPri, usedSec))
  {
    var plan := ForwardPlan(last, usedPri, usedSec);
    forall k | 0 <= k < |plan|
      ensures StepFits(f, plan[k])
    {
    }
  }

  /** With `k` status bytes written: sectors below are exchanged, sectors above untouched, and the one in hand has its old
      contents in one of the slots. */
  ghost predicate ForwardInv(e: Extent, f0: Flash, f: Flash, k: nat) {
    var i := k / 2;
    && SameShape(f0, f) && Room(e.last, f0)
    && (forall p :: 0 <= p < |f.status| ==> (f.status[p] <==> p < k))
    && (forall j :: 0 <= j < i && j < e.nNew && j <= e.last ==> f.pri[j] == f0.sec[j + 1])
    && (forall j :: 0 <= j < i && j < e.nOld && j <= e.last ==> f.sec[j] == f0.pri[j])
    && (k % 2 == 1 && i < e.nOld && i <= e.last ==> f.sec[i] == f0.pri[i])
    && (k % 2 == 0 && i <= e.last ==> f.pri[i] == f0.pri[i])
    && (forall j :: i < j <= e.last ==> f.pri[j] == f0.pri[j])
    && (forall j :: i < j <= e.last + 1 ==> f.sec[j] == f0.sec[j])
  }

  ghost function ForwardInvOf(e: Extent, f0: Flash): (inv: (Flash, nat) -> bool) {
    (f: Flash, k: nat) => ForwardInv(e, f0, f, k)
  }

  /** From step `from` on no sector of an image is skipped. */
  predicate SkipsNothing(e: Extent, usedPri: nat, usedSec: nat, from: nat) {
    forall k :: from <= k < 2 * (e.last + 1) ==> KeepsImages(e, usedPri, usedSec, k)
  }

  predicate KeepsImages(e: Extent, usedPri: nat, usedSec: nat, k: nat) {
    if k % 2 == 0 then k / 2 > usedPri ==> k / 2 >= e.nOld else k / 2 > usedSec ==> k / 2 >= e.nNew
  }

  lemma ForwardSound(e: Extent, f0: Flash, usedPri: nat, usedSec: nat, from: nat)
    requires SkipsNothing(e, usedPri, usedSec, from)
    ensures Sound(ForwardInvOf(e, f0), ForwardPlan(e.last, usedPri, usedSec), from)
  {
    hide ForwardInv, ForwardStep, SoundAt;
    var inv := ForwardInvOf(e, f0);
    var plan := ForwardPlan(e.last, usedPri, usedSec);
    forall f, k: nat | from <= k < |plan| && inv(f, k)
      ensures SoundAt(inv, plan[k], f, k)
    {
      ForwardStepSound(e, f0, usedPri, usedSec, f, k);
    }
  }

  lemma ForwardStepSound(e: Extent, f0: Flash, usedPri: nat, usedSec: nat, f: Flash, k: nat)
    requires ForwardInv(e, f0, f, k) && k < 2 * (e.last + 1) && KeepsImages(e, usedPri, usedSec, k)
    ensures SoundAt(ForwardInvOf(e, f0), ForwardStep(usedPri, usedSec, k), f, k)
  {
    var inv, t := ForwardInvOf(e, f0), ForwardStep(usedPri, usedSec, k);
    if t.copy.Some? {
      forall s
        ensures inv(Write(f, t.copy.value.dst, s), k)
      {
        ForwardTorn(e, f0, usedPri, usedSec, f, k, s);
      }
    }
    ForwardStepped(e, f0, usedPri, usedSec, f, k);
  }

  lemma ForwardTorn(e: Extent, f0: Flash, usedPri: nat, usedSec: nat, f: Flash, k: nat, s: Sector)
    requires ForwardInv(e, f0, f, k) && k < 2 * (e.last + 1) && ForwardStep(usedPri, usedSec, k).copy.Some?
    ensures ForwardInv(e, f0, Write(f, ForwardStep(usedPri, usedSec, k).copy.value.dst, s), k)
  {
  }

  lemma ForwardStepped(e: Extent, f0: Flash, usedPri: nat, usedSec: nat, f: Flash, k: nat)
    requires ForwardInv(e, f0, f, k) && k < 2 * (e.last + 1) && KeepsImages(e, usedPri, usedSec, k)
    ensures ForwardInv(e, f0, Stepped(f, ForwardStep(usedPri, usedSec, k)), k + 1)
  {
  }

  // ----- booting -----

  /** Where the headers of slot 0 and slot 1 are looked for when `k` status bytes are written
      (`bs->idx` is `k / 2 + 1`, `bs->state` is `k % 2 + 1`). */
  function HeaderPlaces(last: nat, k: nat): (p: (Place, Place))
    ensures p.0 in {Primary(0), Secondary(0)} && p.1 in {Primary(0), Secondary(1)}
  {
    var idx, state := k / 2 + 1, k % 2 + 1;
    if k == 0 then (Primary(0), Secondary(1))
    else
      (if (idx > 1 || (idx == 1 && state == 2)) && idx <= last then Secondary(0) else Primary(0),
       if idx > 1 then Primary(0) else Secondary(1))
  }

  /** What a boot leaves, and whether it got through the whole swap. */
  datatype Outcome = Outcome(f: Flash, done: bool)

  /** The plan of a boot that finds `k` status bytes: sector counts come from the two headers. `None` when a header is
      not found, which abandons the swap. */
  function ForwardPlanAt(u: Upgrade, f: Flash, k: nat): (p: Option<Plan>)
    requires u.Valid() && Room(ExtentOf(u).last, f)
    ensures p.Some? ==> |p.value| == 2 * (ExtentOf(u).last + 1) && PlanFits(f, p.value)
  {
    var last, places := ExtentOf(u).last, HeaderPlaces(ExtentOf(u).last, k);
    match (Read(f, places.0).imageSize, Read(f, places.1).imageSize)
    case (Some(size0), Some(size1)) =>
      ForwardFits(last, f, u.Used(size0, u.tlvPri), u.Used(size1, u.tlvSec));
      Some(ForwardPlan(last, u.Used(size0, u.tlvPri), u.Used(size1, u.tlvSec)))
    case _ => None
  }

  /** One boot with an upgrade under way: read the status, find both headers, go on from there. */
  function ForwardBoot(u: Upgrade, f: Flash, budget: nat, junk: Sector): (o: Outcome)
    requires u.Valid() && Room(ExtentOf(u).last, f)
    ensures SameShape(f, o.f)
  {
    var k, plan := Found(f.status), ForwardPlanAt(u, f, Found(f.status));
    if plan.None? || k > |plan.value| then Outcome(f, false)
    else
      var m := RunFrom(Machine(f, budget, junk, true), plan.value, k);
      Outcome(m.f, m.on)
  }

  /** Any number of boots, each cut short somewhere. */
  function ForwardBoots(u: Upgrade, f: Flash, cuts: seq<(nat, Sector)>): (f': Flash)
    requires u.Valid() && Room(ExtentOf(u).last, f)
    ensures SameShape(f, f')
    decreases |cuts|
  {
    hide ExtentOf, ForwardBoot;
    if cuts == [] then f else ForwardBoots(u, ForwardBoot(u, f, cuts[0].0, cuts[0].1).f, cuts[1..])
  }

  /** The flash when the swap begins: both images in place, no status byte written. */
  predicate Ready(u: Upgrade, f: Flash)
    requires u.Valid()
  {
    && Room(ExtentOf(u).last, f)
    && f.pri[0].imageSize == Some(u.oldSize) && f.sec[1].imageSize == Some(u.newSize)
    && forall p :: 0 <= p < |f.status| ==> !f.status[p]
  }

  /** The new image is in the primary slot and the old one in the secondary slot. */
  predicate Swapped(e: Extent, f0: Flash, f: Flash)
    requires e.Valid() && Room(e.last, f0) && SameShape(f0, f)
  {
    && (forall j :: 0 <= j < e.nNew ==> f.pri[j] == f0.sec[j + 1])
    && (forall j :: 0 <= j < e.nOld ==> f.sec[j] == f0.pri[j])
  }

  /** Sectors the old image is thought to take when the new image's header is read in place of its own, as happens to a
      boot that resumes with only the last sector left. */
  function Mistaken(u: Upgrade): (n: nat)
    requires u.Valid()
  {
    u.Used(u.newSize, u.tlvPri)
  }

  /** The swap is longer than one sector, and the mistaken count does not drop the old image's last sector. */
  predicate Safe(u: Upgrade)
    requires u.Valid()
  {
    var e := ExtentOf(u);
    e.last >= 1 && (e.nOld == e.last + 1 ==> e.last <= Mistaken(u))
  }

  /** A boot at any point of a safe upgrade finds both headers and skips no sector that matters. */
  lemma ForwardHeaders(u: Upgrade, f0: Flash, f: Flash, k: nat)
    requires u.Valid() && Ready(u, f0) && Safe(u)
    requires ForwardInv(ExtentOf(u), f0, f, k) && k <= 2 * (ExtentOf(u).last + 1)
    ensures Found(f.status) == k
    ensures ForwardPlanAt(u, f, k).Some? && Sound(ForwardInvOf(ExtentOf(u), f0), ForwardPlanAt(u, f, k).value, k)
  {
    hide Upgrade.Used, Upgrade.Last, ForwardStep, Sound;
    FoundUnique(f.status, k);
    var e, places := ExtentOf(u), HeaderPlaces(ExtentOf(u).last, k);
    assert Read(f, places.1).imageSize == Some(u.newSize);
    var size0 := if k / 2 + 1 <= e.last || k == 0 then u.oldSize else u.newSize;
    assert Read(f, places.0).imageSize == Some(size0);
    var usedPri := u.Used(size0, u.tlvPri);
    forall k' | k <= k' < 2 * (e.last + 1)
      ensures KeepsImages(e, usedPri, e.nNew, k')
    {
    }
    ForwardSound(e, f0, usedPri, e.nNew, k);
  }

  /** One more boot, cut or not, of a safe upgrade. */
  lemma ForwardBootKeeps(u: Upgrade, f0: Flash, f: Flash, k: nat, budget: nat, junk: Sector) returns (k': nat)
    requires u.Valid() && Ready(u, f0) && Safe(u)
    requires ForwardInv(ExtentOf(u), f0, f, k) && k <= 2 * (ExtentOf(u).last + 1)
    ensures k <= k' <= 2 * (ExtentOf(u).last + 1) && ForwardInv(ExtentOf(u), f0, ForwardBoot(u, f, budget, junk).f, k')
    ensures ForwardBoot(u, f, budget, junk).done ==> k' == 2 * (ExtentOf(u).last + 1)
    ensures budget >= 4 * (ExtentOf(u).last + 1) ==> ForwardBoot(u, f, budget, junk).done
  {
    hide Upgrade.Used, Upgrade.Last, ForwardPlanAt, Sound, ExtentOf, ForwardInv;
    ForwardHeaders(u, f0, f, k);
    assert Room(ExtentOf(u).last, f) by {
      RoomKept(ExtentOf(u), f0, f, k);
    }
    var plan, m := ForwardPlanAt(u, f, k).value, Machine(f, budget, junk, true);
    k' := Survives(ForwardInvOf(ExtentOf(u), f0), plan, m, k);
    if budget >= 4 * (ExtentOf(u).last + 1) {
      EnoughPower(m, plan, k);
    }
  }

  lemma RoomKept(e: Extent, f0: Flash, f: Flash, k: nat)
    requires ForwardInv(e, f0, f, k)
    ensures Room(e.last, f)
  {
  }

  lemma {:induction false} ForwardBootsKeep(u: Upgrade, f0: Flash, f: Flash, k: nat, cuts: seq<(nat, Sector)>) returns (k': nat)
    requires u.Valid() && Ready(u, f0) && Safe(u)
    requires ForwardInv(ExtentOf(u), f0, f, k) && k <= 2 * (ExtentOf(u).last + 1)
    ensures Room(ExtentOf(u).last, f)
    ensures k <= k' <= 2 * (ExtentOf(u).last + 1) && ForwardInv(ExtentOf(u), f0, ForwardBoots(u, f, cuts), k')
    decreases |cuts|
  {
    hide Safe, Ready, ExtentOf, ForwardInv, ForwardBoot;
    RoomKept(ExtentOf(u), f0, f, k);
    if cuts == [] {
      k' := k;
    } else {
      var k1 := ForwardBootKeeps(u, f0, f, k, cuts[0].0, cuts[0].1);
      k' := ForwardBootsKeep(u, f0, ForwardBoot(u, f, cuts[0].0, cuts[0].1).f, k1, cuts[1..]);
    }
  }

  /** A safe upgrade survives any number of power failures anywhere: the first boot with power enough finishes it, with
      both images whole and exchanged. */
  lemma ForwardSurvives(u: Upgrade, f0: Flash, cuts: seq<(nat, Sector)>, budget: nat, junk: Sector)
    requires u.Valid() && Ready(u, f0) && Safe(u)
    requires budget >= 4 * (ExtentOf(u).last + 1)
    ensures ForwardBoot(u, ForwardBoots(u, f0, cuts), budget, junk).done
    ensures Swapped(ExtentOf(u), f0, ForwardBoot(u, ForwardBoots(u, f0, cuts), budget, junk).f)
  {
    hide Upgrade.Used, Upgrade.Last, ForwardBoot, Safe;
    var e := ExtentOf(u);
    assert ForwardInv(e, f0, f0, 0);
    var k := ForwardBootsKeep(u, f0, f0, 0, cuts);
    var k' := ForwardBootKeeps(u, f0, ForwardBoots(u, f0, cuts), k, budget, junk);
  }

  /** What a cut copy must leave to do harm: in a single-sector swap no header, in a longer one anything but the old image's
      last sector. */
  predicate Harmful(u: Upgrade, f0: Flash, junk: Sector)
    requires u.Valid() && Ready(u, f0)
  {
    if ExtentOf(u).last == 0 then junk.imageSize.None? else junk != f0.pri[ExtentOf(u).last]
  }

  /** An upgrade that is not safe can lose an image to one power failure, with any harmful contents in the cut sector, and no
      later boot brings it back: a single-sector swap cut while the primary sector is rewritten is abandoned for good; a
      longer one cut on its last sector drops the old image's last sector. */
  lemma ForwardLoses(u: Upgrade, f0: Flash, junk: Sector) returns (budget: nat)
    requires u.Valid() && Ready(u, f0) && !Safe(u) && Harmful(u, f0, junk)
    ensures
      var f1 := ForwardBoot(u, f0, budget, junk).f;
      forall later: seq<(nat, Sector)> :: !Swapped(ExtentOf(u), f0, ForwardBoots(u, f1, later))
  {
    hide Upgrade.Used, Upgrade.Last;
    var e := ExtentOf(u);
    if e.last == 0 {
      budget := SingleSectorLoss(u, f0, junk);
      var f1 := ForwardBoot(u, f0, budget, junk).f;
      forall later: seq<(nat, Sector)>
        ensures !Swapped(e, f0, ForwardBoots(u, f1, later))
      {
        AbandonedForGood(u, f1, later);
      }
    } else {
      budget := LastSectorLoss(u, f0, junk);
      var f1 := ForwardBoot(u, f0, budget, junk).f;
      forall later: seq<(nat, Sector)>
        ensures !Swapped(e, f0, ForwardBoots(u, f1, later))
      {
        LostForGood(u, f0, f1, 2 * e.last, later);
      }
    }
  }

  /** Cut the second copy of a single-sector swap so that no header is left in the primary sector. */
  lemma SingleSectorLoss(u: Upgrade, f0: Flash, junk: Sector) returns (budget: nat)
    requires u.Valid() && Ready(u, f0) && ExtentOf(u).last == 0 && junk.imageSize.None?
    ensures
      var f1 := ForwardBoot(u, f0, budget, junk).f;
      f1.pri[0].imageSize.None? && Found(f1.status) == 1
  {
    hide Upgrade.Used, Upgrade.Last, ForwardInv, ForwardPlanAt;
    var e := ExtentOf(u);
    FreshPlan(u, f0);
    var plan := ForwardPlan(e.last, e.nOld, e.nNew);
    assert plan[1].copy.Some?;
    var g;
    budget, g := CutAt(ForwardInvOf(e, f0), plan, f0, 0, 1, junk);
    StatusAt(e, f0, g, 1);
  }

  lemma StatusAt(e: Extent, f0: Flash, g: Flash, k: nat)
    requires ForwardInv(e, f0, g, k) && k <= 2 * (e.last + 1)
    ensures Found(g.status) == k
  {
    FoundUnique(g.status, k);
  }

  lemma {:induction false} AbandonedForGood(u: Upgrade, f: Flash, later: seq<(nat, Sector)>)
    requires u.Valid() && Room(ExtentOf(u).last, f) && ExtentOf(u).last == 0
    requires f.pri[0].imageSize.None? && Found(f.status) == 1
    ensures ForwardBoots(u, f, later) == f
    decreases |later|
  {
    hide ExtentOf;
    if later != [] {
      assert ForwardBoot(u, f, later[0].0, later[0].1) == Outcome(f, false);
      AbandonedForGood(u, f, later[1..]);
    }
  }

  /** Cut the first copy of the last sector. */
  lemma LastSectorLoss(u: Upgrade, f0: Flash, junk: Sector) returns (budget: nat)
    requires u.Valid() && Ready(u, f0) && ExtentOf(u).last >= 1 && !Safe(u) && junk != f0.pri[ExtentOf(u).last]
    ensures Losing(u, f0, ForwardBoot(u, f0, budget, junk).f, 2 * ExtentOf(u).last)
  {
    hide Upgrade.Used, Upgrade.Last, ForwardInv, Losing, ForwardPlanAt, ForwardStep, Sound;
    var e := ExtentOf(u);
    FreshPlan(u, f0);
    var plan := ForwardPlan(e.last, e.nOld, e.nNew);
    assert e.nOld == e.last + 1;
    LastStep(e.last, e.nOld, e.nNew);
    var g;
    budget, g := CutAt(ForwardInvOf(e, f0), plan, f0, 0, 2 * e.last, junk);
    LosingFrom(u, f0, g, junk);
  }

  lemma LastStep(last: nat, usedPri: nat, usedSec: nat)
    requires usedPri >= last
    ensures ForwardStep(usedPri, usedSec, 2 * last) == Step(Some(Copy(Primary(last), Secondary(last))), 2 * last)
  {
    assert 2 * last / 2 == last;
  }

  /** The first boot takes its sector counts from the right headers. */
  lemma FreshPlan(u: Upgrade, f0: Flash)
    requires u.Valid() && Ready(u, f0)
    ensures
      var e := ExtentOf(u);
      && Found(f0.status) == 0 && ForwardInv(e, f0, f0, 0)
      && ForwardPlanAt(u, f0, 0) == Some(ForwardPlan(e.last, e.nOld, e.nNew))
      && Sound(ForwardInvOf(e, f0), ForwardPlan(e.last, e.nOld, e.nNew), 0)
  {
    hide Upgrade.Used, Upgrade.Last, Sound, ForwardStep;
    FoundUnique(f0.status, 0);
    ForwardSound(ExtentOf(u), f0, ExtentOf(u).nOld, ExtentOf(u).nNew, 0);
  }

  lemma LosingFrom(u: Upgrade, f0: Flash, g: Flash, junk: Sector)
    requires u.Valid() && Ready(u, f0) && ExtentOf(u).last >= 1
    requires ForwardInv(ExtentOf(u), f0, g, 2 * ExtentOf(u).last) && junk != f0.pri[ExtentOf(u).last]
    ensures Losing(u, f0, Write(g, Secondary(ExtentOf(u).last), junk), 2 * ExtentOf(u).last)
  {
    hide Upgrade.Used, Upgrade.Last;
  }

  /** At the last sector, with the old image's copy of it not in the secondary slot. */
  ghost predicate Losing(u: Upgrade, f0: Flash, f: Flash, k: nat)
    requires u.Valid()
  {
    var last := ExtentOf(u).last;
    && Room(last, f0) && SameShape(f0, f) && f.sec[last] != f0.pri[last]
    && 2 * last <= k <= 2 * (last + 1)
    && (forall p :: 0 <= p < |f.status| ==> (f.status[p] <==> p < k))
    && f.pri[0].imageSize == Some(u.newSize)
  }

  ghost function LosingOf(u: Upgrade, f0: Flash): (inv: (Flash, nat) -> bool)
    requires u.Valid()
  {
    (f: Flash, k: nat) => Losing(u, f0, f, k)
  }

  /** The resumed plan skips that sector, so it stays lost. */
  lemma LosingSound(u: Upgrade, f0: Flash, usedSec: nat)
    requires u.Valid() && ExtentOf(u).last >= 1 && ExtentOf(u).last > Mistaken(u)
    ensures Sound(LosingOf(u, f0), ForwardPlan(ExtentOf(u).last, Mistaken(u), usedSec), 2 * ExtentOf(u).last)
  {
    hide Upgrade.Used, Upgrade.Last;
    var inv, plan := LosingOf(u, f0), ForwardPlan(ExtentOf(u).last, Mistaken(u), usedSec);
    forall f, k: nat | 2 * ExtentOf(u).last <= k < |plan| && inv(f, k)
      ensures SoundAt(inv, plan[k], f, k)
    {
    }
  }

  lemma {:induction false} LostForGood(u: Upgrade, f0: Flash, f: Flash, k: nat, later: seq<(nat, Sector)>)
    requires u.Valid() && Ready(u, f0) && ExtentOf(u).last >= 1 && !Safe(u) && Losing(u, f0, f, k)
    ensures !Swapped(ExtentOf(u), f0, ForwardBoots(u, f, later))
    decreases |later|
  {
    hide Upgrade.Used, Upgrade.Last, ForwardStep;
    var e := ExtentOf(u);
    if later != [] {
      FoundUnique(f.status, k);
      var plan := ForwardPlanAt(u, f, k).value;
      assert plan == ForwardPlan(e.last, Mistaken(u), e.nNew);
      LosingSound(u, f0, e.nNew);
      var m := Machine(f, later[0].0, later[0].1, true);
      var k' := Survives(LosingOf(u, f0), plan, m, k);
      LostForGood(u, f0, ForwardBoot(u, f, later[0].0, later[0].1).f, k', later[1..]);
    }
  }

  /** A three-sector image upgraded to one that fits one sector: an erased last sector is enough to lose the old image. */
  lemma UnsafeUpgrade() returns (u: Upgrade, f0: Flash, budget: nat)
    ensures u == Upgrade(4096, 3 * 4096, 4096, 0, 0) && !Safe(u) && Ready(u, f0)
    ensures
      var f1 := ForwardBoot(u, f0, budget, Sector(None, [0xFF])).f;
      forall later: seq<(nat, Sector)> :: !Swapped(ExtentOf(u), f0, ForwardBoots(u, f1, later))
  {
    hide ForwardBoot, ForwardBoots;
    u := Upgrade(4096, 3 * 4096, 4096, 0, 0);
    f0 := Flash([Sector(Some(3 * 4096), [1]), Sector(None, [2]), Sector(None, [3])],
                [Sector(None, [0xFF]), Sector(Some(4096), [4]), Sector(None, [0xFF]), Sector(None, [0xFF])],
                [false, false, false, false, false, false]);
    assert ExtentOf(u) == Extent(2, 3, 1) && Mistaken(u) == 1;
    assert f0.pri[2].body != [0xFF];
    budget := ForwardLoses(u, f0, Sector(None, [0xFF]));
  }

  // ----- the bootloader's own loops -----

  /** `boot_swap_sectors`: the two halves of sector `idx`, the first one unless the status says it is done. */
  method SwapSectors(dev: Device, idx: nat, firstHalf: bool, usedPri: nat, usedSec: nat)
    requires StepFits(dev.m.f, ForwardStep(usedPri, usedSec, 2 * idx)) && StepFits(dev.m.f, ForwardStep(usedPri, usedSec, 2 * idx + 1))
    modifies dev
    ensures SameShape(old(dev.m.f), dev.m.f)
    ensures dev.m ==
            var m := if firstHalf then DoStep(old(dev.m), ForwardStep(usedPri, usedSec, 2 * idx)) else old(dev.m);
            DoStep(m, ForwardStep(usedPri, usedSec, 2 * idx + 1))
  {
    HalfSteps(idx, usedPri, usedSec);
    if firstHalf {
      if idx > usedPri {
      } else {
        dev.CopySector(Primary(idx), Secondary(idx));
      }
      dev.WriteStatus(2 * idx);
    }
    if idx > usedSec {
    } else {
      dev.CopySector(Secondary(idx + 1), Primary(idx));
    }
    dev.WriteStatus(2 * idx + 1);
  }

  lemma HalfSteps(idx: nat, usedPri: nat, usedSec: nat)
    ensures ForwardStep(usedPri, usedSec, 2 * idx) == Step(if idx > usedPri then None else Some(Copy(Primary(idx), Secondary(idx))), 2 * idx)
    ensures ForwardStep(usedPri, usedSec, 2 * idx + 1) == Step(if idx > usedSec then None else Some(Copy(Secondary(idx + 1), Primary(idx))), 2 * idx + 1)
  {
    assert 2 * idx / 2 == idx && 2 * idx % 2 == 0 && (2 * idx + 1) / 2 == idx && (2 * idx + 1) % 2 == 1;
  }

  /** The forward loop of `swap_run`, resumed at status `k`. */
  method SwapRun(dev: Device, last: nat, usedPri: nat, usedSec: nat, k: nat)
    requires Room(last, dev.m.f) && k <= 2 * (last + 1) && PlanFits(dev.m.f, ForwardPlan(last, usedPri, usedSec))
    modifies dev
    ensures dev.m == RunFrom(old(dev.m), ForwardPlan(last, usedPri, usedSec), k)
  {
    hide ForwardStep, DoStep, StepFits;
    ghost var plan := ForwardPlan(last, usedPri, usedSec);
    ghost var m0 := dev.m;
    var idx := 0;
    while idx <= last
      invariant idx <= last + 1
      invariant SameShape(m0.f, dev.m.f) && PlanFits(dev.m.f, plan)
      invariant idx <= k / 2 ==> dev.m == m0
      invariant idx > k / 2 ==> RunFrom(m0, plan, k) == RunFrom(dev.m, plan, 2 * idx)
    {
      if idx >= k / 2 {
        ghost var m := dev.m;
        assert StepFits(m.f, plan[2 * idx]) && StepFits(m.f, plan[2 * idx + 1]);
        SwapSectors(dev, idx, idx > k / 2 || k % 2 == 0, usedPri, usedSec);
        FitsByShape(m.f, dev.m.f, plan);
        TwoSteps(m, plan, idx, k);
      }
      idx := idx + 1;
    }
  }

  lemma TwoSteps(m: Machine, plan: Plan, idx: nat, k: nat)
    requires 2 * idx + 1 < |plan| && PlanFits(m.f, plan) && k <= 2 * idx + 1
    ensures
      var m1 := if idx > k / 2 || k % 2 == 0 then DoStep(m, plan[2 * idx]) else m;
      PlanFits(m1.f, plan) &&
      var m2 := DoStep(m1, plan[2 * idx + 1]);
      PlanFits(m2.f, plan) &&
      RunFrom(m, plan, if idx > k / 2 then 2 * idx else k) == RunFrom(m2, plan, 2 * idx + 2)
  {
    hide DoStep, StepFits;
    var m1 := if idx > k / 2 || k % 2 == 0 then DoStep(m, plan[2 * idx]) else m;
    assert StepFits(m.f, plan[2 * idx]);
    FitsByShape(m.f, m1.f, plan);
    assert StepFits(m1.f, plan[2 * idx + 1]);
    FitsByShape(m1.f, DoStep(m1, plan[2 * idx + 1]).f, plan);
  }

  /** A boot on the device. */
  method Boot(dev: Device, u: Upgrade) returns (done: bool)
    requires u.Valid() && Room(ExtentOf(u).last, dev.m.f) && dev.m.on
    modifies dev
    ensures Outcome(dev.m.f, done) == ForwardBoot(u, old(dev.m.f), old(dev.m.budget), old(dev.m.junk))
  {
    hide Upgrade.Used, ForwardPlan;
    var k := ReadStatusBytes(dev.m.f.status);
    var last := FindLastIdx(u);
    var places := HeaderPlaces(last, k);
    var size0, size1 := Read(dev.m.f, places.0).imageSize, Read(dev.m.f, places.1).imageSize;
    if size0.None? || size1.None? || k > 2 * (last + 1) {
      return false;
    }
    ForwardFits(last, dev.m.f, u.Used(size0.value, u.tlvPri), u.Used(size1.value, u.tlvSec));
    SwapRun(dev, last, u.Used(size0.value, u.tlvPri), u.Used(size1.value, u.tlvSec), k);
    done := dev.m.on;
  }
}
