/** Sector moves under power failures: what the swap algorithms have in common.

    A boot issues sector copies, each followed by one status write, until the plan is done or the power goes. A copy that
    is cut short leaves anything at all in its destination sector; a status write takes effect or does not. */
module SwapEngine {
  import opened Bytes
  import opened Options

  /** A flash sector. `imageSize` is what an image header at its start says of the header, protected TLVs and body together,
      when the header magic is there; `body` is everything else. */
  datatype Sector = Sector(imageSize: Option<nat>, body: seq<Byte>)

  /** The image sectors of both slots and the status bytes of the primary trailer, by whether they are written. */
  datatype Flash = Flash(pri: seq<Sector>, sec: seq<Sector>, status: seq<bool>)

  datatype Place = Primary(idx: nat) | Secondary(idx: nat)

  datatype Copy = Copy(src: Place, dst: Place)

  predicate Within(f: Flash, p: Place) {
    match p
    case Primary(i) => i < |f.pri|
    case Secondary(i) => i < |f.sec|
  }

  function Read(f: Flash, p: Place): (s: Sector)
    requires Within(f, p)
  {
    match p
    case Primary(i) => f.pri[i]
    case Secondary(i) => f.sec[i]
  }

  function Write(f: Flash, p: Place, s: Sector): (f': Flash)
    requires Within(f, p)
  {
    match p
    case Primary(i) => f.(pri := f.pri[i := s])
    case Secondary(i) => f.(sec := f.sec[i := s])
  }

  function Mark(f: Flash, pos: nat): (f': Flash)
    requires pos < |f.status|
  {
    f.(status := f.status[pos := true])
  }

  predicate SameShape(f: Flash, g: Flash) {
    |f.pri| == |g.pri| && |f.sec| == |g.sec| && |f.status| == |g.status|
  }

  /** The flash with a supply of power: `budget` more operations will complete, the next one is cut short and, if it is a
      copy, leaves `junk`; then the power is off and nothing more happens. */
  datatype Machine = Machine(f: Flash, budget: nat, junk: Sector, on: bool)

  function DoCopy(m: Machine, c: Copy): (m': Machine)
    requires Within(m.f, c.src) && Within(m.f, c.dst)
    ensures SameShape(m.f, m'.f)
  {
    if !m.on then m
    else if m.budget == 0 then m.(f := Write(m.f, c.dst, m.junk), on := false)
    else m.(f := Write(m.f, c.dst, Read(m.f, c.src)), budget := m.budget - 1)
  }

  function DoMark(m: Machine, pos: nat): (m': Machine)
    requires pos < |m.f.status|
    ensures SameShape(m.f, m'.f)
  {
    if !m.on then m
    else if m.budget == 0 then m.(on := false)
    else m.(f := Mark(m.f, pos), budget := m.budget - 1)
  }

  /** A swap as a list of steps: step `k` copies a sector, unless the algorithm skips it, and then writes a status byte. */
  datatype Step = Step(copy: Option<Copy>, pos: nat)

  type Plan = seq<Step>

  predicate StepFits(f: Flash, t: Step) {
    && t.pos < |f.status|
    && (t.copy.Some? ==> Within(f, t.copy.value.src) && Within(f, t.copy.value.dst))
  }

  predicate PlanFits(f: Flash, plan: Plan) {
    forall k :: 0 <= k < |plan| ==> StepFits(f, plan[k])
  }

  lemma FitsByShape(f: Flash, g: Flash, plan: Plan)
    requires SameShape(f, g) && PlanFits(f, plan)
    ensures PlanFits(g, plan)
  {
    forall k | 0 <= k < |plan|
      ensures StepFits(g, plan[k])
    {
      assert StepFits(f, plan[k]);
    }
  }

  function DoStep(m: Machine, t: Step): (m': Machine)
    requires StepFits(m.f, t)
    ensures SameShape(m.f, m'.f)
  {
    DoMark(if t.copy.Some? then DoCopy(m, t.copy.value) else m, t.pos)
  }

  /** The flash after a step that was not disturbed. */
  function Stepped(f: Flash, t: Step): (f': Flash)
    requires StepFits(f, t)
    ensures SameShape(f, f')
  {
    Mark(if t.copy.Some? then Write(f, t.copy.value.dst, Read(f, t.copy.value.src)) else f, t.pos)
  }

  function Cost(t: Step): (n: nat) {
    if t.copy.Some? then 2 else 1
  }

  lemma UndisturbedStep(f: Flash, t: Step, budget: nat, junk: Sector)
    requires StepFits(f, t) && budget >= Cost(t)
    ensures DoStep(Machine(f, budget, junk, true), t) == Machine(Stepped(f, t), budget - Cost(t), junk, true)
  {
  }

  lemma TornStep(f: Flash, t: Step, junk: Sector)
    requires StepFits(f, t) && t.copy.Some?
    ensures DoStep(Machine(f, 0, junk, true), t) == Machine(Write(f, t.copy.value.dst, junk), 0, junk, false)
  {
  }

  /** The boot's work from step `k` on. */
  function RunFrom(m: Machine, plan: Plan, k: nat): (m': Machine)
    requires k <= |plan| && PlanFits(m.f, plan)
    ensures SameShape(m.f, m'.f)
    decreases |plan| - k
  {
    if k == |plan| then m else RunFrom(DoStep(m, plan[k]), plan, k + 1)
  }

  /** An invariant by progress that, from step `from` on, a torn copy of step `k` cannot break and a completed step `k`
      carries to `k + 1`. */
  ghost predicate Sound(inv: (Flash, nat) -> bool, plan: Plan, from: nat) {
    forall f, k: nat :: from <= k < |plan| && inv(f, k) ==> SoundAt(inv, plan[k], f, k)
  }

  ghost predicate SoundAt(inv: (Flash, nat) -> bool, t: Step, f: Flash, k: nat) {
    && StepFits(f, t)
    && (t.copy.Some? ==> forall s :: inv(Write(f, t.copy.value.dst, s), k))
    && inv(Stepped(f, t), k + 1)
  }

  lemma StepKeeps(inv: (Flash, nat) -> bool, t: Step, m: Machine, k: nat)
    requires m.on && inv(m.f, k) && SoundAt(inv, t, m.f, k)
    ensures DoStep(m, t).on ==> inv(DoStep(m, t).f, k + 1)
    ensures !DoStep(m, t).on ==> inv(DoStep(m, t).f, k)
  {
    hide Within, Read, Write, Mark;
    if t.copy.Some? && m.budget > 0 {
      var s := Read(m.f, t.copy.value.src);
      assert inv(Write(m.f, t.copy.value.dst, s), k);
    }
  }

  /** Wherever the power goes, the flash is in the invariant at some step reached; with power left, at the last. */
  lemma {:induction false} Survives(inv: (Flash, nat) -> bool, plan: Plan, m: Machine, k: nat) returns (k': nat)
    requires Sound(inv, plan, k) && k <= |plan| && inv(m.f, k) && PlanFits(m.f, plan)
    ensures k <= k' <= |plan| && inv(RunFrom(m, plan, k).f, k')
    ensures RunFrom(m, plan, k).on ==> k' == |plan|
    decreases |plan| - k
  {
    hide DoStep, SoundAt;
    if !m.on {
      StaysOff(m, plan, k);
      k' := k;
    } else if k == |plan| {
      k' := k;
    } else {
      var t := plan[k];
      assert SoundAt(inv, t, m.f, k);
      StepKeeps(inv, t, m, k);
      var m' := DoStep(m, t);
      if m'.on {
        k' := Survives(inv, plan, m', k + 1);
      } else {
        StaysOff(m', plan, k + 1);
        k' := k;
      }
    }
  }

  /** The power can go in the middle of any copy: some budget stops the boot there, with everything before it done. */
  lemma {:induction false} CutAt(inv: (Flash, nat) -> bool, plan: Plan, f: Flash, k: nat, target: nat, junk: Sector) returns (budget: nat, g: Flash)
    requires Sound(inv, plan, k) && inv(f, k) && PlanFits(f, plan)
    requires k <= target < |plan| && plan[target].copy.Some?
    ensures inv(g, target) && SameShape(f, g)
    ensures RunFrom(Machine(f, budget, junk, true), plan, k) == Machine(Write(g, plan[target].copy.value.dst, junk), 0, junk, false)
    decreases target - k
  {
    hide Within, Read, Write, Stepped, DoStep;
    var t := plan[k];
    assert SoundAt(inv, t, f, k);
    if k == target {
      budget, g := 0, f;
      var m := DoStep(Machine(f, 0, junk, true), t);
      TornStep(f, t, junk);
      FitsByShape(f, m.f, plan);
      StaysOff(m, plan, k + 1);
      assert RunFrom(Machine(f, 0, junk, true), plan, k) == RunFrom(m, plan, k + 1);
    } else {
      FitsByShape(f, Stepped(f, t), plan);
      var rest;
      rest, g := CutAt(inv, plan, Stepped(f, t), k + 1, target, junk);
      budget := rest + Cost(t);
      UndisturbedStep(f, t, budget, junk);
      FitsByShape(f, g, plan);
      assert StepFits(g, plan[target]);
      assert RunFrom(Machine(f, budget, junk, true), plan, k) == RunFrom(Machine(Stepped(f, t), rest, junk, true), plan, k + 1);
    }
  }

  lemma {:induction false} StaysOff(m: Machine, plan: Plan, k: nat)
    requires k <= |plan| && PlanFits(m.f, plan) && !m.on
    ensures RunFrom(m, plan, k) == m
    decreases |plan| - k
  {
    if k < |plan| {
      StaysOff(m, plan, k + 1);
    }
  }

  /** Two operations per remaining step are always enough to finish. */
  lemma {:induction false} EnoughPower(m: Machine, plan: Plan, k: nat)
    requires k <= |plan| && PlanFits(m.f, plan) && m.on && m.budget >= 2 * (|plan| - k)
    ensures RunFrom(m, plan, k).on
    decreases |plan| - k
  {
    if k < |plan| {
      EnoughPower(DoStep(m, plan[k]), plan, k + 1);
    }
  }

  // ----- status bytes -----

  /** Number of the last written status byte, counted from one; zero when none is. */
  function Found(status: seq<bool>): (n: nat)
    ensures n <= |status|
    ensures n > 0 ==> status[n - 1]
    ensures forall i :: n <= i < |status| ==> !status[i]
  {
    if status == [] then 0
    else if status[|status| - 1] then |status|
    else Found(status[..|status| - 1])
  }

  /** The loop of `swap_read_status_bytes`, from the last entry down. */
  method ReadStatusBytes(status: seq<bool>) returns (found: nat)
    ensures found == Found(status)
  {
    var foundIdx := -1;
    var i := |status|;
    while i > 0
      invariant 0 <= i <= |status|
      invariant foundIdx == -1 ==> forall j :: i <= j < |status| ==> !status[j]
      invariant foundIdx != -1 ==> i < foundIdx <= |status| && status[foundIdx - 1] && forall j :: foundIdx <= j < |status| ==> !status[j]
    {
      if status[i - 1] {
        if foundIdx == -1 {
          foundIdx := i;
        }
      }
      i := i - 1;
    }
    found := if foundIdx == -1 then 0 else foundIdx;
    FoundUnique(status, found);
  }

  lemma FoundUnique(status: seq<bool>, n: nat)
    requires n <= |status| && (n > 0 ==> status[n - 1]) && forall i :: n <= i < |status| ==> !status[i]
    ensures n == Found(status)
  {
  }

  /** The device the bootloader runs on. */
  class Device {
    var m: Machine

    constructor (f: Flash, budget: nat, junk: Sector)
      ensures m == Machine(f, budget, junk, true)
    {
      m := Machine(f, budget, junk, true);
    }

    /** Erase the destination sector and copy: `boot_erase_region`, `boot_copy_region`. */
    method CopySector(src: Place, dst: Place)
      requires Within(m.f, src) && Within(m.f, dst)
      modifies this
      ensures m == DoCopy(old(m), Copy(src, dst))
    {
      m := DoCopy(m, Copy(src, dst));
    }

    /** `boot_write_status`. */
    method WriteStatus(pos: nat)
      requires pos < |m.f.status|
      modifies this
      ensures m == DoMark(old(m), pos)
    {
      m := DoMark(m, pos);
    }
  }
}
