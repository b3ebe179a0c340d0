/** Delivering a file while no callback fails. */
module Uf2Delivery {
  import opened Bytes
  import opened Options
  import opened Uf2Format
  import opened Uf2Tags
  import opened Uf2Routing
  import opened Uf2Receiver
  import opened Uf2Runs
  import opened Uf2Convert

  /** The driver can take what this block writes. */
  predicate Programmable(c: Cfg, maxBlocks: U32, b: Block, r: nat)
    requires ValidCfg(c) && r < |c.regions| && Screen(c, maxBlocks, b) == Target(r, Offset(c, maxBlocks, b))
  {
    var off := Offset(c, maxBlocks, b);
    Aligned(c.regions[r], off, |Written(c.regions[r], b, off)|)
  }

  /** While the callbacks succeed, a block that is wanted is taken or already in. */
  lemma SmoothStep(c: Cfg, maxBlocks: U32, s: State, b: Block, r: nat) returns (s': State)
    requires ValidCfg(c) && Inv(c, maxBlocks, s) && r < |c.regions| <= MAX_REGIONS
    requires Screen(c, maxBlocks, b) == Target(r, Offset(c, maxBlocks, b)) && Programmable(c, maxBlocks, b, r)
    requires s.numBlocks == 0 || s.numBlocks == b.numBlocks
    ensures Next(c, maxBlocks, s, b, 0, s')
  {
    hide Screen, Written;
    var off, s0 := Offset(c, maxBlocks, b), s.(numBlocks := b.numBlocks);
    s' := if b.blockNo in s.received then s0 else Programmed(c, s0, b, r, off);
  }

  /** Blocks of a file in any order with repetitions: there is a run that answers each with 0, and it is complete once every
      block has been delivered. */
  lemma {:induction false} SmoothRun(c: Cfg, maxBlocks: U32, flash: seq<seq<Byte>>, file: seq<Block>, r: nat, order: seq<nat>)
    returns (run: Run)
    requires ValidCfg(c) && FlashFits(c, flash) && IsFile(c, maxBlocks, file, r)
    requires forall i :: 0 <= i < |file| ==> Programmable(c, maxBlocks, file[i], r)
    requires forall k :: 0 <= k < |order| ==> order[k] < |file|
    ensures IsRun(c, maxBlocks, flash, run) && |run.blocks| == |order|
    ensures forall k :: 0 <= k < |order| ==> run.blocks[k] == file[order[k]] && run.rcs[k] == 0
    ensures OnlyFile(c, maxBlocks, file, run, |order|)
    decreases |order|
  {
    hide Screen, Next, Programmable, PayloadsApart, Offset;
    if order == [] {
      run := Run([], [], [Start(flash)]);
    } else {
      var n := |order| - 1;
      var before := SmoothRun(c, maxBlocks, flash, file, r, order[..n]);
      var b := file[order[n]];
      RunInv(c, maxBlocks, flash, before, n);
      CountOfFile(c, maxBlocks, flash, before, n, file, r);
      var s' := SmoothStep(c, maxBlocks, before.states[n], b, r);
      run := Run(before.blocks + [b], before.rcs + [0], before.states + [s']);
      Extended(c, maxBlocks, flash, before, run, b, s');
    }
  }

  lemma Extended(c: Cfg, maxBlocks: U32, flash: seq<seq<Byte>>, before: Run, run: Run, b: Block, s': State)
    requires ValidCfg(c) && IsRun(c, maxBlocks, flash, before) && run == Run(before.blocks + [b], before.rcs + [0], before.states + [s'])
    requires Inv(c, maxBlocks, before.states[|before.blocks|]) && Next(c, maxBlocks, before.states[|before.blocks|], b, 0, s')
    ensures IsRun(c, maxBlocks, flash, run)
  {
    hide Next, Inv;
    forall i | 0 <= i < |run.blocks| && Inv(c, maxBlocks, run.states[i])
      ensures Next(c, maxBlocks, run.states[i], run.blocks[i], run.rcs[i], run.states[i + 1])
    {
      if i < |before.blocks| {
        assert run.states[i] == before.states[i] && run.states[i + 1] == before.states[i + 1];
      }
    }
  }

  /** The start of the range is a whole number of write blocks into the region. */
  predicate StartsOnWriteBlock(c: Cfg, job: Job, r: nat)
    requires ValidCfg(c) && r < |c.regions| && c.regions[r].base <= job.appStart
  {
    (job.appStart - c.regions[r].base) % c.regions[r].writeBlock == 0
  }

  lemma JobProgrammable(c: Cfg, maxBlocks: U32, job: Job, specs: seq<Spec>, r: nat, i: nat)
    requires ValidCfg(c) && job.Fits() && i < job.NumBlocks() && Tagged(job, specs) && MadeFor(c, maxBlocks, job, specs, r)
    ensures Screen(c, maxBlocks, job.BlockAt(i)) == Target(r, Offset(c, maxBlocks, job.BlockAt(i)))
    ensures Programmable(c, maxBlocks, job.BlockAt(i), r) <==> StartsOnWriteBlock(c, job, r)
  {
    hide Screen, Written, Tagged, TagsOf, First, RoutedDisjoint;
    JobScreened(c, maxBlocks, job, specs, r, i);
    var g, start := c.regions[r], job.appStart - c.regions[r].base;
    FullPayloadExact(g, c.eraseSize, job.BlockAt(i), 256 * i + start);
    Shifted(start, i, g.writeBlock);
  }

  lemma Shifted(start: nat, i: nat, unit: nat)
    requires unit > 0 && 256 % unit == 0
    ensures (256 * i + start) % unit == 0 <==> start % unit == 0
  {
    TimesMod(i, 256, unit);
    var a, p, q := 256 * i, 256 * i / unit, start / unit;
    assert a == i * 256 && a == p * unit && start == q * unit + start % unit;
    assert a + start == (p + q) * unit + start % unit;
    DivModUnique(a + start, unit, p + q, start % unit);
  }

  /** The call gets as far as the flash callbacks, or finds the block already in. */
  ghost predicate Reaches(c: Cfg, maxBlocks: U32, s: State, b: Block) {
    Screen(c, maxBlocks, b).Target? && (s.numBlocks == 0 || s.numBlocks == b.numBlocks)
  }

  /** No flash callback failed in the first `n` calls. */
  ghost predicate NoneFailed(c: Cfg, maxBlocks: U32, run: Run, n: nat)
    requires n <= |run.blocks| == |run.rcs| && |run.states| == |run.blocks| + 1
  {
    forall k :: 0 <= k < n && Reaches(c, maxBlocks, run.states[k], run.blocks[k]) ==> run.rcs[k] == 0
  }

  /** A file in any order, with repetitions and turned-away traffic, in any run in which no callback failed: complete as soon
      as every block has been delivered. */
  lemma FileDelivered(c: Cfg, maxBlocks: U32, flash: seq<seq<Byte>>, run: Run, n: nat, file: seq<Block>, r: nat)
    requires ValidCfg(c) && IsRun(c, maxBlocks, flash, run) && n < |run.states|
    requires IsFile(c, maxBlocks, file, r) && OnlyFile(c, maxBlocks, file, run, n) && NoneFailed(c, maxBlocks, run, n)
    requires forall i :: 0 <= i < |file| ==> file[i] in run.blocks[..n]
    ensures Inv(c, maxBlocks, run.states[n])
    ensures run.states[n].Complete() && Holds(c, maxBlocks, run.states[n], file, r)
  {
    hide Screen, Next, Offset, PayloadsApart;
    forall i | 0 <= i < |file|
      ensures Answered(run, n, file[i])
    {
      assert file[i] in run.blocks[..n];
      var k :| 0 <= k < n && run.blocks[..n][k] == file[i];
      CountOfFile(c, maxBlocks, flash, run, k, file, r);
      assert Reaches(c, maxBlocks, run.states[k], run.blocks[k]);
    }
    FileArrives(c, maxBlocks, flash, run, n, file, r);
  }

  /** The tool's blocks, in every run in which no callback failed: complete with the padded content in place as soon as every
      block has been delivered, in any order, with repetitions and turned-away traffic. */
  lemma HostFileDelivered(c: Cfg, maxBlocks: U32, flash: seq<seq<Byte>>, run: Run, n: nat, job: Job, specs: seq<Spec>, r: nat)
    requires ValidCfg(c) && IsRun(c, maxBlocks, flash, run) && n < |run.states|
    requires job.content != [] && job.Fits() && Tagged(job, specs) && MadeFor(c, maxBlocks, job, specs, r)
    requires OnlyFile(c, maxBlocks, job.Blocks(), run, n) && NoneFailed(c, maxBlocks, run, n)
    requires forall i :: 0 <= i < job.NumBlocks() ==> job.Blocks()[i] in run.blocks[..n]
    ensures Inv(c, maxBlocks, run.states[n]) && run.states[n].Complete()
    ensures
      var start := job.appStart - c.regions[r].base;
      run.states[n].flash[r][start..start + 256 * job.NumBlocks()] == job.Padded()
  {
    hide Screen, Next, MadeFor, Tagged, IsFile, Job.BlockAt, Job.Padded, IsRun, NoneFailed;
    JobIsFile(c, maxBlocks, job, specs, r);
    FileDelivered(c, maxBlocks, flash, run, n, job.Blocks(), r);
    HostFileArrives(c, maxBlocks, flash, run, n, job, specs, r);
  }

  /** There is such a run for every order, exactly for ranges that start on a write block. */
  lemma HostRunExists(c: Cfg, maxBlocks: U32, flash: seq<seq<Byte>>, job: Job, specs: seq<Spec>, r: nat, order: seq<nat>) returns (run: Run)
    requires ValidCfg(c) && FlashFits(c, flash)
    requires job.content != [] && job.Fits() && Tagged(job, specs) && MadeFor(c, maxBlocks, job, specs, r) && StartsOnWriteBlock(c, job, r)
    requires forall k :: 0 <= k < |order| ==> order[k] < job.NumBlocks()
    ensures IsRun(c, maxBlocks, flash, run) && |run.blocks| == |order| && NoneFailed(c, maxBlocks, run, |order|)
    ensures forall k :: 0 <= k < |order| ==> run.blocks[k] == job.BlockAt(order[k])
  {
    hide Screen, Next, MadeFor, Tagged, Programmable, IsFile, Job.BlockAt, Job.Padded, StartsOnWriteBlock;
    JobIsFile(c, maxBlocks, job, specs, r);
    assert forall i :: 0 <= i < job.NumBlocks() ==> job.Blocks()[i] == job.BlockAt(i);
    forall i | 0 <= i < job.NumBlocks()
      ensures Screen(c, maxBlocks, job.BlockAt(i)) == Target(r, Offset(c, maxBlocks, job.BlockAt(i))) && Programmable(c, maxBlocks, job.BlockAt(i), r)
    {
      JobProgrammable(c, maxBlocks, job, specs, r, i);
    }
    run := SmoothRun(c, maxBlocks, flash, job.Blocks(), r, order);
  }

  /** A range that does not start on a write block never arrives, whatever is delivered and however often. */
  lemma {:induction false} UnalignedNeverArrives(c: Cfg, maxBlocks: U32, flash: seq<seq<Byte>>, run: Run, n: nat, job: Job, specs: seq<Spec>, r: nat)
    requires ValidCfg(c) && IsRun(c, maxBlocks, flash, run) && n < |run.states|
    requires job.content != [] && job.Fits() && Tagged(job, specs) && MadeFor(c, maxBlocks, job, specs, r)
    requires OnlyFile(c, maxBlocks, job.Blocks(), run, n) && !StartsOnWriteBlock(c, job, r)
    ensures run.states[n].received == {} && !run.states[n].Complete()
    decreases n
  {
    hide Screen, MadeFor, Tagged, Written, StartsOnWriteBlock, Job.BlockAt, Job.Padded, Aligned;
    if n > 0 {
      UnalignedNeverArrives(c, maxBlocks, flash, run, n - 1, job, specs, r);
      RunInv(c, maxBlocks, flash, run, n - 1);
      var s, b := run.states[n - 1], run.blocks[n - 1];
      if Screen(c, maxBlocks, b).Target? {
        var i :| 0 <= i < job.NumBlocks() && job.Blocks()[i] == b;
        JobProgrammable(c, maxBlocks, job, specs, r, i);
      }
    }
    NothingIn(run.states[n]);
  }

  lemma NothingIn(s: State)
    requires s.received == {}
    ensures !s.Complete()
  {
    assert 0 !in s.received;
  }
}
