/** What every run of the receiver keeps: any blocks, in any order, with any callback failures. */
module Uf2Runs {
  import opened Bytes
  import opened Options
  import opened Uf2Format
  import opened Uf2Routing
  import opened Uf2Receiver

  /** The blocks handed to `uf2_process_block`, its return codes, and the states before, between and after. */
  datatype Run = Run(blocks: seq<Block>, rcs: seq<int>, states: seq<State>)

  /** A run from `uf2_init`. `Next` speaks of states with the invariant; `RunInv` shows that is all of them. */
  ghost predicate IsRun(c: Cfg, maxBlocks: U32, flash: seq<seq<Byte>>, run: Run)
    requires ValidCfg(c)
  {
    && FlashFits(c, flash)
    && |run.states| == |run.blocks| + 1 == |run.rcs| + 1
    && run.states[0] == Start(flash)
    && forall i :: 0 <= i < |run.blocks| && Inv(c, maxBlocks, run.states[i]) ==>
         Next(c, maxBlocks, run.states[i], run.blocks[i], run.rcs[i], run.states[i + 1])
  }

  lemma {:induction false} RunInv(c: Cfg, maxBlocks: U32, flash: seq<seq<Byte>>, run: Run, n: nat)
    requires ValidCfg(c) && IsRun(c, maxBlocks, flash, run) && n < |run.states|
    ensures Inv(c, maxBlocks, run.states[n])
  {
    hide Next;
    if n == 0 {
      StartInv(c, maxBlocks, flash);
    } else {
      RunInv(c, maxBlocks, flash, run, n - 1);
      NextKeepsInv(c, maxBlocks, run.states[n - 1], run.blocks[n - 1], run.rcs[n - 1], run.states[n]);
    }
  }

  /** Step `i` took its block in. */
  predicate Took(run: Run, i: nat)
    requires i < |run.blocks| && |run.states| == |run.blocks| + 1
  {
    run.blocks[i].blockNo !in run.states[i].received && run.blocks[i].blockNo in run.states[i + 1].received
  }

  /** The byte that block `b` puts at offset `x` of region `r`, if any. */
  function WritesAt(c: Cfg, maxBlocks: U32, b: Block, r: nat, x: nat): (v: Option<Byte>)
    requires ValidCfg(c)
  {
    var t := Screen(c, maxBlocks, b);
    if !t.Target? || t.region != r then None
    else
      var d := Written(c.regions[r], b, t.offset);
      if t.offset <= x < t.offset + |d| then Some(d[x - t.offset]) else None
  }

  /** What the last block taken among the first `n` steps put there. */
  function LastWrite(c: Cfg, maxBlocks: U32, run: Run, n: nat, r: nat, x: nat): (v: Option<Byte>)
    requires ValidCfg(c) && n <= |run.blocks| && |run.states| == |run.blocks| + 1
  {
    if n == 0 then None
    else if Took(run, n - 1) && WritesAt(c, maxBlocks, run.blocks[n - 1], r, x).Some? then WritesAt(c, maxBlocks, run.blocks[n - 1], r, x)
    else LastWrite(c, maxBlocks, run, n - 1, r, x)
  }

  /** A write, rounded up to whole write blocks or not, ends within what was erased for it. */
  lemma WriteWithinGoal(g: Region, eraseSize: U32, b: Block, off: nat)
    requires 0 < eraseSize && ValidRegion(g, eraseSize)
    requires b.payloadSize <= PAYLOAD_SIZE && off + b.payloadSize <= g.size
    requires Aligned(g, off, |Written(g, b, off)|)
    ensures off + |Written(g, b, off)| <= EraseGoal(g.size, eraseSize, off + b.payloadSize)
  {
    var end := off + b.payloadSize;
    GoalOnSector(g.size, eraseSize, end);
    var goal := EraseGoal(g.size, eraseSize, end);
    if goal < g.size {
      MultipleOfMultiple(goal, eraseSize, g.writeBlock);
      RoundedSum(off, b.payloadSize, g.writeBlock);
      RoundUpLeast(end, g.writeBlock, goal);
    }
  }

  /** From an aligned offset, rounding the length up is rounding the end up. */
  lemma RoundedSum(off: nat, len: nat, unit: nat)
    requires unit > 0 && off % unit == 0
    ensures off + RoundUp(len, unit) == RoundUp(off + len, unit)
  {
    SumMod(off, RoundUp(len, unit), unit);
    SameMultiple(off + RoundUp(len, unit), RoundUp(off + len, unit), unit);
  }

  /** Two multiples of the unit less than a unit apart are equal. */
  lemma SameMultiple(a: nat, b: nat, unit: nat)
    requires unit > 0 && a % unit == 0 && b % unit == 0 && a < b + unit && b < a + unit
    ensures a == b
  {
    var p, q := a / unit, b / unit;
    assert a == p * unit && b == q * unit;
    Scaled(p, q, unit);
    Scaled(q, p, unit);
  }

  /** One erase-and-write, seen from one byte: only the target's frontier moves, and only up; the byte takes the block's
      value if the block was stored over it, else it is erased if the frontier passed it, else it keeps its value. */
  lemma StoredByte(c: Cfg, s: State, b: Block, t: nat, off: nat, rc: int, s': State, r: nat, x: nat)
    requires ValidCfg(c) && t < |c.regions| && r < |c.regions| <= |s.frontier| && |c.regions| == |s.flash| == |s.written|
    requires forall i :: 0 <= i < |c.regions| ==> s.frontier[i] <= c.regions[i].size == |s.flash[i]|
    requires b.payloadSize <= PAYLOAD_SIZE && off + b.payloadSize <= c.regions[t].size && x < c.regions[r].size
    requires Stored(c, s, b, t, off, rc, s')
    ensures |s'.frontier| == |s.frontier| && |s'.flash| == |s.flash| && |s'.flash[r]| == |s.flash[r]|
    ensures s.frontier[r] <= s'.frontier[r] && (r != t ==> s'.frontier[r] == s.frontier[r])
    ensures s'.received == if rc == 0 then s.received + {b.blockNo} else s.received
    ensures
      var hit := rc == 0 && r == t && off <= x < off + |Written(c.regions[t], b, off)|;
      && (hit ==> x < s'.frontier[r] && s'.flash[r][x] == Written(c.regions[t], b, off)[x - off])
      && (!hit ==> s'.flash[r][x] == if s.frontier[r] <= x < s'.frontier[r] then ERASED else s.flash[r][x])
  {
    if rc == 0 {
      WriteWithinGoal(c.regions[t], c.eraseSize, b, off);
    }
  }

  /** The block is meant for region `r`. */
  predicate Targets(c: Cfg, maxBlocks: U32, b: Block, r: nat) {
    Screen(c, maxBlocks, b).Target? && Screen(c, maxBlocks, b).region == r
  }

  /** The same for a whole call. */
  lemma StepByte(c: Cfg, maxBlocks: U32, s: State, b: Block, rc: int, s': State, r: nat, x: nat)
    requires ValidCfg(c) && |c.regions| <= MAX_REGIONS && Inv(c, maxBlocks, s) && Next(c, maxBlocks, s, b, rc, s')
    requires r < |c.regions| && x < c.regions[r].size
    ensures Inv(c, maxBlocks, s')
    ensures s.frontier[r] <= s'.frontier[r] && (!Targets(c, maxBlocks, b, r) ==> s'.frontier[r] == s.frontier[r])
    ensures
      var hit := b.blockNo !in s.received && b.blockNo in s'.received && WritesAt(c, maxBlocks, b, r, x).Some?;
      && (hit ==> x < s'.frontier[r] && s'.flash[r][x] == WritesAt(c, maxBlocks, b, r, x).value)
      && (!hit ==> s'.flash[r][x] == if s.frontier[r] <= x < s'.frontier[r] then ERASED else s.flash[r][x])
  {
    hide Screen;
    NextKeepsInv(c, maxBlocks, s, b, rc, s');
    var v := Screen(c, maxBlocks, b);
    if v.Target? && (s.numBlocks == 0 || s.numBlocks == b.numBlocks) && b.blockNo !in s.received {
      StoredByte(c, s.(numBlocks := b.numBlocks), b, v.region, v.offset, rc, s', r, x);
    }
  }

  /** Nothing has been written at or above a region's erase frontier. */
  lemma {:induction false} WrittenBelowFrontier(c: Cfg, maxBlocks: U32, flash: seq<seq<Byte>>, run: Run, n: nat, r: nat, x: nat)
    requires ValidCfg(c) && |c.regions| <= MAX_REGIONS && IsRun(c, maxBlocks, flash, run) && n < |run.states|
    requires r < |c.regions| && x < c.regions[r].size
    requires LastWrite(c, maxBlocks, run, n, r, x).Some?
    ensures Inv(c, maxBlocks, run.states[n])
    ensures x < run.states[n].frontier[r]
  {
    hide Screen, Next, WritesAt;
    RunInv(c, maxBlocks, flash, run, n);
    if n > 0 {
      RunInv(c, maxBlocks, flash, run, n - 1);
      StepByte(c, maxBlocks, run.states[n - 1], run.blocks[n - 1], run.rcs[n - 1], run.states[n], r, x);
      if !(Took(run, n - 1) && WritesAt(c, maxBlocks, run.blocks[n - 1], r, x).Some?) {
        WrittenBelowFrontier(c, maxBlocks, flash, run, n - 1, r, x);
      }
    }
  }

  /** The frontier of a region that no block was meant for has not moved. */
  lemma {:induction false} UntargetedFrontier(c: Cfg, maxBlocks: U32, flash: seq<seq<Byte>>, run: Run, n: nat, r: nat)
    requires ValidCfg(c) && |c.regions| <= MAX_REGIONS && IsRun(c, maxBlocks, flash, run) && n < |run.states| && r < |c.regions|
    requires forall k :: 0 <= k < n ==> !Targets(c, maxBlocks, run.blocks[k], r)
    ensures Inv(c, maxBlocks, run.states[n])
    ensures run.states[n].frontier[r] == 0
  {
    hide Screen, Next, Targets;
    RunInv(c, maxBlocks, flash, run, n);
    if n > 0 {
      RunInv(c, maxBlocks, flash, run, n - 1);
      UntargetedFrontier(c, maxBlocks, flash, run, n - 1, r);
      StepFrontier(c, maxBlocks, run.states[n - 1], run.blocks[n - 1], run.rcs[n - 1], run.states[n], r);
    }
  }

  lemma StepFrontier(c: Cfg, maxBlocks: U32, s: State, b: Block, rc: int, s': State, r: nat)
    requires ValidCfg(c) && |c.regions| <= MAX_REGIONS && Inv(c, maxBlocks, s) && Next(c, maxBlocks, s, b, rc, s') && r < |c.regions|
    requires !Targets(c, maxBlocks, b, r)
    ensures |s'.frontier| == |s.frontier| && s'.frontier[r] == s.frontier[r]
  {
    hide Screen, Written;
  }

  /** A region that no block was meant for keeps its original contents. */
  lemma UntargetedKeeps(c: Cfg, maxBlocks: U32, flash: seq<seq<Byte>>, run: Run, n: nat, r: nat)
    requires ValidCfg(c) && |c.regions| <= MAX_REGIONS && IsRun(c, maxBlocks, flash, run) && n < |run.states| && r < |c.regions|
    requires forall k :: 0 <= k < n ==> !Targets(c, maxBlocks, run.blocks[k], r)
    ensures Inv(c, maxBlocks, run.states[n])
    ensures run.states[n].frontier[r] == 0 && run.states[n].flash[r] == flash[r]
  {
    hide Screen, Next, Targets, LastWrite;
    UntargetedFrontier(c, maxBlocks, flash, run, n, r);
    forall x | 0 <= x < c.regions[r].size
      ensures run.states[n].flash[r][x] == flash[r][x]
    {
      FlashAfterRun(c, maxBlocks, flash, run, n, r, x);
    }
  }

  /** The flash after any run, byte by byte: at or above the frontier the original contents; below it the last block
      taken that covers the byte, or the erased value. So no erase ever undoes a write. And the frontier is still at zero,
      so that all is original, in a region that no block was meant for. */
  lemma {:induction false} FlashAfterRun(c: Cfg, maxBlocks: U32, flash: seq<seq<Byte>>, run: Run, n: nat, r: nat, x: nat)
    requires ValidCfg(c) && |c.regions| <= MAX_REGIONS && IsRun(c, maxBlocks, flash, run) && n < |run.states|
    requires r < |c.regions| && x < c.regions[r].size
    ensures Inv(c, maxBlocks, run.states[n])
    ensures run.states[n].flash[r][x] ==
            if x >= run.states[n].frontier[r] then flash[r][x]
            else match LastWrite(c, maxBlocks, run, n, r, x) case Some(v) => v case None => ERASED
    ensures (forall k :: 0 <= k < n ==> !Targets(c, maxBlocks, run.blocks[k], r)) ==> run.states[n].frontier[r] == 0
  {
    hide Screen, Next, WritesAt, Targets;
    RunInv(c, maxBlocks, flash, run, n);
    if forall k :: 0 <= k < n ==> !Targets(c, maxBlocks, run.blocks[k], r) {
      UntargetedFrontier(c, maxBlocks, flash, run, n, r);
    }
    if n > 0 {
      RunInv(c, maxBlocks, flash, run, n - 1);
      FlashAfterRun(c, maxBlocks, flash, run, n - 1, r, x);
      StepByte(c, maxBlocks, run.states[n - 1], run.blocks[n - 1], run.rcs[n - 1], run.states[n], r, x);
      if LastWrite(c, maxBlocks, run, n - 1, r, x).Some? {
        WrittenBelowFrontier(c, maxBlocks, flash, run, n - 1, r, x);
      }
    }
  }

  // ----- which blocks are in -----

  /** A call adds at most its own block number, only when it returns 0, and only for a block of the file's size. */
  lemma StepReceived(c: Cfg, maxBlocks: U32, s: State, b: Block, rc: int, s': State)
    requires ValidCfg(c) && Inv(c, maxBlocks, s) && Next(c, maxBlocks, s, b, rc, s')
    ensures s.received <= s'.received <= s.received + {b.blockNo}
    ensures s'.received != s.received ==> rc == 0 && s'.numBlocks == b.numBlocks && Screen(c, maxBlocks, b).Target?
    ensures s.numBlocks != 0 ==> s'.numBlocks == s.numBlocks
    ensures Screen(c, maxBlocks, b).Target? && rc == 0 ==> b.blockNo in s'.received && s'.numBlocks == b.numBlocks
    ensures s'.numBlocks != s.numBlocks ==> Screen(c, maxBlocks, b).Target? && s'.numBlocks == b.numBlocks
  {
    hide Screen, Written;
  }

  /** Some call among the first `n` took in block number `k`. */
  ghost predicate TakenIn(run: Run, n: nat, k: nat)
    requires n <= |run.blocks| && |run.states| == |run.blocks| + 1
  {
    exists i :: 0 <= i < n && Took(run, i) && run.blocks[i].blockNo == k
  }

  /** The block numbers marked are exactly those of the blocks taken, and all of these announce the same file size. */
  lemma {:induction false} ReceivedAreTaken(c: Cfg, maxBlocks: U32, flash: seq<seq<Byte>>, run: Run, n: nat)
    requires ValidCfg(c) && IsRun(c, maxBlocks, flash, run) && n < |run.states|
    ensures forall k :: k in run.states[n].received <==> TakenIn(run, n, k)
    ensures forall i :: 0 <= i < n && Took(run, i) ==> run.rcs[i] == 0 && run.blocks[i].numBlocks == run.states[n].numBlocks
  {
    hide Next, Screen;
    if n > 0 {
      ReceivedAreTaken(c, maxBlocks, flash, run, n - 1);
      RunInv(c, maxBlocks, flash, run, n - 1);
      RunInv(c, maxBlocks, flash, run, n);
      var s, s' := run.states[n - 1], run.states[n];
      StepReceived(c, maxBlocks, s, run.blocks[n - 1], run.rcs[n - 1], s');
      forall k
        ensures k in s'.received <==> TakenIn(run, n, k)
      {
        assert TakenIn(run, n, k) <==> TakenIn(run, n - 1, k) || (Took(run, n - 1) && run.blocks[n - 1].blockNo == k);
        if k in s'.received && k !in s.received {
          assert Took(run, n - 1) && run.blocks[n - 1].blockNo == k;
        }
      }
      forall i | 0 <= i < n - 1 && Took(run, i)
        ensures run.blocks[i].numBlocks == s'.numBlocks
      {
        assert TakenIn(run, n - 1, run.blocks[i].blockNo);
      }
    }
  }

  /** A run is complete exactly when every number below the announced count has been taken. */
  lemma CompleteIffAllTaken(c: Cfg, maxBlocks: U32, flash: seq<seq<Byte>>, run: Run, n: nat)
    requires ValidCfg(c) && IsRun(c, maxBlocks, flash, run) && n < |run.states|
    ensures run.states[n].Complete() <==>
            && run.states[n].numBlocks > 0
            && forall k: nat :: k < run.states[n].numBlocks ==> TakenIn(run, n, k)
  {
    hide Next, Screen;
    ReceivedAreTaken(c, maxBlocks, flash, run, n);
  }

  // ----- how many bytes each region got -----

  /** Payload bytes of the blocks taken among the first `n` steps for region `r`. */
  function BytesTaken(c: Cfg, maxBlocks: U32, run: Run, n: nat, r: nat): (k: nat)
    requires n <= |run.blocks| && |run.states| == |run.blocks| + 1
  {
    if n == 0 then 0
    else BytesTaken(c, maxBlocks, run, n - 1, r) + if Took(run, n - 1) && Targets(c, maxBlocks, run.blocks[n - 1], r) then run.blocks[n - 1].payloadSize else 0
  }

  lemma StepWritten(c: Cfg, maxBlocks: U32, s: State, b: Block, rc: int, s': State, r: nat)
    requires ValidCfg(c) && |c.regions| <= MAX_REGIONS && Inv(c, maxBlocks, s) && Next(c, maxBlocks, s, b, rc, s') && r < |c.regions|
    ensures
      var took := b.blockNo !in s.received && b.blockNo in s'.received;
      && |s'.written| == |s.written|
      && s'.written[r] == (if took && Targets(c, maxBlocks, b, r) then Add32(s.written[r], b.payloadSize) else s.written[r])
      && (took && Targets(c, maxBlocks, b, r) ==> 0 < b.payloadSize <= PAYLOAD_SIZE)
      && s'.received == if took then s.received + {b.blockNo} else s.received
  {
    hide Screen, Written;
  }

  /** The counter of a region is the number of payload bytes taken for it, in 32 bits; and there are at most 256 for each
      block taken. */
  lemma {:induction false} CountedBytes(c: Cfg, maxBlocks: U32, flash: seq<seq<Byte>>, run: Run, n: nat, r: nat)
    requires ValidCfg(c) && |c.regions| <= MAX_REGIONS && IsRun(c, maxBlocks, flash, run) && n < |run.states| && r < |c.regions|
    ensures Inv(c, maxBlocks, run.states[n])
    ensures run.states[n].written[r] == BytesTaken(c, maxBlocks, run, n, r) % WORD
    ensures BytesTaken(c, maxBlocks, run, n, r) <= PAYLOAD_SIZE * |run.states[n].received|
  {
    hide Screen, Next, Targets, Add32;
    RunInv(c, maxBlocks, flash, run, n);
    if n > 0 {
      RunInv(c, maxBlocks, flash, run, n - 1);
      CountedBytes(c, maxBlocks, flash, run, n - 1, r);
      StepWritten(c, maxBlocks, run.states[n - 1], run.blocks[n - 1], run.rcs[n - 1], run.states[n], r);
      Wraps(BytesTaken(c, maxBlocks, run, n - 1, r), run.blocks[n - 1].payloadSize);
    }
  }

  lemma Wraps(a: nat, p: U32)
    ensures Add32(a % WORD, p) == (a + p) % WORD
  {
  }

  /** Nothing counted is nothing taken. */
  lemma {:induction false} BytesTakenZero(c: Cfg, maxBlocks: U32, flash: seq<seq<Byte>>, run: Run, n: nat, r: nat)
    requires ValidCfg(c) && |c.regions| <= MAX_REGIONS && IsRun(c, maxBlocks, flash, run) && n < |run.states| && r < |c.regions|
    ensures BytesTaken(c, maxBlocks, run, n, r) == 0 <==> forall i :: 0 <= i < n && Took(run, i) ==> !Targets(c, maxBlocks, run.blocks[i], r)
  {
    hide Screen, Next, Targets, Inv;
    if n > 0 {
      RunInv(c, maxBlocks, flash, run, n - 1);
      BytesTakenZero(c, maxBlocks, flash, run, n - 1, r);
      StepWritten(c, maxBlocks, run.states[n - 1], run.blocks[n - 1], run.rcs[n - 1], run.states[n], r);
    }
  }

  /** The upgrade is marked pending exactly when some block was taken for the primary region, as long as the most blocks a
      file may have keep the 32-bit counter from coming round to zero. */
  lemma PrimaryWrittenIff(c: Cfg, maxBlocks: U32, flash: seq<seq<Byte>>, run: Run, n: nat)
    requires ValidCfg(c) && |c.regions| <= MAX_REGIONS && IsRun(c, maxBlocks, flash, run) && n < |run.states|
    requires PAYLOAD_SIZE * maxBlocks < WORD
    ensures Primary(run.states[n]) <==> exists i :: 0 <= i < n && Took(run, i) && Targets(c, maxBlocks, run.blocks[i], 0)
  {
    hide Screen, Next, Targets, BytesTaken;
    CountedBytes(c, maxBlocks, flash, run, n, 0);
    BytesTakenZero(c, maxBlocks, flash, run, n, 0);
    FullWhenCounted(run.states[n].received, run.states[n].numBlocks);
  }

  // ----- delivering a file -----

  function Offset(c: Cfg, maxBlocks: U32, b: Block): (off: nat)
  {
    var t := Screen(c, maxBlocks, b);
    if t.Target? then t.offset else 0
  }

  /** Blocks 0, 1, ... of one file, all meant for region `r`, with payloads that do not overlap. */
  predicate IsFile(c: Cfg, maxBlocks: U32, file: seq<Block>, r: nat)
    requires ValidCfg(c)
  {
    && |file| > 0 && r < |c.regions| <= MAX_REGIONS
    && (forall i :: 0 <= i < |file| ==>
          file[i].blockNo == i && file[i].numBlocks == |file| && Screen(c, maxBlocks, file[i]) == Target(r, Offset(c, maxBlocks, file[i])))
    && (forall i, j :: 0 <= i < j < |file| ==> PayloadsApart(c, maxBlocks, file[i], file[j]))
  }

  predicate PayloadsApart(c: Cfg, maxBlocks: U32, a: Block, b: Block) {
    || Offset(c, maxBlocks, a) + a.payloadSize <= Offset(c, maxBlocks, b)
    || Offset(c, maxBlocks, b) + b.payloadSize <= Offset(c, maxBlocks, a)
  }

  /** What block `a` writes, rounded up or not, leaves the payload of block `b` alone. */
  predicate KeepsClear(c: Cfg, maxBlocks: U32, a: Block, b: Block, r: nat)
    requires ValidCfg(c)
  {
    forall x | Offset(c, maxBlocks, b) <= x < Offset(c, maxBlocks, b) + b.payloadSize :: WritesAt(c, maxBlocks, a, r, x).None?
  }

  /** Two blocks on write-block boundaries whose payloads do not overlap: rounding one up does not touch the other. */
  lemma RoundingKeepsClear(c: Cfg, maxBlocks: U32, a: Block, b: Block, r: nat)
    requires ValidCfg(c) && r < |c.regions| && Targets(c, maxBlocks, a, r) && Targets(c, maxBlocks, b, r)
    requires Offset(c, maxBlocks, a) % c.regions[r].writeBlock == 0 && Offset(c, maxBlocks, b) % c.regions[r].writeBlock == 0
    requires PayloadsApart(c, maxBlocks, a, b)
    ensures KeepsClear(c, maxBlocks, a, b, r)
  {
    hide Screen;
    var g, offA, offB := c.regions[r], Offset(c, maxBlocks, a), Offset(c, maxBlocks, b);
    if offA + a.payloadSize <= offB {
      RoundedSum(offA, a.payloadSize, g.writeBlock);
      RoundUpLeast(offA + a.payloadSize, g.writeBlock, offB);
      assert offA + |Written(g, a, offA)| <= offB;
    }
  }

  /** A block is taken only at a write-block boundary of the region it is meant for. */
  lemma TakenAligned(c: Cfg, maxBlocks: U32, s: State, b: Block, rc: int, s': State, r: nat)
    requires ValidCfg(c) && Inv(c, maxBlocks, s) && Next(c, maxBlocks, s, b, rc, s') && r < |c.regions| && Targets(c, maxBlocks, b, r)
    requires b.blockNo !in s.received && b.blockNo in s'.received
    ensures Offset(c, maxBlocks, b) % c.regions[r].writeBlock == 0
  {
    hide Screen, Written;
  }

  /** The first `n` calls were given blocks of the file, repeated and in any order, and blocks the bootloader turns away. */
  predicate OnlyFile(c: Cfg, maxBlocks: U32, file: seq<Block>, run: Run, n: nat) {
    n <= |run.blocks| && forall k :: 0 <= k < n ==> run.blocks[k] in file || !Screen(c, maxBlocks, run.blocks[k]).Target?
  }

  lemma PayloadWritten(c: Cfg, maxBlocks: U32, b: Block, r: nat, x: nat)
    requires ValidCfg(c) && Screen(c, maxBlocks, b) == Target(r, Offset(c, maxBlocks, b))
    requires Offset(c, maxBlocks, b) <= x < Offset(c, maxBlocks, b) + b.payloadSize
    ensures WritesAt(c, maxBlocks, b, r, x) == Some(b.data[x - Offset(c, maxBlocks, b)])
  {
    hide Screen;
  }

  /** Once a block of the file is in, each byte of its payload is in flash and below the frontier, for good. */
  lemma {:induction false} ByteStays(c: Cfg, maxBlocks: U32, flash: seq<seq<Byte>>, run: Run, n: nat, file: seq<Block>, r: nat, i: nat, x: nat)
    requires ValidCfg(c) && IsRun(c, maxBlocks, flash, run) && n < |run.states|
    requires IsFile(c, maxBlocks, file, r) && OnlyFile(c, maxBlocks, file, run, n)
    requires i < |file| && i in run.states[n].received
    requires Offset(c, maxBlocks, file[i]) <= x < Offset(c, maxBlocks, file[i]) + file[i].payloadSize
    ensures Inv(c, maxBlocks, run.states[n]) && Offset(c, maxBlocks, file[i]) % c.regions[r].writeBlock == 0
    ensures x < run.states[n].frontier[r] && x < |run.states[n].flash[r]|
    ensures run.states[n].flash[r][x] == file[i].data[x - Offset(c, maxBlocks, file[i])]
  {
    hide Screen, Next, WritesAt, Offset;
    RunInv(c, maxBlocks, flash, run, n);
    if n > 0 {
      RunInv(c, maxBlocks, flash, run, n - 1);
      var s, b, s' := run.states[n - 1], run.blocks[n - 1], run.states[n];
      StepReceived(c, maxBlocks, s, b, run.rcs[n - 1], s');
      StepByte(c, maxBlocks, s, b, run.rcs[n - 1], s', r, x);
      if i in s.received {
        ByteStays(c, maxBlocks, flash, run, n - 1, file, r, i, x);
        if b.blockNo !in s.received && b.blockNo in s'.received {
          assert b in file && file[b.blockNo] == b && b.blockNo != i;
          assert PayloadsApart(c, maxBlocks, b, file[i]);
          TakenAligned(c, maxBlocks, s, b, run.rcs[n - 1], s', r);
          RoundingKeepsClear(c, maxBlocks, b, file[i], r);
        }
      } else {
        assert b in file && b == file[i];
        TakenAligned(c, maxBlocks, s, b, run.rcs[n - 1], s', r);
        PayloadWritten(c, maxBlocks, b, r, x);
      }
    }
  }

  /** The file's payloads are in flash. */
  ghost predicate Holds(c: Cfg, maxBlocks: U32, s: State, file: seq<Block>, r: nat)
    requires ValidCfg(c) && IsFile(c, maxBlocks, file, r) && Inv(c, maxBlocks, s)
  {
    forall i :: 0 <= i < |file| ==> s.flash[r][Offset(c, maxBlocks, file[i])..Offset(c, maxBlocks, file[i]) + file[i].payloadSize] == file[i].Payload()
  }

  /** Some call among the first `n` was given this block and returned 0. */
  ghost predicate Answered(run: Run, n: nat, b: Block)
    requires n <= |run.blocks| == |run.rcs|
  {
    exists k :: 0 <= k < n && run.blocks[k] == b && run.rcs[k] == 0
  }

  /** End to end, for any file, order, repetition, turned-away traffic and callback failures: the receiver is complete
      exactly when each block of the file was once answered with 0, and then the flash holds the file. */
  lemma FileArrives(c: Cfg, maxBlocks: U32, flash: seq<seq<Byte>>, run: Run, n: nat, file: seq<Block>, r: nat)
    requires ValidCfg(c) && IsRun(c, maxBlocks, flash, run) && n < |run.states|
    requires IsFile(c, maxBlocks, file, r) && OnlyFile(c, maxBlocks, file, run, n)
    ensures Inv(c, maxBlocks, run.states[n])
    ensures run.states[n].Complete() <==> forall i :: 0 <= i < |file| ==> Answered(run, n, file[i])
    ensures run.states[n].Complete() ==> Holds(c, maxBlocks, run.states[n], file, r)
  {
    hide Screen, Next, WritesAt, Offset, KeepsClear;
    RunInv(c, maxBlocks, flash, run, n);
    var s := run.states[n];
    forall i | 0 <= i < |file|
      ensures i in s.received <==> Answered(run, n, file[i])
    {
      ReceivedIffAnswered(c, maxBlocks, flash, run, n, file, r, i);
    }
    CountOfFile(c, maxBlocks, flash, run, n, file, r);
    if forall i :: 0 <= i < |file| ==> Answered(run, n, file[i]) {
      assert 0 in s.received;
      assert forall k: nat :: k < |file| ==> k in s.received;
    }
    if s.Complete() {
      forall i | 0 <= i < |file|
        ensures s.flash[r][Offset(c, maxBlocks, file[i])..Offset(c, maxBlocks, file[i]) + file[i].payloadSize] == file[i].Payload()
      {
        var off := Offset(c, maxBlocks, file[i]);
        forall x | off <= x < off + file[i].payloadSize
          ensures s.flash[r][x] == file[i].data[x - off]
        {
          ByteStays(c, maxBlocks, flash, run, n, file, r, i, x);
        }
      }
    }
  }

  lemma {:induction false} ReceivedIffAnswered(c: Cfg, maxBlocks: U32, flash: seq<seq<Byte>>, run: Run, n: nat, file: seq<Block>, r: nat, i: nat)
    requires ValidCfg(c) && IsRun(c, maxBlocks, flash, run) && n < |run.states|
    requires IsFile(c, maxBlocks, file, r) && OnlyFile(c, maxBlocks, file, run, n) && i < |file|
    ensures i in run.states[n].received <==> Answered(run, n, file[i])
  {
    hide Screen, Next, Offset, KeepsClear;
    if n > 0 {
      ReceivedIffAnswered(c, maxBlocks, flash, run, n - 1, file, r, i);
      RunInv(c, maxBlocks, flash, run, n - 1);
      var b := run.blocks[n - 1];
      StepReceived(c, maxBlocks, run.states[n - 1], b, run.rcs[n - 1], run.states[n]);
      assert Answered(run, n, file[i]) <==> Answered(run, n - 1, file[i]) || (b == file[i] && run.rcs[n - 1] == 0);
    }
  }

  lemma {:induction false} CountOfFile(c: Cfg, maxBlocks: U32, flash: seq<seq<Byte>>, run: Run, n: nat, file: seq<Block>, r: nat)
    requires ValidCfg(c) && IsRun(c, maxBlocks, flash, run) && n < |run.states|
    requires IsFile(c, maxBlocks, file, r) && OnlyFile(c, maxBlocks, file, run, n)
    ensures run.states[n].numBlocks == 0 || run.states[n].numBlocks == |file|
    ensures run.states[n].numBlocks == 0 ==> run.states[n].received == {}
  {
    hide Screen, Next, Offset, KeepsClear;
    RunInv(c, maxBlocks, flash, run, n);
    if n > 0 {
      CountOfFile(c, maxBlocks, flash, run, n - 1, file, r);
      RunInv(c, maxBlocks, flash, run, n - 1);
      StepReceived(c, maxBlocks, run.states[n - 1], run.blocks[n - 1], run.rcs[n - 1], run.states[n]);
    }
  }
}
