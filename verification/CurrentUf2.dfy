/** CURRENT.UF2 fed back to the receiver: the read-back flash is rebuilt. */
module CurrentUf2 {
  import opened Bytes
  import opened Options
  import opened Uf2Format
  import opened Uf2Tags
  import opened Uf2Routing
  import opened Uf2Receiver
  import opened Uf2Runs
  import opened Uf2Convert
  import opened GhostFat

  /** The receiver is the same bootloader, and its region `r`, reachable by address, spans the read-back range. */
  ghost predicate SameBoard(c: Cfg, maxBlocks: U32, v: Volume, r: nat) {
    && v.Valid() && v.readback != []
    && r < |c.regions| <= MAX_REGIONS && c.regions[r].addressRouted && RoutedDisjoint(c.regions)
    && c.regions[r].base <= v.readbackBase && v.readbackBase + |v.readback| <= c.regions[r].base + c.regions[r].size
    && c.familyId == v.familyId && c.boardId == v.boardId
    && v.NumBlocks() <= maxBlocks
  }

  function BoardSpec(v: Volume): (s: Spec) {
    Spec(TAG_BOARD_ID, v.boardId)
  }

  /** The emitter's record and the zeros after it are what the host tool would pack: one tag and a terminator. */
  lemma TagIsPacked(v: Volume, i: nat)
    requires v.Valid() && i < v.NumBlocks() && v.boardId != [] && v.TagFits(i)
    ensures
      var len, specs := v.PayloadLen(i), [BoardSpec(v)];
      && Packable(BoardSpec(v)) && len + |Records(specs)| + 4 <= DATA_SIZE
      && v.DataAt(i)[len..len + |Records(specs)| + 4] == Records(specs) + TERMINATOR
  {
    var len, rec := v.PayloadLen(i), PackTag(BoardSpec(v)).value;
    assert Records([BoardSpec(v)]) == rec + Records([]) == rec;
    var d, t := v.DataAt(i), v.TagBytes(i);
    assert rec == t + Fill(RoundUp(|t|, 4) - |t|, 0);
    assert forall k :: 0 <= k < |rec| + 4 ==> d[len + k] == (rec + TERMINATOR)[k];
  }

  /** What the scanner finds in block `i`. Without room for record and terminator there is no tag at all. */
  lemma CurrentTags(v: Volume, i: nat, kind: U24)
    requires v.Valid() && i < v.NumBlocks()
    ensures FindTag(v.BlockAt(i), kind) ==
            if v.boardId != [] && v.TagFits(i) && kind == TAG_BOARD_ID then Found(v.boardId) else Absent
  {
    var b := v.BlockAt(i);
    if v.boardId != [] && v.TagFits(i) {
      TagIsPacked(v, i);
      TagRoundTrip(b, [BoardSpec(v)], kind);
      assert TagsOf([BoardSpec(v)]) == [Tag(TAG_BOARD_ID, v.boardId)] + TagsOf([]);
    } else if v.boardId != [] {
      assert b.data[b.payloadSize] == 0;
    }
  }

  /** The receiver wants block `i` exactly when no board id is configured or the board-id record fitted. */
  lemma CurrentScreened(c: Cfg, maxBlocks: U32, v: Volume, r: nat, i: nat)
    requires ValidCfg(c) && SameBoard(c, maxBlocks, v, r) && i < v.NumBlocks()
    ensures Screen(c, maxBlocks, v.BlockAt(i)).Target? <==> v.boardId == [] || v.TagFits(i)
    ensures v.boardId == [] || v.TagFits(i) ==>
              Screen(c, maxBlocks, v.BlockAt(i)) == Target(r, v.readbackBase + PAYLOAD_SIZE * i - c.regions[r].base)
  {
    hide FindTag, ValidRegion, RouteOf, RegionAt, ValidCfg, RoutedDisjoint;
    CurrentTags(v, i, TAG_BOARD_ID);
    CurrentRoute(c, maxBlocks, v, r, i);
    assert v.familyId != 0 ==> v.BlockAt(i).HasFamily();
  }

  /** The block carries no partition tag, so its address decides. */
  lemma CurrentRoute(c: Cfg, maxBlocks: U32, v: Volume, r: nat, i: nat)
    requires ValidCfg(c) && SameBoard(c, maxBlocks, v, r) && i < v.NumBlocks()
    ensures RouteOf(c.regions, v.BlockAt(i)) == Some(r)
  {
    hide FindTag, ValidRegion, RegionAt;
    CurrentTags(v, i, TAG_PARTITION);
    OnlyRegionAt(c.regions, v.BlockAt(i).targetAddr, r);
  }

  /** The record fits every block exactly when it fits the first, which no later one outgrows. */
  lemma FitsAllIffFirst(v: Volume)
    requires v.Valid() && v.readback != []
    ensures (forall i :: 0 <= i < v.NumBlocks() ==> v.TagFits(i)) <==> v.TagFits(0)
    ensures |v.readback| >= PAYLOAD_SIZE ==> (v.TagFits(0) <==> |v.boardId| <= 212)
  {
  }

  lemma CurrentIsFile(c: Cfg, maxBlocks: U32, v: Volume, r: nat)
    requires ValidCfg(c) && SameBoard(c, maxBlocks, v, r) && (v.boardId == [] || v.TagFits(0))
    ensures IsFile(c, maxBlocks, v.Blocks(), r)
  {
    hide Screen, Written, Volume.DataAt;
    var file := v.Blocks();
    FitsAllIffFirst(v);
    forall i | 0 <= i < |file|
      ensures Screen(c, maxBlocks, file[i]) == Target(r, v.readbackBase + PAYLOAD_SIZE * i - c.regions[r].base)
    {
      CurrentScreened(c, maxBlocks, v, r, i);
    }
  }

  /** Round trip: with a board id short enough for the guard (or none), the receiver is complete exactly when each block
      of CURRENT.UF2 was once answered with 0, and then the range holds the bytes that were read back. */
  lemma CurrentUf2RoundTrip(c: Cfg, maxBlocks: U32, flash: seq<seq<Byte>>, run: Run, n: nat, v: Volume, r: nat)
    requires ValidCfg(c) && IsRun(c, maxBlocks, flash, run) && n < |run.states|
    requires SameBoard(c, maxBlocks, v, r) && (v.boardId == [] || v.TagFits(0))
    requires OnlyFile(c, maxBlocks, v.Blocks(), run, n)
    ensures Inv(c, maxBlocks, run.states[n])
    ensures run.states[n].Complete() <==> forall i :: 0 <= i < v.NumBlocks() ==> Answered(run, n, v.BlockAt(i))
    ensures
      var start := v.readbackBase - c.regions[r].base;
      run.states[n].Complete() ==> run.states[n].flash[r][start..start + |v.readback|] == v.readback
  {
    hide Screen, Next, IsRun, IsFile, KeepsClear, WritesAt, Volume.BlockAt, RoutedDisjoint;
    CurrentIsFile(c, maxBlocks, v, r);
    FileArrives(c, maxBlocks, flash, run, n, v.Blocks(), r);
    assert forall i :: 0 <= i < v.NumBlocks() ==> v.Blocks()[i] == v.BlockAt(i);
    if run.states[n].Complete() {
      var start := v.readbackBase - c.regions[r].base;
      var range := run.states[n].flash[r][start..start + |v.readback|];
      forall x | 0 <= x < |range|
        ensures range[x] == v.readback[x]
      {
        ReadbackByte(c, maxBlocks, run.states[n], v, r, x);
      }
    }
  }

  lemma ReadbackByte(c: Cfg, maxBlocks: U32, s: State, v: Volume, r: nat, x: nat)
    requires ValidCfg(c) && SameBoard(c, maxBlocks, v, r) && (v.boardId == [] || v.TagFits(0))
    requires Inv(c, maxBlocks, s) && IsFile(c, maxBlocks, v.Blocks(), r) && Holds(c, maxBlocks, s, v.Blocks(), r)
    requires x < |v.readback|
    ensures s.flash[r][v.readbackBase - c.regions[r].base + x] == v.readback[x]
  {
    hide Screen, IsFile, RoutedDisjoint, Volume.BlockAt, Volume.TagBytes, Volume.TagFits, Offset;
    var i := x / PAYLOAD_SIZE;
    CurrentOffset(c, maxBlocks, v, r, i);
    BlockPayload(v, i);
    var b := v.Blocks()[i];
    var off := v.readbackBase - c.regions[r].base + PAYLOAD_SIZE * i;
    assert s.flash[r][off..off + b.payloadSize] == b.Payload() == v.PayloadAt(i);
    assert s.flash[r][off..off + b.payloadSize][x - PAYLOAD_SIZE * i] == v.PayloadAt(i)[x - PAYLOAD_SIZE * i];
  }

  lemma CurrentOffset(c: Cfg, maxBlocks: U32, v: Volume, r: nat, i: nat)
    requires ValidCfg(c) && SameBoard(c, maxBlocks, v, r) && (v.boardId == [] || v.TagFits(0)) && i < v.NumBlocks()
    ensures Offset(c, maxBlocks, v.Blocks()[i]) == v.readbackBase - c.regions[r].base + PAYLOAD_SIZE * i
  {
    hide Screen, RoutedDisjoint, Volume.BlockAt, Volume.TagBytes, Volume.TagFits;
    FitsAllIffFirst(v);
    CurrentScreened(c, maxBlocks, v, r, i);
  }

  lemma BlockPayload(v: Volume, i: nat)
    requires v.Valid() && i < v.NumBlocks()
    ensures
      var b := v.Blocks()[i];
      b.payloadSize == v.PayloadLen(i) && b.data == v.DataAt(i) && b.Payload() == v.PayloadAt(i)
  {
    hide Volume.TagBytes, Volume.Flags;
    assert v.Blocks()[i] == v.BlockAt(i);
  }

  /** The bytes a block's write adds behind its payload. */
  function Behind(c: Cfg, v: Volume, r: nat, i: nat): (d: seq<Byte>)
    requires ValidCfg(c) && v.Valid() && i < v.NumBlocks() && r < |c.regions| && c.regions[r].base <= v.readbackBase
    requires v.readbackBase + |v.readback| <= c.regions[r].base + c.regions[r].size
  {
    Written(c.regions[r], v.BlockAt(i), v.readbackBase + PAYLOAD_SIZE * i - c.regions[r].base)[v.PayloadLen(i)..]
  }

  /** Rounding adds zeros, as its comment says, exactly when there is no tag in the block or nothing is rounded: the length
      is whole write blocks, or rounding would pass the end of the area. */
  lemma RoundedTailZeroIff(c: Cfg, maxBlocks: U32, v: Volume, r: nat, i: nat)
    requires ValidCfg(c) && SameBoard(c, maxBlocks, v, r) && i < v.NumBlocks()
    ensures
      var g, len := c.regions[r], v.PayloadLen(i);
      var off := v.readbackBase + PAYLOAD_SIZE * i - g.base;
      (forall k :: 0 <= k < |Behind(c, v, r, i)| ==> Behind(c, v, r, i)[k] == 0) <==>
      v.boardId == [] || !v.TagFits(i) || len % g.writeBlock == 0 || off + RoundUp(len, g.writeBlock) > g.size
  {
    hide Screen, RoutedDisjoint, Volume.TagBytes, Volume.TagFits, Behind, RoundUp;
    var d := Behind(c, v, r, i);
    BehindLength(c, v, r, i);
    TagFirst(v, i);
    forall k | 0 <= k < |d|
      ensures d[k] == if k < |v.TagBytes(i)| then v.TagBytes(i)[k] else 0
    {
      BehindByte(c, v, r, i, k);
    }
  }

  lemma BehindLength(c: Cfg, v: Volume, r: nat, i: nat)
    requires ValidCfg(c) && v.Valid() && i < v.NumBlocks() && r < |c.regions| && c.regions[r].base <= v.readbackBase
    requires v.readbackBase + |v.readback| <= c.regions[r].base + c.regions[r].size
    ensures
      var g, len := c.regions[r], v.PayloadLen(i);
      var off := v.readbackBase + PAYLOAD_SIZE * i - g.base;
      Behind(c, v, r, i) == [] <==> len % g.writeBlock == 0 || off + RoundUp(len, g.writeBlock) > g.size
  {
    hide RoundUp, Volume.BlockAt, Volume.TagBytes;
    NoRounding(v.PayloadLen(i), c.regions[r].writeBlock);
    BlockPayload(v, i);
  }

  lemma DataBehind(v: Volume, i: nat, k: nat)
    requires v.Valid() && i < v.NumBlocks() && v.PayloadLen(i) + k < DATA_SIZE
    ensures v.DataAt(i)[v.PayloadLen(i) + k] == if k < |v.TagBytes(i)| then v.TagBytes(i)[k] else 0
  {
    hide Volume.TagBytes, Volume.PayloadAt;
  }

  lemma WrittenIsData(g: Region, b: Block, off: nat)
    requires g.writeBlock > 0 && PAYLOAD_SIZE % g.writeBlock == 0 && b.payloadSize <= PAYLOAD_SIZE && off + b.payloadSize <= g.size
    ensures |Written(g, b, off)| <= DATA_SIZE && forall k :: 0 <= k < |Written(g, b, off)| ==> Written(g, b, off)[k] == b.data[k]
  {
  }

  lemma BehindByte(c: Cfg, v: Volume, r: nat, i: nat, k: nat)
    requires ValidCfg(c) && v.Valid() && i < v.NumBlocks() && r < |c.regions| && c.regions[r].base <= v.readbackBase
    requires v.readbackBase + |v.readback| <= c.regions[r].base + c.regions[r].size && k < |Behind(c, v, r, i)|
    ensures Behind(c, v, r, i)[k] == if k < |v.TagBytes(i)| then v.TagBytes(i)[k] else 0
  {
    hide RoundUp, Volume.BlockAt, Volume.TagBytes, Volume.PayloadAt, Volume.DataAt, Written, WriteLen, Volume.PayloadLen;
    BlockPayload(v, i);
    WrittenIsData(c.regions[r], v.BlockAt(i), v.readbackBase + PAYLOAD_SIZE * i - c.regions[r].base);
    DataBehind(v, i, k);
  }

  lemma NoRounding(len: nat, unit: nat)
    requires unit > 0
    ensures RoundUp(len, unit) == len <==> len % unit == 0
  {
    if len % unit == 0 {
      RoundUpLeast(len, unit, len);
    }
  }

  lemma TagFirst(v: Volume, i: nat)
    requires v.Valid() && i < v.NumBlocks()
    ensures v.boardId == [] || !v.TagFits(i) ==> v.TagBytes(i) == []
    ensures v.boardId != [] && v.TagFits(i) ==> v.TagBytes(i) != [] && v.TagBytes(i)[0] == 4 + |v.boardId|
  {
  }

  /** A short last block rounded up to the write block does not add zeros: the byte after the payload is the size byte
      of the board-id record, and that is what reaches the flash behind the read-back range. */
  lemma RoundedTailIsTag(c: Cfg, maxBlocks: U32, v: Volume, r: nat)
    requires ValidCfg(c) && SameBoard(c, maxBlocks, v, r) && v.boardId != [] && v.TagFits(0)
    requires
      var last, g := v.NumBlocks() - 1, c.regions[r];
      var off := v.readbackBase + PAYLOAD_SIZE * last - g.base;
      v.PayloadLen(last) % g.writeBlock != 0 && off + RoundUp(v.PayloadLen(last), g.writeBlock) <= g.size
    ensures WritesAt(c, maxBlocks, v.BlockAt(v.NumBlocks() - 1), r, v.readbackBase + |v.readback| - c.regions[r].base) == Some(4 + |v.boardId|)
  {
    hide Screen, RoutedDisjoint, Volume.TagBytes, Volume.TagFits, Volume.BlockAt, Written, RoundUp;
    var last := v.NumBlocks() - 1;
    FitsAllIffFirst(v);
    CurrentScreened(c, maxBlocks, v, r, last);
    BlockPayload(v, last);
    BehindLength(c, v, r, last);
    BehindByte(c, v, r, last, 0);
    TagFirst(v, last);
  }
}
