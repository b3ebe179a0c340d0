/** The UF2 update receiver: `uf2_state`, the progressive erase and `uf2_process_block`. */
module Uf2Receiver {
  import opened Bytes
  import opened Options
  import opened Uf2Format
  import opened Uf2Tags
  import opened Uf2Routing
  import opened Uf2Bitmap

  const ERASED: Byte := 0xFF

  // ----- flash contents -----

  function EraseRange(a: seq<Byte>, lo: nat, hi: nat): (r: seq<Byte>)
    requires lo <= hi <= |a|
    ensures |r| == |a|
    ensures forall x :: 0 <= x < |a| ==> r[x] == if lo <= x < hi then ERASED else a[x]
  {
    a[..lo] + Fill(hi - lo, ERASED) + a[hi..]
  }

  function Overwrite(a: seq<Byte>, off: nat, d: seq<Byte>): (r: seq<Byte>)
    requires off + |d| <= |a|
    ensures |r| == |a|
    ensures forall x :: 0 <= x < |a| ==> r[x] == if off <= x < off + |d| then d[x - off] else a[x]
  {
    a[..off] + d + a[off + |d|..]
  }

  /** `uf2_flash_write` rounds the length up to the write block unless that would pass the end of the area. */
  function WriteLen(g: Region, offset: nat, len: nat): (n: nat)
    requires g.writeBlock > 0
    requires offset + len <= g.size
    ensures len <= n && offset + n <= g.size
  {
    if g.writeBlock > 1 && offset + RoundUp(len, g.writeBlock) <= g.size then RoundUp(len, g.writeBlock) else len
  }

  /** The end of the erased area that a write ending at `end` asks for: past the sector that contains `end`, within the region. */
  function EraseGoal(size: nat, eraseSize: nat, end: nat): (goal: nat)
    requires eraseSize > 0
    ensures goal <= size
  {
    if (end / eraseSize + 1) * eraseSize > size then size else (end / eraseSize + 1) * eraseSize
  }

  /** A sector boundary, or the end of the region. */
  predicate OnSector(size: nat, eraseSize: nat, f: nat)
    requires eraseSize > 0
  {
    f <= size && (f == size || f % eraseSize == 0)
  }

  /** From a boundary short of another one, a whole sector fits in between. */
  lemma SectorFits(f: nat, goal: nat, eraseSize: nat)
    requires eraseSize > 0 && f % eraseSize == 0 && goal % eraseSize == 0 && f < goal
    ensures f + eraseSize <= goal
    ensures (f + eraseSize) % eraseSize == 0
  {
    AddUnitMod(f, eraseSize);
    var p, q := f / eraseSize, goal / eraseSize;
    assert f == p * eraseSize && goal == q * eraseSize;
    Scaled(p, q, eraseSize);
    Scaled(q, p, eraseSize);
  }

  lemma GoalOnSector(size: nat, eraseSize: nat, end: nat)
    requires eraseSize > 0 && end <= size
    ensures OnSector(size, eraseSize, EraseGoal(size, eraseSize, end))
    ensures end <= EraseGoal(size, eraseSize, end)
    ensures (end / eraseSize + 1) * eraseSize <= end + eraseSize
  {
    MultipleMod(end / eraseSize + 1, eraseSize);
    assert end == end / eraseSize * eraseSize + end % eraseSize;
    assert (end / eraseSize + 1) * eraseSize == end / eraseSize * eraseSize + eraseSize;
  }

  // ----- one step, on values -----

  /** What matters of the receiver: how many blocks the file has, which are in, how far each region is erased, the flash, and
      how many payload bytes each region got, in 32 bits. */
  datatype State = State(numBlocks: U32, received: set<nat>, frontier: seq<nat>, flash: seq<seq<Byte>>, written: seq<U32>) {
    ghost predicate Complete() {
      numBlocks > 0 && forall n: nat :: n < numBlocks ==> n in received
    }
  }

  ghost predicate Inv(c: Cfg, maxBlocks: U32, s: State)
    requires c.eraseSize > 0
  {
    && |s.frontier| == MAX_REGIONS
    && |s.flash| == |s.written| == |c.regions|
    && (forall r :: 0 <= r < |c.regions| ==> |s.flash[r]| == c.regions[r].size)
    && (forall r :: 0 <= r < |c.regions| && r < MAX_REGIONS ==> OnSector(c.regions[r].size, c.eraseSize, s.frontier[r]))
    && s.numBlocks <= maxBlocks
    && (forall n :: n in s.received ==> n < s.numBlocks)
  }

  predicate FlashFits(c: Cfg, flash: seq<seq<Byte>>) {
    |flash| == |c.regions| && forall r :: 0 <= r < |flash| ==> |flash[r]| == c.regions[r].size
  }

  /** The state `uf2_init` leaves: everything zero. */
  function Start(flash: seq<seq<Byte>>): (s: State)
  {
    State(0, {}, [0, 0, 0, 0], flash, seq(|flash|, i => 0))
  }

  lemma StartInv(c: Cfg, maxBlocks: U32, flash: seq<seq<Byte>>)
    requires ValidCfg(c) && FlashFits(c, flash)
    ensures Inv(c, maxBlocks, Start(flash))
  {
    assert 0 % c.eraseSize == 0;
  }

  /** The region erased on to `f`. */
  function ErasedTo(c: Cfg, s: State, r: nat, f: nat): (s': State)
    requires r < |s.frontier| && r < |s.flash| && s.frontier[r] <= f <= |s.flash[r]|
  {
    s.(frontier := s.frontier[r := f], flash := s.flash[r := EraseRange(s.flash[r], s.frontier[r], f)])
  }

  function Max(a: nat, b: nat): (m: nat)
    ensures m >= a && m >= b && (m == a || m == b)
  {
    if a < b then b else a
  }

  /** How far region `r` has to be erased before this block goes in. */
  function Goal(c: Cfg, s: State, b: Block, r: nat, off: nat): (g: nat)
    requires r < |c.regions| && r < |s.frontier| && c.eraseSize > 0
  {
    Max(s.frontier[r], EraseGoal(c.regions[r].size, c.eraseSize, off + b.payloadSize))
  }

  /** The bytes that reach the flash for this block. */
  function Written(g: Region, b: Block, off: nat): (d: seq<Byte>)
    requires g.writeBlock > 0 && PAYLOAD_SIZE % g.writeBlock == 0
    requires b.payloadSize <= PAYLOAD_SIZE && off + b.payloadSize <= g.size
    ensures |d| == WriteLen(g, off, b.payloadSize)
  {
    RoundUpLeast(b.payloadSize, g.writeBlock, PAYLOAD_SIZE);
    b.data[..WriteLen(g, off, b.payloadSize)]
  }

  /** The driver takes whole write blocks only. */
  predicate Aligned(g: Region, off: nat, len: nat) {
    g.writeBlock > 0 && off % g.writeBlock == 0 && len % g.writeBlock == 0
  }

  /** The state after the block is in. */
  function Programmed(c: Cfg, s: State, b: Block, r: nat, off: nat): (s': State)
    requires ValidCfg(c) && r < |c.regions| && r < |s.frontier| && r < |s.flash| == |s.written|
    requires s.frontier[r] <= c.regions[r].size == |s.flash[r]|
    requires b.payloadSize <= PAYLOAD_SIZE && off + b.payloadSize <= c.regions[r].size
  {
    var e := ErasedTo(c, s, r, Goal(c, s, b, r, off));
    e.(received := s.received + {b.blockNo}, flash := e.flash[r := Overwrite(e.flash[r], off, Written(c.regions[r], b, off))],
       written := s.written[r := Add32(s.written[r], b.payloadSize)])
  }

  /** Erase, then write. The callbacks may fail at any point: a failed call has erased on to some sector boundary
      up to the goal and written nothing. */
  ghost predicate Stored(c: Cfg, s: State, b: Block, r: nat, off: nat, rc: int, s': State)
    requires ValidCfg(c) && r < |c.regions| && r < |s.frontier| && r < |s.flash| == |s.written|
    requires s.frontier[r] <= c.regions[r].size == |s.flash[r]|
    requires b.payloadSize <= PAYLOAD_SIZE && off + b.payloadSize <= c.regions[r].size
  {
    if rc == 0 then
      Aligned(c.regions[r], off, |Written(c.regions[r], b, off)|) && s' == Programmed(c, s, b, r, off)
    else
      exists f :: s.frontier[r] <= f <= Goal(c, s, b, r, off) && OnSector(c.regions[r].size, c.eraseSize, f) && s' == ErasedTo(c, s, r, f)
  }

  /** One call of `uf2_process_block` that returned `rc`. */
  ghost predicate Next(c: Cfg, maxBlocks: U32, s: State, b: Block, rc: int, s': State)
    requires ValidCfg(c) && Inv(c, maxBlocks, s)
  {
    match Screen(c, maxBlocks, b)
    case Ignore => rc == 0 && s' == s
    case Reject => rc == -1 && s' == s
    case Target(r, off) =>
      var s0 := s.(numBlocks := b.numBlocks);
      if s.numBlocks != 0 && s.numBlocks != b.numBlocks then rc == -1 && s' == s
      else if b.blockNo in s.received then rc == 0 && s' == s0
      else Stored(c, s0, b, r, off, rc, s')
  }

  lemma NextKeepsInv(c: Cfg, maxBlocks: U32, s: State, b: Block, rc: int, s': State)
    requires ValidCfg(c) && Inv(c, maxBlocks, s) && Next(c, maxBlocks, s, b, rc, s')
    ensures Inv(c, maxBlocks, s')
  {
    hide Screen, Written;
    var v := Screen(c, maxBlocks, b);
    if v.Target? {
      GoalOnSector(c.regions[v.region].size, c.eraseSize, v.offset + b.payloadSize);
    }
  }

  /** Erasing in two stretches is erasing once. */
  lemma EraseExtends(a: seq<Byte>, lo: nat, mid: nat, hi: nat)
    requires lo <= mid <= hi <= |a|
    ensures EraseRange(EraseRange(a, lo, mid), mid, hi) == EraseRange(a, lo, hi)
  {
  }

  /** A set of numbers below `n` has at most `n` members, and exactly `n` when it has them all. */
  lemma {:induction false} FullWhenCounted(s: set<nat>, n: nat)
    requires forall k :: k in s ==> k < n
    ensures |s| <= n
    ensures |s| == n <==> forall k: nat :: k < n ==> k in s
  {
    if n == 0 {
      assert s == {};
    } else if n - 1 in s {
      FullWhenCounted(s - {n - 1}, n - 1);
      assert forall k :: k in s - {n - 1} <==> k in s && k != n - 1;
    } else {
      FullWhenCounted(s, n - 1);
    }
  }

  // ----- the receiver -----

  class Receiver {
    const cfg: Cfg
    const maxBlocks: U32
    var numBlocks: U32
    var blocksReceived: nat
    var complete: bool
    var frontier: seq<U32>
    const blockMap: array<bv8>
    var flash: seq<seq<Byte>>
    var bytesWritten: seq<U32>

    ghost function View(): (s: State)
      reads this, blockMap
    {
      State(numBlocks, Members(blockMap[..]), frontier, flash, bytesWritten)
    }

    ghost predicate Valid()
      reads this, blockMap
    {
      && ValidCfg(cfg)
      && |frontier| == MAX_REGIONS
      && blockMap.Length == (maxBlocks + 7) / 8
      && Inv(cfg, maxBlocks, View())
      && blocksReceived == |Members(blockMap[..])|
      && (complete <==> View().Complete())
    }

    /** `uf2_init`: everything zero. */
    constructor (cfg: Cfg, maxBlocks: U32, flash: seq<seq<Byte>>)
      requires ValidCfg(cfg) && FlashFits(cfg, flash)
      ensures Valid() && fresh(blockMap)
      ensures this.cfg == cfg && this.maxBlocks == maxBlocks
      ensures View() == Start(flash)
    {
      hide Members, Inv, ValidCfg, FlashFits;
      this.cfg, this.maxBlocks, this.flash := cfg, maxBlocks, flash;
      numBlocks, blocksReceived, complete := 0, 0, false;
      frontier := [0, 0, 0, 0];
      bytesWritten := seq(|flash|, i => 0);
      blockMap := new bv8[(maxBlocks + 7) / 8](i => 0);
      new;
      assert forall i :: 0 <= i < |blockMap[..]| ==> blockMap[..][i] == 0;
      ZeroMarksNothing(blockMap[..]);
      StartInv(cfg, maxBlocks, flash);
    }

    /** The erase callback: fails without effect, or erases. */
    method FlashErase(r: nat, off: nat, len: nat) returns (rc: int)
      requires r < |flash| && off + len <= |flash[r]|
      modifies this`flash
      ensures rc != 0 ==> flash == old(flash)
      ensures rc == 0 ==> flash == old(flash)[r := EraseRange(old(flash)[r], off, off + len)]
    {
      rc := *;
      if rc == 0 {
        flash := flash[r := EraseRange(flash[r], off, off + len)];
      }
    }

    /** The write callback, `uf2_flash_write`: fails without effect, or programs the rounded-up length. */
    method FlashWrite(r: nat, off: nat, b: Block) returns (rc: int)
      requires Valid()
      requires r < |cfg.regions| && b.payloadSize <= PAYLOAD_SIZE && off + b.payloadSize <= cfg.regions[r].size
      modifies this`flash, this`bytesWritten
      ensures Valid()
      ensures rc != 0 ==> View() == old(View())
      ensures rc == 0 ==> Aligned(cfg.regions[r], off, |Written(cfg.regions[r], b, off)|)
      ensures rc == 0 ==> View() == old(View()).(flash := old(flash)[r := Overwrite(old(flash)[r], off, Written(cfg.regions[r], b, off))],
                                                 written := old(bytesWritten)[r := Add32(old(bytesWritten)[r], b.payloadSize)])
    {
      var d := Written(cfg.regions[r], b, off);
      rc := *;
      if !Aligned(cfg.regions[r], off, |d|) && rc == 0 {
        rc := -EINVAL;
      }
      if rc == 0 {
        flash := flash[r := Overwrite(flash[r], off, d)];
        bytesWritten := bytesWritten[r := Add32(bytesWritten[r], b.payloadSize)];
      }
    }

    /** `erase_up_to`: sector by sector from the frontier, stopping at the first callback that fails. */
    method EraseUpTo(r: nat, end: nat) returns (rc: int)
      requires Valid() && r < |cfg.regions| <= MAX_REGIONS
      requires end <= cfg.regions[r].size
      modifies this`flash, this`frontier
      ensures |frontier| == MAX_REGIONS && old(frontier[r]) <= frontier[r] <= Max(old(frontier[r]), EraseGoal(cfg.regions[r].size, cfg.eraseSize, end))
      ensures OnSector(cfg.regions[r].size, cfg.eraseSize, frontier[r])
      ensures rc == 0 ==> frontier[r] == Max(old(frontier[r]), EraseGoal(cfg.regions[r].size, cfg.eraseSize, end))
      ensures frontier == old(frontier)[r := frontier[r]]
      ensures flash == old(flash)[r := EraseRange(old(flash)[r], old(frontier[r]), frontier[r])]
    {
      var size, es := cfg.regions[r].size, cfg.eraseSize;
      GoalOnSector(size, es, end);
      var eraseEnd: U32 := (end / es + 1) * es;
      if eraseEnd > size {
        eraseEnd := size;
      }
      assert EraseRange(flash[r], frontier[r], frontier[r]) == flash[r];
      assert flash == flash[r := EraseRange(flash[r], frontier[r], frontier[r])];
      while frontier[r] < eraseEnd
        invariant |frontier| == MAX_REGIONS
        invariant old(frontier[r]) <= frontier[r] <= size
        invariant frontier[r] <= Max(old(frontier[r]), eraseEnd)
        invariant OnSector(size, es, frontier[r])
        invariant frontier == old(frontier)[r := frontier[r]]
        invariant flash == old(flash)[r := EraseRange(old(flash)[r], old(frontier[r]), frontier[r])]
        decreases eraseEnd - frontier[r]
      {
        var len: U32 := es;
        if frontier[r] + len > size {
          len := size - frontier[r];
        }
        AddUnitMod(frontier[r], es);
        if eraseEnd < size {
          SectorFits(frontier[r], eraseEnd, es);
        }
        rc := FlashErase(r, frontier[r], len);
        if rc != 0 {
          return;
        }
        EraseExtends(old(flash)[r], old(frontier[r]), frontier[r], frontier[r] + len);
        frontier := frontier[r := frontier[r] + len];
      }
      return 0;
    }

    /** `uf2_process_block`. */
    method ProcessBlock(b: Block) returns (rc: int)
      requires Valid()
      modifies this, blockMap
      ensures Valid()
      ensures Next(cfg, maxBlocks, old(View()), b, rc, View())
    {
      hide FindTag;
      if b.magicStart0 != MAGIC_START0 || b.magicStart1 != MAGIC_START1 || b.magicEnd != MAGIC_END {
        return -1;
      }
      if |cfg.regions| > MAX_REGIONS {
        return -1;
      }
      if cfg.familyId != 0 {
        if !b.HasFamily() || b.familyId != cfg.familyId {
          return 0;
        }
      }
      if cfg.boardId != [] {
        var board := FindExtTag(b, TAG_BOARD_ID);
        if !board.Found? || |board.payload| != |cfg.boardId| || board.payload != cfg.boardId {
          return 0;
        }
      }
      if b.numBlocks == 0 || b.blockNo >= b.numBlocks {
        return -1;
      }
      if b.numBlocks > maxBlocks {
        return -1;
      }
      if b.payloadSize > PAYLOAD_SIZE || b.payloadSize == 0 {
        return -1;
      }
      var region := RouteBlock(cfg.regions, b);
      if region.None? {
        return -1;
      }
      var r := region.value;
      var offset: U32 := b.targetAddr - cfg.regions[r].base;
      if Add32(offset, b.payloadSize) > cfg.regions[r].size {
        return -1;
      }
      assert Screen(cfg, maxBlocks, b) == Target(r, offset);
      rc := Accept(b, r, offset);
    }

    /** The second half of `uf2_process_block`, once the block is known to be for region `r`. */
    method Accept(b: Block, r: nat, offset: U32) returns (rc: int)
      requires Valid()
      requires Screen(cfg, maxBlocks, b) == Target(r, offset)
      modifies this, blockMap
      ensures Valid()
      ensures Next(cfg, maxBlocks, old(View()), b, rc, View())
    {
      if numBlocks == 0 {
        numBlocks := b.numBlocks;
      } else if numBlocks != b.numBlocks {
        return -1;
      }
      var byteIdx, bitMask := b.blockNo / 8, Mask(b.blockNo % 8);
      MemberIff(blockMap[..], b.blockNo);
      if blockMap[byteIdx] & bitMask != 0 {
        return 0;
      }
      rc := Store(b, r, offset);
    }

    /** Erase, write, and mark the block as received. */
    method Store(b: Block, r: nat, offset: U32) returns (rc: int)
      requires Valid()
      requires Screen(cfg, maxBlocks, b) == Target(r, offset)
      requires numBlocks == b.numBlocks && b.blockNo !in View().received
      modifies this`flash, this`bytesWritten, this`blocksReceived, this`complete, this`frontier, blockMap
      ensures Valid()
      ensures Stored(cfg, old(View()), b, r, offset, rc, View())
    {
      hide Screen, Members, WriteLen, EraseGoal, RoundUp;
      rc := EraseUpTo(r, offset + b.payloadSize);
      assert View() == ErasedTo(cfg, old(View()), r, frontier[r]);
      if rc != 0 {
        return;
      }
      rc := FlashWrite(r, offset, b);
      if rc != 0 {
        return;
      }
      MarkReceived(b.blockNo);
      assert View() == Programmed(cfg, old(View()), b, r, offset);
    }

    /** Set the block's bit, count it, and notice the last one. */
    method MarkReceived(blockNo: U32)
      requires Valid()
      requires blockNo < numBlocks && blockNo !in View().received
      modifies this`blocksReceived, this`complete, blockMap
      ensures Valid()
      ensures View() == old(View()).(received := old(View()).received + {blockNo})
    {
      SetBit(blockMap, blockNo);
      blocksReceived := blocksReceived + 1;
      FullWhenCounted(Members(blockMap[..]), numBlocks);
      if blocksReceived >= numBlocks {
        complete := true;
      }
    }

    /** `uf2_disk_primary_written`: what decides whether the upgrade is marked pending. */
    method PrimaryWritten() returns (yes: bool)
      requires Valid()
      ensures yes <==> Primary(View())
    {
      yes := |cfg.regions| > 0 && bytesWritten[0] > 0;
    }
  }

  /** Region 0, the application slot, has got bytes. */
  predicate Primary(s: State) {
    |s.written| > 0 && s.written[0] > 0
  }
}
