/** The host tool `uf2conv.py` writing a .uf2 file, and that file arriving at the bootloader. */
module Uf2Convert {
  import opened Bytes
  import opened Options
  import opened Uf2Format
  import opened Uf2Tags
  import opened Uf2Routing
  import opened Uf2Receiver
  import opened Uf2Runs

  /** The tool's globals: base address, family id (0 for none) and extension-tag blob (empty for none). */
  datatype Job = Job(content: seq<Byte>, appStart: nat, familyId: U32, extensions: seq<Byte>) {
    function NumBlocks(): (n: nat) {
      (|content| + 255) / 256
    }

    /** The tags fit after a 256-byte payload, and every block address fits its 32-bit header field. */
    predicate Fits() {
      |extensions| <= DATA_SIZE - PAYLOAD_SIZE && (content == [] || 256 * (NumBlocks() - 1) + appStart < WORD)
    }

    function Flags(): (f: U32) {
      (if familyId != 0 then FLAG_FAMILY_ID else 0) + (if extensions != [] then FLAG_EXTENSION_TAGS else 0)
    }

    /** The content with the last block filled up with zeros. */
    function Padded(): (p: seq<Byte>)
      ensures |p| == 256 * NumBlocks()
    {
      content + Fill(256 * NumBlocks() - |content|, 0)
    }

    /** Block `i` as the bootloader will see it. */
    function BlockAt(i: nat): (b: Block)
      requires Fits() && i < NumBlocks()
    {
      Block(MAGIC_START0, MAGIC_START1, Flags(), 256 * i + appStart, 256, i, NumBlocks(), familyId,
            Padded()[256 * i..256 * i + 256] + extensions + Fill(DATA_SIZE - PAYLOAD_SIZE - |extensions|, 0), MAGIC_END)
    }

    function Blocks(): (f: seq<Block>)
      requires Fits()
      ensures |f| == NumBlocks()
    {
      seq(NumBlocks(), i requires 0 <= i < NumBlocks() => BlockAt(i))
    }
  }

  /** `convert_to_uf2`; `None` is the ValueError for oversized tags or the pack error for an address past 32 bits. */
  method ConvertToUf2(job: Job) returns (r: Option<seq<Byte>>)
    ensures r.Some? <==> job.Fits()
    ensures r.Some? ==> |r.value| == 512 * job.NumBlocks()
    ensures r.Some? ==> forall i :: 0 <= i < job.NumBlocks() ==> Overlay(r.value[512 * i..512 * i + 512]) == job.BlockAt(i)
  {
    hide Overlay, Header, Le32;
    var padding := Fill(512 - 256 - 32 - 4, 0);
    if job.extensions != [] {
      if |job.extensions| > |padding| {
        return None;
      }
      padding := padding[..|padding| - |job.extensions|];
    }
    var numBlocks := (|job.content| + 255) / 256;
    var out: seq<Byte> := [];
    var i := 0;
    while i < numBlocks
      invariant i <= numBlocks && |out| == 512 * i
      invariant i > 0 ==> 256 * (i - 1) + job.appStart < WORD
      invariant job.Fits() ==> forall j :: 0 <= j < i ==> Overlay(out[512 * j..512 * j + 512]) == job.BlockAt(j)
    {
      if 256 * i + job.appStart >= WORD || numBlocks >= WORD {
        return None;
      }
      var block := EncodeBlock(job, i, padding);
      SlicesAfterAppend(out, block, i);
      out := out + block;
      i := i + 1;
    }
    return Some(out);
  }

  /** The loop body: header, padded chunk, tags, fill and end magic. */
  method EncodeBlock(job: Job, i: nat, padding: seq<Byte>) returns (block: Sector)
    requires i < job.NumBlocks() < WORD && 256 * i + job.appStart < WORD
    requires |job.extensions| <= DATA_SIZE - PAYLOAD_SIZE && padding == Fill(DATA_SIZE - PAYLOAD_SIZE - |job.extensions|, 0)
    ensures job.Fits() ==> Overlay(block) == job.BlockAt(i)
  {
    hide Overlay, Header, Le32;
    var ptr := 256 * i;
    var end := if ptr + 256 <= |job.content| then ptr + 256 else |job.content|;
    var chunk := job.content[ptr..end];
    var flags: U32 := 0;
    if job.familyId != 0 {
      flags := flags + FLAG_FAMILY_ID;
    }
    if job.extensions != [] {
      flags := flags + FLAG_EXTENSION_TAGS;
    }
    chunk := chunk + Fill(256 - |chunk|, 0);
    block := Header(flags, ptr + job.appStart, 256, i, job.NumBlocks(), job.familyId) + chunk + job.extensions + padding + Le32(MAGIC_END);
    if job.Fits() {
      BlockBytes(job, i, block, chunk, padding, flags);
    }
  }

  lemma SlicesAfterAppend(out: seq<Byte>, block: Sector, i: nat)
    requires |out| == 512 * i
    ensures (out + block)[512 * i..512 * i + 512] == block
    ensures forall j :: 0 <= j < i ==> (out + block)[512 * j..512 * j + 512] == out[512 * j..512 * j + 512]
  {
  }

  lemma BlockBytes(job: Job, i: nat, block: Sector, chunk: seq<Byte>, padding: seq<Byte>, flags: U32)
    requires job.Fits() && i < job.NumBlocks() && flags == job.Flags()
    requires |chunk| == 256 && forall k :: 0 <= k < 256 ==> chunk[k] == if 256 * i + k < |job.content| then job.content[256 * i + k] else 0
    requires padding == Fill(DATA_SIZE - PAYLOAD_SIZE - |job.extensions|, 0)
    requires block == Header(flags, 256 * i + job.appStart, 256, i, job.NumBlocks(), job.familyId) + chunk + job.extensions + padding + Le32(MAGIC_END)
    ensures Overlay(block) == job.BlockAt(i)
  {
    assert chunk == job.Padded()[256 * i..256 * i + 256];
    var data := chunk + job.extensions + padding;
    var head := Header(flags, 256 * i + job.appStart, 256, i, job.NumBlocks(), job.familyId);
    assert block == head + data + Le32(MAGIC_END);
    OverlayOfLayout(block, flags, 256 * i + job.appStart, 256, i, job.NumBlocks(), job.familyId, data);
  }

  /** The tag list behind the job's blob, if it has one. */
  ghost predicate Tagged(job: Job, specs: seq<Spec>) {
    && (forall s :: s in specs ==> Packable(s))
    && (if job.extensions == [] then specs == [] else job.extensions == Records(specs) + TERMINATOR)
  }

  /** The bootloader is one the job was made for: right family, right board, and region `r` answers to the job's
      partition tag, or to its addresses when it has none. */
  ghost predicate MadeFor(c: Cfg, maxBlocks: U32, job: Job, specs: seq<Spec>, r: nat)
    requires Tagged(job, specs)
  {
    && r < |c.regions| <= MAX_REGIONS
    && job.NumBlocks() <= maxBlocks
    && c.regions[r].base <= job.appStart && job.appStart + 256 * job.NumBlocks() <= c.regions[r].base + c.regions[r].size
    && (c.familyId == 0 || c.familyId == job.familyId)
    && (c.boardId == [] || First(TagsOf(specs), TAG_BOARD_ID) == Some(c.boardId))
    && (match First(TagsOf(specs), TAG_PARTITION)
        case Some(name) => RegionNamed(c.regions, name) == Some(r)
        case None => c.regions[r].addressRouted && RoutedDisjoint(c.regions))
  }

  /** What the bootloader's scanner finds in the tool's blocks. */
  lemma JobTags(job: Job, specs: seq<Spec>, i: nat, kind: U24)
    requires job.Fits() && i < job.NumBlocks() && Tagged(job, specs)
    ensures FindTag(job.BlockAt(i), kind) == (match First(TagsOf(specs), kind) case Some(p) => Found(p) case None => Absent)
  {
    var b := job.BlockAt(i);
    if job.extensions != [] {
      assert b.data[256..256 + |job.extensions|] == job.extensions;
      TagRoundTrip(b, specs, kind);
    }
  }

  lemma JobScreened(c: Cfg, maxBlocks: U32, job: Job, specs: seq<Spec>, r: nat, i: nat)
    requires ValidCfg(c) && job.Fits() && i < job.NumBlocks() && Tagged(job, specs) && MadeFor(c, maxBlocks, job, specs, r)
    ensures Screen(c, maxBlocks, job.BlockAt(i)) == Target(r, 256 * i + job.appStart - c.regions[r].base)
  {
    hide FindTag, TagsOf, First, Records, ValidRegion;
    JobTags(job, specs, i, TAG_BOARD_ID);
    JobTags(job, specs, i, TAG_PARTITION);
    var b := job.BlockAt(i);
    assert job.familyId != 0 ==> b.HasFamily();
    if First(TagsOf(specs), TAG_PARTITION).None? {
      OnlyRegionAt(c.regions, b.targetAddr, r);
    }
  }

  /** A full payload is never rounded up. */
  lemma FullPayloadExact(g: Region, eraseSize: U32, b: Block, off: nat)
    requires 0 < eraseSize && ValidRegion(g, eraseSize) && b.payloadSize == PAYLOAD_SIZE && off + PAYLOAD_SIZE <= g.size
    ensures |Written(g, b, off)| == PAYLOAD_SIZE
  {
    RoundUpLeast(PAYLOAD_SIZE, g.writeBlock, PAYLOAD_SIZE);
  }

  lemma JobIsFile(c: Cfg, maxBlocks: U32, job: Job, specs: seq<Spec>, r: nat)
    requires ValidCfg(c) && job.content != [] && job.Fits() && Tagged(job, specs) && MadeFor(c, maxBlocks, job, specs, r)
    ensures IsFile(c, maxBlocks, job.Blocks(), r)
  {
    hide Screen, Written;
    var file := job.Blocks();
    forall i | 0 <= i < |file|
      ensures Screen(c, maxBlocks, file[i]) == Target(r, 256 * i + job.appStart - c.regions[r].base)
    {
      JobScreened(c, maxBlocks, job, specs, r, i);
    }
  }

  /** A host-made file, delivered in any order with repetitions, turned-away traffic and callback failures, is complete
      exactly when each block was once answered with 0; then the target range is the input, zero-padded. */
  lemma HostFileArrives(c: Cfg, maxBlocks: U32, flash: seq<seq<Byte>>, run: Run, n: nat, job: Job, specs: seq<Spec>, r: nat)
    requires ValidCfg(c) && IsRun(c, maxBlocks, flash, run) && n < |run.states|
    requires job.content != [] && job.Fits() && Tagged(job, specs) && MadeFor(c, maxBlocks, job, specs, r)
    requires OnlyFile(c, maxBlocks, job.Blocks(), run, n)
    ensures Inv(c, maxBlocks, run.states[n])
    ensures run.states[n].Complete() <==> forall i :: 0 <= i < job.NumBlocks() ==> Answered(run, n, job.BlockAt(i))
    ensures
      var start := job.appStart - c.regions[r].base;
      run.states[n].Complete() ==> run.states[n].flash[r][start..start + 256 * job.NumBlocks()] == job.Padded()
  {
    hide Screen, Next, IsRun, Inv, IsFile, MadeFor, KeepsClear, WritesAt;
    JobIsFile(c, maxBlocks, job, specs, r);
    FileArrives(c, maxBlocks, flash, run, n, job.Blocks(), r);
    assert forall i :: 0 <= i < job.NumBlocks() ==> job.Blocks()[i] == job.BlockAt(i);
    if run.states[n].Complete() {
      FlashIsPadded(c, maxBlocks, run.states[n], job, specs, r);
    }
  }

  lemma FlashIsPadded(c: Cfg, maxBlocks: U32, s: State, job: Job, specs: seq<Spec>, r: nat)
    requires ValidCfg(c) && job.content != [] && job.Fits() && Tagged(job, specs) && MadeFor(c, maxBlocks, job, specs, r)
    requires Inv(c, maxBlocks, s) && IsFile(c, maxBlocks, job.Blocks(), r) && Holds(c, maxBlocks, s, job.Blocks(), r)
    ensures
      var start := job.appStart - c.regions[r].base;
      s.flash[r][start..start + 256 * job.NumBlocks()] == job.Padded()
  {
    hide Screen, IsFile, Holds, TagsOf, First, RoutedDisjoint;
    var start := job.appStart - c.regions[r].base;
    var range := s.flash[r][start..start + 256 * job.NumBlocks()];
    forall x | 0 <= x < |range|
      ensures range[x] == job.Padded()[x]
    {
      PaddedByte(c, maxBlocks, s, job, specs, r, x);
    }
  }

  lemma PaddedByte(c: Cfg, maxBlocks: U32, s: State, job: Job, specs: seq<Spec>, r: nat, x: nat)
    requires ValidCfg(c) && job.content != [] && job.Fits() && Tagged(job, specs) && MadeFor(c, maxBlocks, job, specs, r)
    requires Inv(c, maxBlocks, s) && IsFile(c, maxBlocks, job.Blocks(), r) && Holds(c, maxBlocks, s, job.Blocks(), r)
    requires x < 256 * job.NumBlocks()
    ensures s.flash[r][job.appStart - c.regions[r].base + x] == job.Padded()[x]
  {
    hide Screen, IsFile, TagsOf, First, Records, RoutedDisjoint, RegionNamed;
    var i := x / 256;
    JobScreened(c, maxBlocks, job, specs, r, i);
    var b := job.Blocks()[i];
    var off := job.appStart - c.regions[r].base + 256 * i;
    assert b == job.BlockAt(i) && Offset(c, maxBlocks, b) == off;
    assert s.flash[r][off..off + 256] == b.Payload();
    assert s.flash[r][off..off + 256][x - 256 * i] == b.Payload()[x - 256 * i];
  }
}
