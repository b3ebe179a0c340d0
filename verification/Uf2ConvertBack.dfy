/** The host tool `uf2conv.py` reading a .uf2 file back into a binary. */
module Uf2ConvertBack {
  import opened Bytes
  import opened Options
  import opened Uf2Format
  import opened Uf2Convert
  import opened GhostFat

  const MAX_PADDING: nat := 10 * 1024 * 1024

  /** The loop's variables: output, expected address, family seen first, start address, families with a flag. */
  datatype Progress = Progress(out: seq<Byte>, cur: Option<nat>, family: Option<U32>, appStart: nat, families: set<U32>)

  function Initial(appStart: nat): (p: Progress) {
    Progress([], None, None, appStart, {})
  }

  predicate SkipsFlash(b: Block) {
    b.flags % 2 == 1
  }

  /** The expected address restarts at the first block and at a block of another family. */
  predicate Restarts(p: Progress, b: Block) {
    p.cur.None? || (b.HasFamily() && p.family.Some? && p.family.value != b.familyId)
  }

  /** One block for the requested family, 0 for any; `None` when the tool raises. Building the message for a bad magic or a
      failed assertion raises too, so such a block is not skipped. */
  function Step(p: Progress, b: Block, want: U32, last: bool): (r: Option<Progress>) {
    if b.magicStart0 != MAGIC_START0 || b.magicStart1 != MAGIC_START1 then None
    else if SkipsFlash(b) then Some(p)
    else if b.payloadSize > DATA_SIZE then None
    else
      var cur := if Restarts(p, b) then b.targetAddr else p.cur.value;
      var padding := b.targetAddr - cur;
      if padding < 0 || padding > MAX_PADDING || padding % 4 != 0 then None
      else
        var family := if Restarts(p, b) || (b.HasFamily() && p.family.None?) then Some(b.familyId) else p.family;
        var appStart := if Restarts(p, b) && (want == 0 || want == b.familyId) then b.targetAddr else p.appStart;
        var payload := if want == 0 || (b.HasFamily() && want == b.familyId) then b.Payload() else [];
        var families := if b.HasFamily() then p.families + {b.familyId} else p.families;
        if last && |families| > 1 && want == 0 then Some(Progress([], Some(b.targetAddr + b.payloadSize), family, 0, families))
        else Some(Progress(p.out + Fill(padding, 0) + payload, Some(b.targetAddr + b.payloadSize), family, appStart, families))
  }

  /** All blocks up to `n`. */
  function After(bs: seq<Block>, n: nat, want: U32, appStart: nat): (r: Option<Progress>)
    requires n <= |bs|
  {
    if n == 0 then Some(Initial(appStart))
    else
      match After(bs, n - 1, want, appStart)
      case None => None
      case Some(p) => Step(p, bs[n - 1], want, n == |bs|)
  }

  function BlocksOf(buf: seq<Byte>): (bs: seq<Block>)
    ensures |bs| == |buf| / 512
  {
    seq(|buf| / 512, i requires 0 <= i < |buf| / 512 => Overlay(buf[512 * i..512 * i + 512]))
  }

  /** `convert_from_uf2`: the binary and the start address. */
  method ConvertFromUf2(buf: seq<Byte>, want: U32, appStart: nat) returns (r: Option<(seq<Byte>, nat)>)
    ensures
      var bs := BlocksOf(buf);
      r == match After(bs, |bs|, want, appStart) case None => None case Some(p) => Some((p.out, p.appStart))
  {
    hide Overlay, Step;
    var numBlocks := |buf| / 512;
    ghost var bs := BlocksOf(buf);
    var p := Initial(appStart);
    for i := 0 to numBlocks
      invariant After(bs, i, want, appStart) == Some(p)
    {
      var b := Overlay(buf[512 * i..512 * i + 512]);
      assert b == bs[i];
      var next := ConvertBlock(p, b, want, i == numBlocks - 1);
      if next.None? {
        FailedForGood(bs, i + 1, want, appStart);
        return None;
      }
      p := next.value;
    }
    r := Some((p.out, p.appStart));
  }

  /** The loop body. */
  method ConvertBlock(p: Progress, b: Block, want: U32, last: bool) returns (r: Option<Progress>)
    ensures r == Step(p, b, want, last)
  {
    hide Block.HasFamily;
    if b.magicStart0 != MAGIC_START0 || b.magicStart1 != MAGIC_START1 {
      return None;
    }
    if b.flags % 2 == 1 {
      return Some(p);
    }
    if b.payloadSize > DATA_SIZE {
      return None;
    }
    var out, cur, family, families := p.out, p.cur, p.family, p.families;
    var start: nat := p.appStart;
    if b.HasFamily() && family.None? {
      family := Some(b.familyId);
    }
    if cur.None? || (b.HasFamily() && family != Some(b.familyId)) {
      family := Some(b.familyId);
      cur := Some(b.targetAddr);
      if want == 0 || want == b.familyId {
        start := b.targetAddr;
      }
    }
    var padding := b.targetAddr - cur.value;
    if padding < 0 || padding > MAX_PADDING || padding % 4 != 0 {
      return None;
    }
    out := AppendZeros(out, padding);
    assert out + [] == out;
    if want == 0 || (b.HasFamily() && want == b.familyId) {
      out := out + b.Payload();
    }
    cur := Some(b.targetAddr + b.payloadSize);
    if b.HasFamily() {
      families := families + {b.familyId};
    }
    if last && |families| > 1 && want == 0 {
      out, start := [], 0;
    }
    r := Some(Progress(out, cur, family, start, families));
  }

  /** Four zero bytes at a time. */
  method AppendZeros(out: seq<Byte>, n: nat) returns (r: seq<Byte>)
    requires n % 4 == 0
    ensures r == out + Fill(n, 0)
  {
    r := out;
    var padding := n;
    while padding > 0
      invariant 0 <= padding <= n && padding % 4 == 0
      invariant r == out + Fill(n - padding, 0)
    {
      padding := padding - 4;
      r := r + [0, 0, 0, 0];
    }
  }

  lemma {:induction false} FailedForGood(bs: seq<Block>, n: nat, want: U32, appStart: nat)
    requires n <= |bs| && After(bs, n, want, appStart).None?
    ensures After(bs, |bs|, want, appStart).None?
    decreases |bs| - n
  {
    if n < |bs| {
      FailedForGood(bs, n + 1, want, appStart);
    }
  }

  // ----- files without gaps -----

  /** Blocks of one family or of none that follow each other without a gap. */
  predicate Gapless(bs: seq<Block>, family: U32, flagged: bool) {
    && (forall i :: 0 <= i < |bs| ==>
          && bs[i].magicStart0 == MAGIC_START0 && bs[i].magicStart1 == MAGIC_START1 && !SkipsFlash(bs[i])
          && bs[i].payloadSize <= DATA_SIZE && bs[i].familyId == family && bs[i].HasFamily() == flagged)
    && (forall i, j :: 0 <= i && j == i + 1 < |bs| ==> bs[j].targetAddr == bs[i].targetAddr + bs[i].payloadSize)
  }

  function Payloads(bs: seq<Block>, n: nat): (p: seq<Byte>)
    requires n <= |bs| && forall i :: 0 <= i < |bs| ==> bs[i].payloadSize <= DATA_SIZE
  {
    if n == 0 then [] else Payloads(bs, n - 1) + bs[n - 1].Payload()
  }

  /** Such a file converts to its payloads, put together, from the address of its first block. */
  lemma {:induction false} GaplessConverts(bs: seq<Block>, n: nat, family: U32, flagged: bool, want: U32, appStart: nat)
    requires Gapless(bs, family, flagged) && n <= |bs| && (want == 0 || (flagged && want == family))
    ensures
      var r := After(bs, n, want, appStart);
      && r.Some? && r.value.out == Payloads(bs, n)
      && (if n == 0 then r.value == Initial(appStart)
          else
            && r.value.cur == Some(bs[n - 1].targetAddr + bs[n - 1].payloadSize) && r.value.family == Some(family)
            && r.value.appStart == bs[0].targetAddr && r.value.families <= {family})
  {
    hide Step, Block.HasFamily;
    if n > 0 {
      GaplessConverts(bs, n - 1, family, flagged, want, appStart);
      var p, b := After(bs, n - 1, want, appStart).value, bs[n - 1];
      assert n > 1 ==> b.targetAddr == bs[n - 2].targetAddr + bs[n - 2].payloadSize;
      GaplessStep(p, b, family, flagged, want, n == |bs|);
    }
  }

  lemma GaplessStep(p: Progress, b: Block, family: U32, flagged: bool, want: U32, last: bool)
    requires b.magicStart0 == MAGIC_START0 && b.magicStart1 == MAGIC_START1 && !SkipsFlash(b) && b.payloadSize <= DATA_SIZE
    requires b.familyId == family && b.HasFamily() == flagged && (want == 0 || (flagged && want == family)) && p.families <= {family}
    requires p.cur.Some? ==> p.cur.value == b.targetAddr && p.family == Some(family)
    requires p.cur.None? ==> p.family.None?
    ensures
      var appStart := if p.cur.None? then b.targetAddr else p.appStart;
      var families := if flagged then {family} else p.families;
      families <= {family} &&
      Step(p, b, want, last) == Some(Progress(p.out + b.Payload(), Some(b.targetAddr + b.payloadSize), Some(family), appStart, families))
  {
    hide Block.HasFamily;
    var families := if flagged then p.families + {family} else p.families;
    assert flagged ==> families == {family};
    AtMostOne(families, family);
    assert p.out + Fill(0, 0) == p.out;
  }

  lemma AtMostOne(s: set<U32>, x: U32)
    requires s <= {x}
    ensures |s| <= 1
  {
    if x in s {
      assert s == {x};
    } else {
      assert s == {};
    }
  }

  /** Converting to UF2 and back gives the zero-padded content and the start address. */
  lemma ConvertBack(job: Job, appStart: nat)
    requires job.Fits() && job.content != []
    ensures
      var bs := job.Blocks();
      && After(bs, |bs|, job.familyId, appStart).Some?
      && After(bs, |bs|, job.familyId, appStart).value.out == job.Padded()
      && After(bs, |bs|, job.familyId, appStart).value.appStart == job.appStart
  {
    hide After, Payloads, Gapless, Job.Padded;
    var bs := job.Blocks();
    JobGapless(job);
    GaplessConverts(bs, |bs|, job.familyId, job.familyId != 0, job.familyId, appStart);
    JobPayloads(job, |bs|);
    assert job.Padded()[..256 * |bs|] == job.Padded();
  }

  /** The two conversions one after the other, on the bytes of the file. */
  method ToAndBack(job: Job, appStart: nat) returns (r: Option<(seq<Byte>, nat)>)
    requires job.content != []
    ensures r == if job.Fits() then Some((job.Padded(), job.appStart)) else None
  {
    hide After, Overlay, Job.Padded, Job.BlockAt;
    var file := ConvertToUf2(job);
    if file.None? {
      return None;
    }
    r := ConvertFromUf2(file.value, job.familyId, appStart);
    assert BlocksOf(file.value) == job.Blocks();
    ConvertBack(job, appStart);
  }

  lemma JobGapless(job: Job)
    requires job.Fits()
    ensures Gapless(job.Blocks(), job.familyId, job.familyId != 0)
  {
    hide Job.Padded;
  }

  lemma CurrentGapless(v: Volume)
    requires v.Valid()
    ensures Gapless(v.Blocks(), v.familyId, v.familyId != 0)
  {
    hide Volume.DataAt, Volume.TagBytes;
  }

  lemma {:induction false} JobPayloads(job: Job, n: nat)
    requires job.Fits() && n <= job.NumBlocks()
    ensures Payloads(job.Blocks(), n) == job.Padded()[..256 * n]
  {
    if n > 0 {
      JobPayloads(job, n - 1);
      var p := job.Padded();
      assert job.Blocks()[n - 1].Payload() == p[256 * (n - 1)..256 * n];
      Extend(p, 256 * (n - 1), 256);
    }
  }

  /** CURRENT.UF2 read by the host tool is the flash it was made from, short last block included. */
  lemma CurrentUf2Converts(v: Volume, appStart: nat)
    requires v.Valid() && v.readback != []
    ensures
      var bs := v.Blocks();
      && After(bs, |bs|, v.familyId, appStart).Some?
      && After(bs, |bs|, v.familyId, appStart).value.out == v.readback
      && After(bs, |bs|, v.familyId, appStart).value.appStart == v.readbackBase
  {
    hide After, Payloads, Gapless, Volume.DataAt, Volume.TagBytes;
    var bs := v.Blocks();
    CurrentGapless(v);
    GaplessConverts(bs, |bs|, v.familyId, v.familyId != 0, v.familyId, appStart);
    ReadbackPayloads(v, |bs|);
  }

  lemma {:induction false} ReadbackPayloads(v: Volume, n: nat)
    requires v.Valid() && n <= v.NumBlocks()
    ensures
      var end := if 256 * n > |v.readback| then |v.readback| else 256 * n;
      Payloads(v.Blocks(), n) == v.readback[..end]
  {
    hide Volume.DataAt, Volume.TagBytes, Volume.Flags, Volume.BlockAt;
    if n > 0 {
      ReadbackPayloads(v, n - 1);
      PayloadOfBlock(v, n - 1);
      Extend(v.readback, 256 * (n - 1), v.PayloadLen(n - 1));
    }
  }

  lemma Extend(p: seq<Byte>, n: nat, len: nat)
    requires n + len <= |p|
    ensures p[..n] + p[n..n + len] == p[..n + len]
  {
  }

  lemma PayloadOfBlock(v: Volume, i: nat)
    requires v.Valid() && i < v.NumBlocks()
    ensures v.Blocks()[i].Payload() == v.PayloadAt(i)
  {
    hide Volume.TagBytes, Volume.Flags;
    assert v.Blocks()[i] == v.BlockAt(i);
  }
}
