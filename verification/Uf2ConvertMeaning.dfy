/** What converting from UF2 means: which files convert, and to what. */
module Uf2ConvertMeaning {
  import opened Bytes
  import opened Options
  import opened Uf2Format
  import opened Uf2ConvertBack

  predicate HasStartMagic(b: Block) {
    b.magicStart0 == MAGIC_START0 && b.magicStart1 == MAGIC_START1
  }

  // ----- which files convert -----

  /** Where the block before `n` that is not skipped ends. */
  function Expected(bs: seq<Block>, n: nat): (addr: Option<nat>)
    requires n <= |bs|
  {
    if n == 0 then None
    else if SkipsFlash(bs[n - 1]) then Expected(bs, n - 1)
    else Some(bs[n - 1].targetAddr + bs[n - 1].payloadSize)
  }

  /** The family of the last flagged block before `n`, or of the first one if none is flagged. */
  function Tracked(bs: seq<Block>, n: nat): (family: Option<U32>)
    requires n <= |bs|
    ensures family.None? <==> Expected(bs, n).None?
  {
    if n == 0 then None
    else if SkipsFlash(bs[n - 1]) then Tracked(bs, n - 1)
    else if Tracked(bs, n - 1).None? || bs[n - 1].HasFamily() then Some(bs[n - 1].familyId)
    else Tracked(bs, n - 1)
  }

  /** A stretch begins: the first block, or a block flagged with another family. */
  predicate Begins(bs: seq<Block>, i: nat)
    requires i < |bs|
  {
    Expected(bs, i).None? || (bs[i].HasFamily() && Tracked(bs, i) != Some(bs[i].familyId))
  }

  /** The block has the magic; and if it is not skipped, its size fits and it begins a stretch or follows the one before it
      after a gap of whole words up to 10 MB. */
  predicate Admissible(bs: seq<Block>, i: nat)
    requires i < |bs|
  {
    && HasStartMagic(bs[i])
    && (SkipsFlash(bs[i])
        || (&& bs[i].payloadSize <= DATA_SIZE
            && (Begins(bs, i)
                || (&& 0 <= bs[i].targetAddr - Expected(bs, i).value <= MAX_PADDING
                    && (bs[i].targetAddr - Expected(bs, i).value) % 4 == 0))))
  }

  lemma {:induction false} StateAfter(bs: seq<Block>, n: nat, want: U32, appStart: nat)
    requires n <= |bs|
    ensures
      var p := After(bs, n, want, appStart);
      && (p.Some? <==> forall i :: 0 <= i < n ==> Admissible(bs, i))
      && (p.Some? ==> p.value.cur == Expected(bs, n) && p.value.family == Tracked(bs, n))
  {
    hide Step, Admissible, Block.HasFamily;
    if n > 0 {
      StateAfter(bs, n - 1, want, appStart);
      var p := After(bs, n - 1, want, appStart);
      if p.Some? {
        StepAdmits(bs, n - 1, p.value, want);
      }
    }
  }

  lemma StepAdmits(bs: seq<Block>, i: nat, p: Progress, want: U32)
    requires i < |bs| && p.cur == Expected(bs, i) && p.family == Tracked(bs, i)
    ensures
      var q := Step(p, bs[i], want, i + 1 == |bs|);
      && (q.Some? <==> Admissible(bs, i))
      && (q.Some? ==> q.value.cur == Expected(bs, i + 1) && q.value.family == Tracked(bs, i + 1))
  {
    hide Block.HasFamily, Block.Payload;
  }

  /** A file converts exactly when all its blocks are admissible. */
  lemma ConvertsIff(bs: seq<Block>, want: U32, appStart: nat)
    ensures After(bs, |bs|, want, appStart).Some? <==> forall i :: 0 <= i < |bs| ==> Admissible(bs, i)
  {
    StateAfter(bs, |bs|, want, appStart);
  }

  /** One sector without the magic, such as a zero sector at the end, makes the whole conversion fail. */
  lemma ZeroSectorRaises(file: seq<Byte>, want: U32, appStart: nat)
    requires |file| % 512 == 0
    ensures
      var bs := BlocksOf(file + Fill(512, 0));
      After(bs, |bs|, want, appStart).None?
  {
    hide After, Overlay;
    var whole, n := file + Fill(512, 0), |file| / 512;
    var bs := BlocksOf(whole);
    assert |whole| / 512 == n + 1;
    assert whole[512 * n..512 * n + 512] == Fill(512, 0);
    ZeroOverlay();
    assert !HasStartMagic(bs[n]) && !Admissible(bs, n);
    ConvertsIff(bs, want, appStart);
  }

  lemma ZeroOverlay()
    ensures Overlay(Fill(512, 0)).magicStart0 == 0
  {
  }

  // ----- what they convert to -----

  predicate Covers(b: Block, addr: nat) {
    !SkipsFlash(b) && b.targetAddr <= addr < b.targetAddr + b.payloadSize
  }

  /** `out` is the memory from `start` on: each block's payload at its address, zeros where there is none. */
  ghost predicate IsImage(out: seq<Byte>, bs: seq<Block>, n: nat, start: nat)
    requires n <= |bs|
  {
    && (forall i :: 0 <= i < n && !SkipsFlash(bs[i]) ==>
          && bs[i].payloadSize <= DATA_SIZE && start <= bs[i].targetAddr && bs[i].targetAddr + bs[i].payloadSize <= start + |out|
          && out[bs[i].targetAddr - start..bs[i].targetAddr + bs[i].payloadSize - start] == bs[i].Payload())
    && (forall x :: 0 <= x < |out| && (forall i :: 0 <= i < n ==> !Covers(bs[i], start + x)) ==> out[x] == 0)
  }

  /** One stretch, and every block of it wanted. */
  predicate OneStretch(bs: seq<Block>, want: U32) {
    forall i :: 0 <= i < |bs| && !SkipsFlash(bs[i]) ==>
      && (Begins(bs, i) ==> Expected(bs, i).None?)
      && (want == 0 || (bs[i].HasFamily() && bs[i].familyId == want))
  }

  /** The address of the first block that is not skipped. */
  function FirstAddr(bs: seq<Block>, n: nat): (addr: Option<nat>)
    requires n <= |bs|
    ensures addr.None? <==> Expected(bs, n).None?
  {
    if n == 0 then None
    else if FirstAddr(bs, n - 1).Some? || SkipsFlash(bs[n - 1]) then FirstAddr(bs, n - 1)
    else Some(bs[n - 1].targetAddr)
  }

  /** A file of one stretch that converts gives the memory its blocks describe, and its first address. */
  lemma {:induction false} ConvertsToImage(bs: seq<Block>, n: nat, want: U32, appStart: nat)
    requires n <= |bs| && OneStretch(bs, want) && After(bs, n, want, appStart).Some?
    ensures forall i :: 0 <= i < n ==> Admissible(bs, i)
    ensures
      var p, start := After(bs, n, want, appStart).value, FirstAddr(bs, n);
      && p.appStart == (if start.Some? then start.value else appStart)
      && (start.None? ==> p.out == [] && p.families == {})
      && (start.Some? ==>
            && start.value + |p.out| == Expected(bs, n).value && IsImage(p.out, bs, n, start.value)
            && p.families <= {Tracked(bs, n).value})
  {
    hide Step, Admissible, Block.HasFamily, IsImage, OneStretch;
    StateAfter(bs, n, want, appStart);
    if n > 0 {
      ConvertsToImage(bs, n - 1, want, appStart);
      StateAfter(bs, n - 1, want, appStart);
      var p := After(bs, n - 1, want, appStart).value;
      if SkipsFlash(bs[n - 1]) {
        SkippedStep(bs, n, p, want);
      } else {
        StretchStep(bs, n, p, want);
      }
    }
  }

  lemma SkippedStep(bs: seq<Block>, n: nat, p: Progress, want: U32)
    requires 0 < n <= |bs| && SkipsFlash(bs[n - 1]) && Step(p, bs[n - 1], want, n == |bs|).Some?
    ensures Step(p, bs[n - 1], want, n == |bs|) == Some(p)
    ensures forall start: nat :: IsImage(p.out, bs, n - 1, start) ==> IsImage(p.out, bs, n, start)
  {
  }

  /** One block of the stretch: zeros up to its address and its payload. */
  lemma StretchStep(bs: seq<Block>, n: nat, p: Progress, want: U32)
    requires 0 < n <= |bs| && !SkipsFlash(bs[n - 1]) && OneStretch(bs, want) && Admissible(bs, n - 1)
    requires p.cur == Expected(bs, n - 1) && p.family == Tracked(bs, n - 1)
    requires FirstAddr(bs, n - 1).None? ==> p.out == [] && p.families == {}
    requires FirstAddr(bs, n - 1).Some? ==>
               && FirstAddr(bs, n - 1).value + |p.out| == Expected(bs, n - 1).value && IsImage(p.out, bs, n - 1, FirstAddr(bs, n - 1).value)
               && p.appStart == FirstAddr(bs, n - 1).value && p.families <= {Tracked(bs, n - 1).value}
    ensures
      var q, start := Step(p, bs[n - 1], want, n == |bs|), FirstAddr(bs, n).value;
      && q.Some? && q.value.appStart == start && start + |q.value.out| == Expected(bs, n).value
      && IsImage(q.value.out, bs, n, start) && q.value.families <= {Tracked(bs, n).value}
  {
    hide Block.HasFamily, IsImage;
    var b := bs[n - 1];
    var first := FirstAddr(bs, n - 1).None?;
    var cur: nat := if first then b.targetAddr else p.cur.value;
    StretchFamily(bs, n, p, want);
    var start := FirstAddr(bs, n).value;
    if first {
      NothingBefore(bs, n - 1);
      NoImage(bs, n - 1, start);
    }
    ImageStep(p.out, bs, n, start, cur);
  }

  lemma StretchFamily(bs: seq<Block>, n: nat, p: Progress, want: U32)
    requires 0 < n <= |bs| && !SkipsFlash(bs[n - 1]) && OneStretch(bs, want)
    requires p.cur == Expected(bs, n - 1) && p.family == Tracked(bs, n - 1)
    requires if Tracked(bs, n - 1).None? then p.families == {} else p.families <= {Tracked(bs, n - 1).value}
    ensures
      var b := bs[n - 1];
      var families := if b.HasFamily() then p.families + {b.familyId} else p.families;
      && families <= {Tracked(bs, n).value} && |families| <= 1
      && (Restarts(p, b) <==> Expected(bs, n - 1).None?)
  {
    hide Block.HasFamily;
    var b := bs[n - 1];
    var families := if b.HasFamily() then p.families + {b.familyId} else p.families;
    assert Begins(bs, n - 1) ==> Expected(bs, n - 1).None?;
    AtMostOne(families, Tracked(bs, n).value);
  }

  lemma {:induction false} NothingBefore(bs: seq<Block>, n: nat)
    requires n <= |bs| && Expected(bs, n).None?
    ensures forall i :: 0 <= i < n ==> SkipsFlash(bs[i])
  {
    if n > 0 {
      NothingBefore(bs, n - 1);
    }
  }

  lemma NoImage(bs: seq<Block>, n: nat, start: nat)
    requires n <= |bs| && forall i :: 0 <= i < n ==> SkipsFlash(bs[i])
    ensures IsImage([], bs, n, start)
  {
  }

  lemma ImageStep(out: seq<Byte>, bs: seq<Block>, n: nat, start: nat, cur: nat)
    requires 0 < n <= |bs| && bs[n - 1].payloadSize <= DATA_SIZE
    requires !SkipsFlash(bs[n - 1]) && IsImage(out, bs, n - 1, start) && cur == start + |out| <= bs[n - 1].targetAddr
    ensures IsImage(out + Fill(bs[n - 1].targetAddr - cur, 0) + bs[n - 1].Payload(), bs, n, start)
  {
    var b := bs[n - 1];
    var gap := Fill(b.targetAddr - cur, 0);
    var r := out + gap + b.Payload();
    forall i | 0 <= i < n && !SkipsFlash(bs[i])
      ensures bs[i].payloadSize <= DATA_SIZE && start <= bs[i].targetAddr && bs[i].targetAddr + bs[i].payloadSize <= start + |r|
      ensures r[bs[i].targetAddr - start..bs[i].targetAddr + bs[i].payloadSize - start] == bs[i].Payload()
    {
      if i < n - 1 {
        var lo, hi := bs[i].targetAddr - start, bs[i].targetAddr + bs[i].payloadSize - start;
        assert r[lo..hi] == out[lo..hi];
      }
    }
    forall x | 0 <= x < |r| && (forall i :: 0 <= i < n ==> !Covers(bs[i], start + x))
      ensures r[x] == 0
    {
      assert !Covers(b, start + x);
      if x < |out| {
        assert r[x] == out[x];
      }
    }
  }
}
