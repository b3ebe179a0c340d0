/** `imgtool verify`: which images it accepts, and what accepting one means. */
module ImageVerify {
  import opened Bytes
  import opened Options
  import opened Tlv
  import opened ImageFormat
  import opened ImageWriter
  import opened ImageReaders

  /** `Raised` stands for an exception: a cut-off field, or a key without the method asked of it. */
  datatype Verdict =
    | Accepted(version: Version, digest: Option<seq<Byte>>, signature: Option<seq<Byte>>)
    | InvalidMagic | InvalidInfoMagic | InvalidHash | InvalidSignature | KeyMismatch | Raised

  /** What stays fixed while the records are scanned. */
  datatype Check = Check(region: seq<Byte>, version: Version, key: Option<Key>, hash: Hash, pure: bool)

  datatype Step = Stop(verdict: Verdict) | Continue(digest: Option<seq<Byte>>)

  function KindOf(key: Option<Key>): (kind: Option<KeyKind>) {
    if key.None? then None else Some(key.value.kind)
  }

  /** One record: only the low byte of its type is looked at. */
  function StepOn(c: Check, digest: Option<seq<Byte>>, kind: U16, data: seq<Byte>): (s: Step) {
    var low := kind % 0x100;
    if ShaOfTlv(low).Some? then
      var sha := ShaOfTlv(low).value;
      if SelectSha(KindOf(c.key), Some(sha), false).None? then Stop(KeyMismatch)
      else if c.hash(sha, c.region) != data then Stop(InvalidHash)
      else if c.key.None? then Stop(Accepted(c.version, Some(data), None))
      else Continue(Some(data))
    else if c.key.None? then Continue(digest)
    else if !c.pure && low == c.key.value.sigTlv then
      if WholeImage(c.key.value.kind) then
        if c.key.value.verify(data, c.region) then Stop(Accepted(c.version, digest, None)) else Continue(digest)
      else if digest.None? then Stop(Raised)
      else if c.key.value.verify(data, digest.value) then Stop(Accepted(c.version, digest, None))
      else Continue(digest)
    else if c.pure && low == ED25519 then
      if WholeImage(c.key.value.kind) then Stop(Raised)
      else if c.key.value.verify(data, c.region) then Stop(Accepted(c.version, None, Some(data)))
      else Continue(digest)
    else Continue(digest)
  }

  /** The signature speaks for the region, itself or through a hash that goes with the key. */
  ghost predicate Vouches(region: seq<Byte>, key: Key, hash: Hash, sig: seq<Byte>) {
    key.verify(sig, region) || exists sha :: sha in Allowed(key.kind) && key.verify(sig, hash(sha, region))
  }

  /** A digest met so far is the region's own. */
  ghost predicate Own(c: Check, digest: Option<seq<Byte>>) {
    digest.Some? && c.key.Some? ==> exists sha :: sha in Allowed(c.key.value.kind) && digest.value == c.hash(sha, c.region)
  }

  lemma StepKeepsOwn(c: Check, digest: Option<seq<Byte>>, kind: U16, data: seq<Byte>)
    requires Own(c, digest)
    ensures StepOn(c, digest, kind, data).Continue? ==> Own(c, StepOn(c, digest, kind, data).digest)
    ensures StepOn(c, digest, kind, data).Stop? && StepOn(c, digest, kind, data).verdict.Accepted? && c.key.Some? ==>
              Vouches(c.region, c.key.value, c.hash, data) && kind % 0x100 in {c.key.value.sigTlv, ED25519}
  {
    var low := kind % 0x100;
    if ShaOfTlv(low).Some? {
      var sha := ShaOfTlv(low).value;
      assert c.key.Some? && SelectSha(KindOf(c.key), Some(sha), false).Some? ==> sha in Allowed(c.key.value.kind);
    }
  }

  /** The scan for the pure-signature marker. */
  function FindPure(b: seq<Byte>, off: nat, end: nat): (r: Option<bool>)
    decreases end - off
  {
    if off >= end then Some(false)
    else if off + 4 > |b| then None
    else if U16At(b, off) % 0x100 == SIG_PURE then Some(true)
    else FindPure(b, off + 4 + U16At(b, off + 2), end)
  }

  /** The scan that decides. */
  function Judge(b: seq<Byte>, off: nat, end: nat, c: Check, digest: Option<seq<Byte>>): (v: Verdict)
    decreases end - off
  {
    if off >= end then InvalidSignature
    else if off + 4 > |b| then Raised
    else
      var r := RecordAt(b, off);
      match StepOn(c, digest, r.kind, r.data)
      case Stop(v) => v
      case Continue(d) => Judge(b, off + 4 + r.len, end, c, d)
  }

  /** Where the unprotected area starts, and its announced size. */
  datatype Start = NotFound(verdict: Verdict) | Start(off: nat, total: U16)

  function FindArea(b: seq<Byte>): (s: Start)
    ensures s.NotFound? ==> !s.verdict.Accepted?
    ensures s.Start? ==> s.off + 4 <= |b| && |b| >= 28
  {
    if |b| < 28 then NotFound(Raised)
    else if U32At(b, 0) != IMAGE_MAGIC then NotFound(InvalidMagic)
    else
      var off := U16At(b, 8) + U32At(b, 12);
      if off + 4 > |b| then NotFound(Raised)
      else
        var next := if U16At(b, off) == TLV_PROT_INFO_MAGIC then off + U16At(b, off + 2) else off;
        if next + 4 > |b| then NotFound(Raised)
        else if U16At(b, next) != TLV_INFO_MAGIC then NotFound(InvalidInfoMagic)
        else Start(next, U16At(b, next + 2))
  }

  function VerdictOn(b: seq<Byte>, key: Option<Key>, hash: Hash): (v: Verdict) {
    match FindArea(b)
    case NotFound(v) => v
    case Start(off, total) =>
      match FindPure(b, off + 4, off + total)
      case None => Raised
      case Some(pure) => Judge(b, off + 4, off + total, Check(b[..off], HeaderAt(b).version, key, hash, pure), None)
  }

  method LocateArea(b: seq<Byte>) returns (s: Start)
    ensures s == FindArea(b)
  {
    if |b| < 28 {
      return NotFound(Raised);
    }
    if U32At(b, 0) != IMAGE_MAGIC {
      return NotFound(InvalidMagic);
    }
    var off := U16At(b, 8) + U32At(b, 12);
    if off + 4 > |b| {
      return NotFound(Raised);
    }
    var magic, total := U16At(b, off), U16At(b, off + 2);
    if magic == TLV_PROT_INFO_MAGIC {
      off := off + total;
      if off + 4 > |b| {
        return NotFound(Raised);
      }
      magic, total := U16At(b, off), U16At(b, off + 2);
    }
    if magic != TLV_INFO_MAGIC {
      return NotFound(InvalidInfoMagic);
    }
    s := Start(off, total);
  }

  method Verify(b: seq<Byte>, key: Option<Key>, hash: Hash) returns (v: Verdict)
    ensures v == VerdictOn(b, key, hash)
  {
    hide StepOn, FindArea, U16At;
    var start := LocateArea(b);
    if start.NotFound? {
      return start.verdict;
    }
    var version := HeaderAt(b).version;
    var region := b[..start.off];
    var end := start.off + start.total;
    var off := start.off + 4;
    var pure := false;
    while off < end
      invariant !pure && FindPure(b, start.off + 4, end) == FindPure(b, off, end)
    {
      if off + 4 > |b| {
        return Raised;
      }
      if U16At(b, off) % 0x100 == SIG_PURE {
        pure := true;
        break;
      }
      off := off + 4 + U16At(b, off + 2);
    }
    assert FindPure(b, start.off + 4, end) == Some(pure);
    v := Scan(b, start.off + 4, end, Check(region, version, key, hash, pure));
  }

  method Scan(b: seq<Byte>, start: nat, end: nat, c: Check) returns (v: Verdict)
    ensures v == Judge(b, start, end, c, None)
  {
    hide StepOn, RecordAt;
    var digest: Option<seq<Byte>> := None;
    var off := start;
    while off < end
      invariant Judge(b, start, end, c, None) == Judge(b, off, end, c, digest)
    {
      if off + 4 > |b| {
        return Raised;
      }
      var r := RecordAt(b, off);
      var step := StepOn(c, digest, r.kind, r.data);
      if step.Stop? {
        return step.verdict;
      }
      digest := step.digest;
      off := off + 4 + r.len;
    }
    v := InvalidSignature;
  }

  // ----- accepting means authentic -----

  /** Among the records that the walk from `off` to `end` meets, a signature record vouches for the region. */
  ghost predicate Vouched(b: seq<Byte>, off: nat, end: nat, region: seq<Byte>, key: Key, hash: Hash)
    decreases end - off
  {
    && off < end && off + 4 <= |b|
    && var r := RecordAt(b, off);
    || (Vouches(region, key, hash, r.data) && r.kind % 0x100 in {key.sigTlv, ED25519})
    || Vouched(b, off + 4 + r.len, end, region, key, hash)
  }

  lemma {:induction false} JudgeSound(b: seq<Byte>, off: nat, end: nat, c: Check, digest: Option<seq<Byte>>)
    requires c.key.Some? && Own(c, digest) && Judge(b, off, end, c, digest).Accepted?
    ensures Vouched(b, off, end, c.region, c.key.value, c.hash)
    decreases end - off
  {
    hide StepOn, RecordAt, Vouches, Own;
    if off < end && off + 4 <= |b| {
      var r := RecordAt(b, off);
      StepKeepsOwn(c, digest, r.kind, r.data);
      if StepOn(c, digest, r.kind, r.data).Continue? {
        JudgeSound(b, off + 4 + r.len, end, c, StepOn(c, digest, r.kind, r.data).digest);
      }
    }
  }

  /** Any file accepted with a key holds, among the records of its unprotected area, a signature by that key over everything
      before that area. */
  lemma AcceptedIsSigned(b: seq<Byte>, key: Key, hash: Hash)
    requires VerdictOn(b, Some(key), hash).Accepted?
    ensures
      var start := FindArea(b);
      start.Start? && Vouched(b, start.off + 4, start.off + start.total, b[..start.off], key, hash)
  {
    hide Judge, FindPure, FindArea, Vouched;
    var start := FindArea(b);
    var pure := FindPure(b, start.off + 4, start.off + start.total).value;
    var c := Check(b[..start.off], HeaderAt(b).version, Some(key), hash, pure);
    JudgeSound(b, start.off + 4, start.off + start.total, c, None);
  }

  // ----- what the writer makes is accepted -----

  /** The scan on a list of records rather than on bytes. */
  function JudgeList(es: seq<Entry>, c: Check, digest: Option<seq<Byte>>): (v: Verdict)
    decreases |es|
  {
    if es == [] then InvalidSignature
    else
      match StepOn(c, digest, es[0].kind, es[0].data)
      case Stop(v) => v
      case Continue(d) => JudgeList(es[1..], c, d)
  }

  predicate HasPure(es: seq<Entry>) {
    exists i :: 0 <= i < |es| && es[i].kind % 0x100 == SIG_PURE
  }

  /** The first record of a written list, and the rest after it. */
  lemma FirstRecord(b: seq<Byte>, off: nat, es: seq<Entry>)
    requires AllValid(es) && es != []
    requires off + |Encode(es)| <= |b| && b[off..off + |Encode(es)|] == Encode(es)
    ensures AllValid(es[1..]) && off + 4 <= |b| && RecordAt(b, off) == RecordOf(es[0])
    ensures
      var next := off + 4 + |es[0].data|;
      next + |Encode(es[1..])| == off + |Encode(es)| && b[next..off + |Encode(es)|] == Encode(es[1..])
  {
    hide EntryBytes, U16At, Encode;
    var first, rest := es[0], es[1..];
    assert es == [first] + rest;
    EncodeSplit([first], rest);
    EncodeOne(first);
    var n, k := |Encode(es)|, 4 + |first.data|;
    Slice(b, off, n, 0, k);
    Slice(b, off, n, k, n);
    EntryFields(b, off, first);
  }

  lemma {:induction false} JudgeEncoded(b: seq<Byte>, off: nat, es: seq<Entry>, c: Check, digest: Option<seq<Byte>>)
    requires AllValid(es) && off + |Encode(es)| <= |b| && b[off..off + |Encode(es)|] == Encode(es)
    ensures Judge(b, off, off + |Encode(es)|, c, digest) == JudgeList(es, c, digest)
    decreases |es|
  {
    hide Encode, StepOn, RecordAt;
    if es == [] {
      EncodeNone();
    } else {
      FirstRecord(b, off, es);
      var step := StepOn(c, digest, es[0].kind, es[0].data);
      if step.Continue? {
        JudgeEncoded(b, off + 4 + |es[0].data|, es[1..], c, step.digest);
      }
    }
  }

  lemma {:induction false} FindPureEncoded(b: seq<Byte>, off: nat, es: seq<Entry>)
    requires AllValid(es) && off + |Encode(es)| <= |b| && b[off..off + |Encode(es)|] == Encode(es)
    ensures FindPure(b, off, off + |Encode(es)|) == Some(HasPure(es))
    decreases |es|
  {
    hide Encode, U16At;
    if es == [] {
      EncodeNone();
    } else {
      FirstRecord(b, off, es);
      if es[0].kind % 0x100 != SIG_PURE {
        FindPureEncoded(b, off + 4 + |es[0].data|, es[1..]);
        assert HasPure(es) ==> HasPure(es[1..]) by {
          if HasPure(es) {
            var i :| 0 <= i < |es| && es[i].kind % 0x100 == SIG_PURE;
            assert es[1..][i - 1] == es[i];
          }
        }
        assert HasPure(es[1..]) ==> HasPure(es) by {
          if HasPure(es[1..]) {
            var i :| 0 <= i < |es[1..]| && es[1..][i].kind % 0x100 == SIG_PURE;
            assert es[i + 1] == es[1..][i];
          }
        }
      }
    }
  }

  /** On an image the reader starts where the writer put the records. */
  lemma AreaFound(s: Source, g: Signing, b: seq<Byte>)
    requires s.Valid() && HeaderFits(s) && AllVendor(s.custom) && AreaFits(SigningTlvs(g, Region(s))) && ImageOf(s, g) <= b
    ensures var es := SigningTlvs(g, Region(s));
            && |b| >= 28 && HeaderAt(b).version == s.version
            && FindArea(b) == Start(|Region(s)|, 4 + |Encode(es)|) && b[..|Region(s)|] == Region(s)
            && |Region(s)| + 4 + |Encode(es)| <= |b| && b[|Region(s)| + 4..|Region(s)| + 4 + |Encode(es)|] == Encode(es)
  {
    hide SizeOf, ProtectedTlvs, SigningTlvs, HeaderBytes, AreaAt, Region, Encode, ImageOf, FindArea;
    Parts(s, g, b);
    ProtectedFits(s);
    HeaderRecovered(s, b);
    var prot, tlvs := ProtectedTlvs(s), SigningTlvs(g, Region(s));
    SigningNonEmpty(g, Region(s));
    ProtectedNonEmpty(s);
    if prot != [] {
      AreaRecovered(b, |s.payload|, TLV_PROT_INFO_MAGIC, prot);
      AreaLength(TLV_PROT_INFO_MAGIC, prot);
    }
    AreaRecovered(b, |Region(s)|, TLV_INFO_MAGIC, tlvs);
    AreaLength(TLV_INFO_MAGIC, tlvs);
    FindAreaFromHeads(b, |s.payload|, |Region(s)|);
    var a := Area(TLV_INFO_MAGIC, tlvs);
    assert a[4..] == Encode(tlvs);
    Slice(b, |Region(s)|, |a|, 4, |a|);
  }

  /** The search on the positions of the heads. */
  lemma FindAreaFromHeads(b: seq<Byte>, off: nat, next: nat)
    requires |b| >= 28 && off <= next && next + 4 <= |b|
    requires U32At(b, 0) == IMAGE_MAGIC && off == U16At(b, 8) + U32At(b, 12) && U16At(b, next) == TLV_INFO_MAGIC
    requires next != off ==> U16At(b, off) == TLV_PROT_INFO_MAGIC && U16At(b, off + 2) == next - off
    ensures FindArea(b) == Start(next, U16At(b, next + 2))
  {
    hide U16At, U32At;
  }

  /** The verdict on an image is the verdict on its records. */
  lemma VerdictOnImage(s: Source, g: Signing, b: seq<Byte>, key: Option<Key>)
    requires s.Valid() && HeaderFits(s) && AllVendor(s.custom) && AreaFits(SigningTlvs(g, Region(s))) && ImageOf(s, g) <= b
    ensures
      var es := SigningTlvs(g, Region(s));
      VerdictOn(b, key, g.hash) == JudgeList(es, Check(Region(s), s.version, key, g.hash, HasPure(es)), None)
  {
    hide SigningTlvs, Region, Encode, ImageOf, FindArea, Judge, JudgeList, FindPure, HasPure;
    AreaFound(s, g, b);
    var es, off := SigningTlvs(g, Region(s)), |Region(s)| + 4;
    FindPureEncoded(b, off, es);
    JudgeEncoded(b, off, es, Check(Region(s), s.version, key, g.hash, HasPure(es)), None);
  }

  lemma SigningPure(g: Signing, region: seq<Byte>)
    requires g.key.Some? ==> g.key.value.Valid()
    ensures HasPure(SigningTlvs(g, region)) == g.pure
  {
    var es := SigningTlvs(g, region);
    if g.pure {
      assert es[1] == Entry(SIG_PURE, [1]);
    }
  }

  /** The hash was chosen for the signing key. */
  predicate ShaChosen(g: Signing, user: Option<Sha>) {
    SelectSha(KindOf(g.key), user, g.pure) == Some(g.sha)
  }

  /** Without a key any image is accepted for its hash. */
  lemma AcceptedWithoutKey(s: Source, g: Signing, b: seq<Byte>)
    requires s.Valid() && HeaderFits(s) && AllVendor(s.custom) && AreaFits(SigningTlvs(g, Region(s))) && ImageOf(s, g) <= b
    ensures VerdictOn(b, None, g.hash) == Accepted(s.version, Some(g.hash(g.sha, Region(s))), None)
  {
    hide VerdictOn, Region, ImageOf, Message, HasPure;
    VerdictOnImage(s, g, b, None);
    var es := SigningTlvs(g, Region(s));
    var c := Check(Region(s), s.version, None, g.hash, HasPure(es));
    assert StepOn(c, None, es[0].kind, es[0].data) == Stop(Accepted(s.version, Some(es[0].data), None));
  }

  /** The signing key, and its public half, accept what was signed, padded or not. */
  lemma AcceptedWithKey(s: Source, g: Signing, user: Option<Sha>, checker: Key, b: seq<Byte>)
    requires s.Valid() && HeaderFits(s) && AllVendor(s.custom) && AreaFits(SigningTlvs(g, Region(s))) && ImageOf(s, g) <= b
    requires g.key.Some? && Pair(g.key.value, checker) && ShaChosen(g, user)
    ensures VerdictOn(b, Some(checker), g.hash) ==
            if g.pure then Accepted(s.version, None, Some(g.key.value.sign(Region(s))))
            else Accepted(s.version, Some(g.hash(g.sha, Region(s))), None)
  {
    hide VerdictOn, Region, ImageOf, HasPure, JudgeList;
    VerdictOnImage(s, g, b, Some(checker));
    SigningPure(g, Region(s));
    JudgeSigned(g, user, checker, Region(s), s.version);
  }

  lemma JudgeSigned(g: Signing, user: Option<Sha>, checker: Key, region: seq<Byte>, version: Version)
    requires g.key.Some? && Pair(g.key.value, checker) && ShaChosen(g, user)
    ensures JudgeList(SigningTlvs(g, region), Check(region, version, Some(checker), g.hash, g.pure), None) ==
            if g.pure then Accepted(version, None, Some(g.key.value.sign(region)))
            else Accepted(version, Some(g.hash(g.sha, region)), None)
  {
    hide StepOn, Key.Valid;
    var es, c := SigningTlvs(g, region), Check(region, version, Some(checker), g.hash, g.pure);
    var d := Some(g.hash(g.sha, region));
    StepSha(g, user, checker, c, region);
    var id, sig := es[|es| - 2], es[|es| - 1];
    StepKey(c, d, id);
    StepSig(g, user, checker, c, region);
    JudgeCons(es[0], es[1..], c, None);
    JudgeCons(id, [sig], c, d);
    JudgeCons(sig, [], c, d);
    assert [sig] == [sig] + [] && es == [es[0]] + es[1..];
    if g.pure {
      StepMarker(c, d);
      JudgeCons(es[1], [id, sig], c, d);
      assert es[1..] == [es[1]] + [id, sig] && [id, sig] == [id] + [sig];
    } else {
      assert es[1..] == [id] + [sig];
    }
  }

  lemma JudgeCons(e: Entry, rest: seq<Entry>, c: Check, d: Option<seq<Byte>>)
    ensures
      var step := StepOn(c, d, e.kind, e.data);
      JudgeList([e] + rest, c, d) == if step.Stop? then step.verdict else JudgeList(rest, c, step.digest)
  {
    assert ([e] + rest)[1..] == rest;
  }

  lemma StepSha(g: Signing, user: Option<Sha>, checker: Key, c: Check, region: seq<Byte>)
    requires g.key.Some? && Pair(g.key.value, checker) && ShaChosen(g, user)
    requires c.region == region && c.key == Some(checker) && c.hash == g.hash
    ensures StepOn(c, None, ShaTlv(g.sha), g.hash(g.sha, region)) == Continue(Some(g.hash(g.sha, region)))
  {
    assert g.sha in Allowed(checker.kind);
  }

  lemma StepKey(c: Check, d: Option<seq<Byte>>, id: Entry)
    requires c.key.Some? && c.key.value.Valid() && id.kind in {KEYHASH, PUBKEY}
    ensures StepOn(c, d, id.kind, id.data) == Continue(d)
  {
  }

  lemma StepMarker(c: Check, d: Option<seq<Byte>>)
    requires c.key.Some? && c.pure
    ensures StepOn(c, d, SIG_PURE, [1]) == Continue(d)
  {
  }

  lemma StepSig(g: Signing, user: Option<Sha>, checker: Key, c: Check, region: seq<Byte>)
    requires g.key.Some? && Pair(g.key.value, checker) && ShaChosen(g, user)
    requires c.region == region && c.key == Some(checker) && c.hash == g.hash && c.pure == g.pure
    ensures
      var d := Some(g.hash(g.sha, region));
      StepOn(c, d, g.key.value.sigTlv, g.key.value.sign(Message(g, region))) ==
      Stop(if g.pure then Accepted(c.version, None, Some(g.key.value.sign(region))) else Accepted(c.version, d, None))
  {
    assert WholeImage(checker.kind) == WholeImage(g.key.value.kind);
    assert checker.verify(g.key.value.sign(Message(g, region)), Message(g, region));
  }

  /** An image made without a key is accepted with none. */
  lemma UnsignedRefused(s: Source, g: Signing, checker: Key, b: seq<Byte>)
    requires s.Valid() && HeaderFits(s) && AllVendor(s.custom) && AreaFits(SigningTlvs(g, Region(s))) && ImageOf(s, g) <= b
    requires g.key.None? && checker.Valid()
    ensures VerdictOn(b, Some(checker), g.hash) == if g.sha in Allowed(checker.kind) then InvalidSignature else KeyMismatch
  {
    hide VerdictOn, Region, ImageOf, HasPure, Message;
    VerdictOnImage(s, g, b, Some(checker));
    SigningPure(g, Region(s));
    var es, c := SigningTlvs(g, Region(s)), Check(Region(s), s.version, Some(checker), g.hash, g.pure);
    var d := Some(es[0].data);
    assert es == [es[0]] + es[1..];
    JudgeCons(es[0], es[1..], c, None);
    assert StepOn(c, None, es[0].kind, es[0].data) == if g.sha in Allowed(checker.kind) then Continue(d) else Stop(KeyMismatch);
    if g.pure {
      StepMarker(c, d);
      JudgeCons(es[1], [], c, d);
      assert es[1..] == [es[1]] + [];
    } else {
      assert es[1..] == [];
    }
  }
}
