/** UF2 extension tags: the bootloader's scanner and the host tool's packer. */
module Uf2Tags {
  import opened Bytes
  import opened Options
  import opened Uf2Format

  datatype Tag = Tag(kind: U24, payload: seq<Byte>)

  /** How the walk over the records ends: at the zero record, or at a record that does not fit. */
  datatype Ending = Terminated | Truncated

  datatype TagArea = TagArea(tags: seq<Tag>, ending: Ending)

  /** Outcome of a lookup. `OutOfField` is the read outside the data field that 32-bit wrap-around allows. */
  datatype Lookup = Found(payload: seq<Byte>) | Absent | Malformed | OutOfField

  /** All the records from `off` on, read without looking for any particular type. */
  function ParseTags(data: Data, off: nat): (area: TagArea)
    decreases DATA_SIZE - off
  {
    if off + 4 > DATA_SIZE then TagArea([], Truncated)
    else if data[off] == 0 then TagArea([], Terminated)
    else if data[off] < 4 || off + data[off] > DATA_SIZE then TagArea([], Truncated)
    else
      var rest := ParseTags(data, off + RoundUp(data[off], 4));
      TagArea([Tag(U24At(data, off + 1), data[off + 4..off + data[off]])] + rest.tags, rest.ending)
  }

  /** The payload of the first record of type `kind`. */
  function First(tags: seq<Tag>, kind: U24): (p: Option<seq<Byte>>)
    ensures p.None? <==> forall i :: 0 <= i < |tags| ==> tags[i].kind != kind
    ensures p.Some? ==> exists i :: 0 <= i < |tags| && tags[i] == Tag(kind, p.value) && forall j :: 0 <= j < i ==> tags[j].kind != kind
  {
    if tags == [] then None
    else if tags[0].kind == kind then
      assert tags[0] == Tag(kind, tags[0].payload);
      Some(tags[0].payload)
    else
      var p := First(tags[1..], kind);
      assert p.Some? ==> exists i :: 1 <= i < |tags| && tags[i] == Tag(kind, p.value) && forall j :: 0 <= j < i ==> tags[j].kind != kind by {
        if p.Some? {
          var i :| 0 <= i < |tags| - 1 && tags[1..][i] == Tag(kind, p.value) && forall j :: 0 <= j < i ==> tags[1..][j].kind != kind;
          assert tags[i + 1] == Tag(kind, p.value) && forall j :: 1 <= j < i + 1 ==> tags[j] == tags[1..][j - 1];
        }
      }
      assert forall i :: 1 <= i < |tags| ==> tags[i] == tags[1..][i - 1];
      p
  }

  function LookupIn(area: TagArea, kind: U24): (r: Lookup)
  {
    match First(area.tags, kind)
    case Some(p) => Found(p)
    case None => if area.ending.Terminated? then Absent else Malformed
  }

  /** What the scanner answers, said through the whole record list. */
  function FindTag(b: Block, kind: U24): (r: Lookup)
  {
    if !b.HasTags() then Absent
    else if b.payloadSize + 4 >= WORD then OutOfField
    else LookupIn(ParseTags(b.data, b.payloadSize), kind)
  }

  /** `uf2_find_ext_tag`: advance an offset over the records until the type matches. */
  method FindExtTag(b: Block, kind: U24) returns (r: Lookup)
    ensures r == FindTag(b, kind)
  {
    if !b.HasTags() {
      return Absent;
    }
    var off: U32 := b.payloadSize;
    while Add32(off, 4) <= DATA_SIZE
      invariant off == b.payloadSize || off + 4 < WORD
      invariant b.payloadSize + 4 < WORD ==> FindTag(b, kind) == LookupIn(ParseTags(b.data, off), kind)
      invariant b.payloadSize + 4 >= WORD ==> off == b.payloadSize
      decreases DATA_SIZE - off
    {
      if off >= DATA_SIZE {
        return OutOfField;
      }
      var sz := b.data[off];
      if sz == 0 {
        return Absent;
      }
      if sz < 4 || off + sz > DATA_SIZE {
        return Malformed;
      }
      if U24At(b.data, off + 1) == kind {
        return Found(b.data[off + 4..off + sz]);
      }
      LookupSkips(b.data, off, kind);
      off := off + RoundUp(sz, 4);
    }
    return Malformed;
  }

  /** A record of another type does not decide the lookup. */
  lemma LookupSkips(data: Data, off: nat, kind: U24)
    requires off + 4 <= DATA_SIZE && data[off] >= 4 && off + data[off] <= DATA_SIZE
    requires U24At(data, off + 1) != kind
    ensures LookupIn(ParseTags(data, off), kind) == LookupIn(ParseTags(data, off + RoundUp(data[off], 4)), kind)
  {
    var area, rest := ParseTags(data, off), ParseTags(data, off + RoundUp(data[off], 4));
    assert area.tags[1..] == rest.tags;
  }

  /** The scanner stays inside the data field exactly when its first index does not wrap. */
  lemma InFieldIff(b: Block, kind: U24)
    ensures FindTag(b, kind).OutOfField? <==> b.HasTags() && b.payloadSize >= WORD - 4
  {
  }

  /** One entry of the host tool's tag list; nothing is known of the type yet. */
  datatype Spec = Spec(kind: int, payload: seq<Byte>)

  predicate Packable(s: Spec) {
    0 <= s.kind < 0x100_0000 && 4 + |s.payload| <= 255
  }

  /** `pack_extension_tag`; `None` is the ValueError. */
  function PackTag(s: Spec): (r: Option<seq<Byte>>)
    ensures r.Some? <==> Packable(s)
    ensures r.Some? ==> |r.value| == RoundUp(4 + |s.payload|, 4)
  {
    if 4 + |s.payload| > 255 || !(0 <= s.kind < 0x100_0000) then None
    else
      var rec := [4 + |s.payload|] + Le24(s.kind) + s.payload;
      Some(rec + Fill(RoundUp(|rec|, 4) - |rec|, 0))
  }

  /** The packed records, without terminator. */
  function Records(specs: seq<Spec>): (b: seq<Byte>)
    requires forall s :: s in specs ==> Packable(s)
  {
    if specs == [] then [] else PackTag(specs[0]).value + Records(specs[1..])
  }

  const TERMINATOR: seq<Byte> := [0, 0, 0, 0]

  /** `build_extension_blob`; `None` when some tag raised ValueError. */
  method BuildExtensionBlob(specs: seq<Spec>) returns (r: Option<seq<Byte>>)
    ensures r.Some? <==> forall s :: s in specs ==> Packable(s)
    ensures r.Some? ==> r.value == Records(specs) + TERMINATOR
  {
    var blob: seq<Byte> := [];
    for i := 0 to |specs|
      invariant forall j :: 0 <= j < i ==> Packable(specs[j])
      invariant blob == Records(specs[..i])
    {
      var rec := PackTag(specs[i]);
      if rec.None? {
        return None;
      }
      RecordsAppend(specs[..i], specs[i]);
      assert specs[..i + 1] == specs[..i] + [specs[i]];
      blob := blob + rec.value;
    }
    assert specs[..|specs|] == specs;
    return Some(blob + TERMINATOR);
  }

  lemma {:induction false} RecordsAppend(specs: seq<Spec>, s: Spec)
    requires forall t :: t in specs ==> Packable(t)
    requires Packable(s)
    ensures Records(specs + [s]) == Records(specs) + PackTag(s).value
  {
    if specs == [] {
      assert specs + [s] == [s];
    } else {
      assert (specs + [s])[1..] == specs[1..] + [s];
      RecordsAppend(specs[1..], s);
    }
  }

  function TagsOf(specs: seq<Spec>): (tags: seq<Tag>)
    requires forall s :: s in specs ==> Packable(s)
    ensures |tags| == |specs|
  {
    if specs == [] then [] else assert Packable(specs[0]); [Tag(specs[0].kind, specs[0].payload)] + TagsOf(specs[1..])
  }

  /** One packed record, where the scanner meets it: size byte, type and payload. */
  lemma RecordFields(data: Data, off: nat, s: Spec)
    requires Packable(s) && off + RoundUp(4 + |s.payload|, 4) <= DATA_SIZE
    requires data[off..off + RoundUp(4 + |s.payload|, 4)] == PackTag(s).value
    ensures data[off] == 4 + |s.payload|
    ensures U24At(data, off + 1) == s.kind
    ensures data[off + 4..off + data[off]] == s.payload
  {
    var rec := PackTag(s).value;
    var sz := 4 + |s.payload|;
    var area := data[off..off + RoundUp(sz, 4)];
    assert data[off] == area[0] == rec[0] == sz;
    assert data[off + 1..off + 4] == area[1..4] == rec[1..4] == Le24(s.kind);
    ReadLe24(data, off + 1, s.kind);
    assert data[off + 4..off + sz] == area[4..sz] == rec[4..sz] == s.payload;
  }

  /** Scanning a packed list anywhere in the data field gives back the list, ended by its terminator. */
  lemma {:induction false} PackedListParses(data: Data, off: nat, specs: seq<Spec>)
    requires forall s :: s in specs ==> Packable(s)
    requires off + |Records(specs)| + 4 <= DATA_SIZE
    requires data[off..off + |Records(specs)| + 4] == Records(specs) + TERMINATOR
    ensures ParseTags(data, off) == TagArea(TagsOf(specs), Terminated)
    decreases |specs|
  {
    var area := data[off..off + |Records(specs)| + 4];
    if specs == [] {
      assert data[off] == area[0];
    } else {
      var rec, rest := PackTag(specs[0]).value, specs[1..];
      assert area == rec + (Records(rest) + TERMINATOR);
      assert data[off..off + |rec|] == area[..|rec|];
      RecordFields(data, off, specs[0]);
      assert data[off + |rec|..off + |rec| + |Records(rest)| + 4] == area[|rec|..];
      PackedListParses(data, off + |rec|, rest);
    }
  }

  /** The tool's blob read by the bootloader: the first spec of the type, or absent; never malformed. */
  lemma TagRoundTrip(b: Block, specs: seq<Spec>, kind: U24)
    requires forall s :: s in specs ==> Packable(s)
    requires b.HasTags() && b.payloadSize + |Records(specs)| + 4 <= DATA_SIZE
    requires b.data[b.payloadSize..b.payloadSize + |Records(specs)| + 4] == Records(specs) + TERMINATOR
    ensures FindTag(b, kind) == (match First(TagsOf(specs), kind) case Some(p) => Found(p) case None => Absent)
  {
    PackedListParses(b.data, b.payloadSize, specs);
  }
}
