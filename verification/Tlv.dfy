/** Little-endian type-length-value records: the form of image TLVs and of the shared boot data. */
module Tlv {
  import opened Bytes
  import opened Options

  datatype Entry = Entry(kind: U16, data: seq<Byte>) {
    predicate Valid() {
      |data| < 0x1_0000
    }
  }

  function EntryBytes(e: Entry): (b: seq<Byte>)
    requires e.Valid()
    ensures |b| == 4 + |e.data|
  {
    Le16(e.kind) + Le16(|e.data|) + e.data
  }

  function Encode(es: seq<Entry>): (b: seq<Byte>)
    requires forall e :: e in es ==> e.Valid()
  {
    if es == [] then []
    else assert es[|es| - 1] in es; Encode(es[..|es| - 1]) + EntryBytes(es[|es| - 1])
  }

  /** The reader: entries from `off` up to exactly `end`; `None` when they do not end there. */
  function Parse(mem: seq<Byte>, off: nat, end: nat): (r: Option<seq<Entry>>)
    requires end <= |mem|
    decreases end - off
  {
    if off == end then Some([])
    else if off + 4 > end then None
    else
      var len := U16At(mem, off + 2);
      if off + 4 + len > end then None
      else
        match Parse(mem, off + 4 + len, end)
        case None => None
        case Some(rest) => Some([Entry(U16At(mem, off), mem[off + 4..off + 4 + len])] + rest)
  }

  lemma {:induction false} EncodeSplit(a: seq<Entry>, b: seq<Entry>)
    requires forall e :: e in a + b ==> e.Valid()
    ensures (forall e :: e in a ==> e.Valid()) && (forall e :: e in b ==> e.Valid())
    ensures Encode(a + b) == Encode(a) + Encode(b)
    decreases |b|
  {
    assert forall e :: e in a ==> e in a + b;
    assert forall e :: e in b ==> e in a + b;
    if b == [] {
      assert a + b == a;
    } else {
      var init, last := b[..|b| - 1], b[|b| - 1];
      assert (a + b)[..|a + b| - 1] == a + init;
      assert (a + b)[|a + b| - 1] == last;
      assert forall e :: e in a + init ==> e in a + b;
      EncodeSplit(a, init);
    }
  }

  /** What the reader finds where entries were written is those entries. */
  lemma {:induction false} ParseEncoded(mem: seq<Byte>, off: nat, es: seq<Entry>)
    requires forall e :: e in es ==> e.Valid()
    requires off + |Encode(es)| <= |mem| && mem[off..off + |Encode(es)|] == Encode(es)
    ensures Parse(mem, off, off + |Encode(es)|) == Some(es)
    decreases |es|
  {
    hide EntryBytes, U16At, Encode;
    if es == [] {
      EncodeNone();
    } else {
      var first, rest := es[0], es[1..];
      assert es == [first] + rest;
      EncodeSplit([first], rest);
      EncodeOne(first);
      var n, k := |Encode(es)|, 4 + |first.data|;
      Slice(mem, off, n, 0, k);
      Slice(mem, off, n, k, n);
      EntryFields(mem, off, first);
      ParseEncoded(mem, off + k, rest);
    }
  }

  lemma EncodeNone()
    ensures Encode([]) == []
  {
  }

  lemma EncodeOne(e: Entry)
    requires e.Valid()
    ensures Encode([e]) == EntryBytes(e)
  {
    assert Encode([e]) == Encode([]) + EntryBytes(e);
  }

  /** A slice of a slice. */
  lemma Slice(m: seq<Byte>, off: nat, n: nat, i: nat, j: nat)
    requires off + n <= |m| && i <= j <= n
    ensures m[off..off + n][i..j] == m[off + i..off + j]
  {
    var part := m[off..off + n];
    assert forall k :: i <= k < j ==> part[k] == m[off + k];
    assert forall k :: 0 <= k < j - i ==> part[i..j][k] == m[off + i..off + j][k];
  }

  lemma EntryFields(mem: seq<Byte>, off: nat, e: Entry)
    requires e.Valid() && off + 4 + |e.data| <= |mem| && mem[off..off + 4 + |e.data|] == EntryBytes(e)
    ensures U16At(mem, off) == e.kind && U16At(mem, off + 2) == |e.data| && mem[off + 4..off + 4 + |e.data|] == e.data
  {
    hide Le16;
    var b := EntryBytes(e);
    assert b[0..2] == Le16(e.kind) && b[2..4] == Le16(|e.data|) && b[4..] == e.data;
    assert forall k :: 0 <= k < |b| ==> mem[off + k] == mem[off..off + 4 + |e.data|][k] == b[k];
    assert mem[off..off + 2] == b[0..2];
    assert mem[off + 2..off + 4] == b[2..4];
    ReadLe16(mem, off, e.kind);
    ReadLe16(mem, off + 2, |e.data|);
    assert mem[off + 4..off + 4 + |e.data|] == b[4..];
  }

  /** The entry at index `i` is where the walk over the memory meets it. */
  lemma EntryAt(mem: seq<Byte>, base: nat, es: seq<Entry>, i: nat)
    requires (forall e :: e in es ==> e.Valid()) && i < |es|
    requires base + |Encode(es)| <= |mem| && mem[base..base + |Encode(es)|] == Encode(es)
    ensures
      var off := base + |Encode(es[..i])|;
      && off + 4 + |es[i].data| <= base + |Encode(es)|
      && U16At(mem, off) == es[i].kind && U16At(mem, off + 2) == |es[i].data|
      && off + 4 + |es[i].data| == base + |Encode(es[..i + 1])|
  {
    hide EntryBytes, U16At, Encode;
    var a, b, e := es[..i], es[i + 1..], es[i];
    assert es == (a + [e]) + b && es[..i + 1] == a + [e];
    EncodeSplit(a + [e], b);
    EncodeLast(a, e);
    var n, k := |Encode(es)|, |Encode(a)|;
    assert Encode(es)[k..k + 4 + |e.data|] == EntryBytes(e);
    Slice(mem, base, n, k, k + 4 + |e.data|);
    EntryFields(mem, base + k, e);
  }

  lemma EncodeLast(a: seq<Entry>, e: Entry)
    requires forall x :: x in a + [e] ==> x.Valid()
    ensures (forall x :: x in a ==> x.Valid()) && e.Valid() && Encode(a + [e]) == Encode(a) + EntryBytes(e)
  {
    assert forall x :: x in a ==> x in a + [e];
    assert (a + [e])[|a|] == e && (a + [e])[..|a|] == a;
  }
}
