/** The log of type-length-value entries that the bootloader leaves for the application in retained memory. */
module SharedData {
  import opened Bytes
  import opened Options
  import opened Tlv

  const MAGIC: U16 := 0x2016
  const HEADER_SIZE: nat := 4

  datatype Code = Ok | Overflow | Overwrite | GenError | WriteError | ReadError

  /** `SET_TLV_TYPE`: four bits of major and twelve of minor type. */
  function Kind(major: Byte, minor: U16): (k: U16) {
    major % 16 * 0x1000 + minor % 0x1000
  }

  /** The duplicate test compares the caller's type with the stored one field by field. */
  predicate SameKind(kind: U16, major: Byte, minor: U16) {
    kind / 0x1000 == major && kind % 0x1000 == minor
  }

  /** In range, the test is equality of the stored type; out of range it never holds, so repeats go unnoticed. */
  lemma SameKindIff(kind: U16, major: Byte, minor: U16)
    ensures major < 16 && minor < 0x1000 ==> (SameKind(kind, major, minor) <==> kind == Kind(major, minor))
    ensures major >= 16 || minor >= 0x1000 ==> !SameKind(kind, major, minor)
  {
  }

  predicate Distinct(es: seq<Entry>) {
    forall i, j :: 0 <= i < j < |es| ==> es[i].kind != es[j].kind
  }

  /** The retained memory and the bootloader's static variables. */
  class SharedArea {
    var mem: seq<Byte>
    var size: nat
    var ready: bool
    /** The entries written up to `size`, and how many of them the header in memory covers, once it is written. */
    ghost var entries: seq<Entry>
    ghost var committed: Option<nat>

    ghost predicate Valid()
      reads this
    {
      && |mem| > 8
      && (forall e :: e in entries ==> e.Valid())
      && size == HEADER_SIZE + |Encode(entries)| < 0x1_0000
      && (if ready then size <= |mem| && mem[HEADER_SIZE..size] == Encode(entries) else entries == [] && committed == None)
      && (committed.Some? ==> committed.value <= |entries| && HeaderIs(committed.value))
    }

    /** The header in memory covers the first `n` entries. */
    ghost predicate HeaderIs(n: nat)
      reads this
      requires n <= |entries| && forall e :: e in entries ==> e.Valid()
    {
      HEADER_SIZE + |Encode(entries[..n])| < 0x1_0000 && |mem| >= 4 && mem[..4] == Le16(MAGIC) + Le16(HEADER_SIZE + |Encode(entries[..n])|)
    }

    constructor (mem: seq<Byte>)
      requires |mem| > 8
      ensures Valid() && entries == [] && committed == None && !ready
    {
      this.mem, size, ready, entries, committed := mem, HEADER_SIZE, false, [], None;
    }

    /** `retention_write`: fails without effect, or writes. */
    method RetentionWrite(off: nat, d: seq<Byte>) returns (rc: int)
      requires off + |d| <= |mem|
      modifies this`mem
      ensures rc != 0 ==> mem == old(mem)
      ensures rc == 0 ==> mem == old(mem)[..off] + d + old(mem)[off + |d|..]
    {
      rc := *;
      if rc == 0 {
        mem := mem[..off] + d + mem[off + |d|..];
      }
    }

    /** A reader of the memory finds the magic and, up to the total, exactly the committed entries. */
    lemma CommittedParses()
      requires Valid() && committed.Some?
      ensures U16At(mem, 0) == MAGIC && U16At(mem, 2) <= size
      ensures Parse(mem, HEADER_SIZE, U16At(mem, 2)) == Some(entries[..committed.value])
    {
      var n := committed.value;
      var a, b := entries[..n], entries[n..];
      assert entries == a + b;
      EncodeSplit(a, b);
      var total := HEADER_SIZE + |Encode(a)|;
      HeaderFields(mem, total);
      assert mem[HEADER_SIZE..total] == mem[HEADER_SIZE..size][..|Encode(a)|] == Encode(a);
      ParseEncoded(mem, HEADER_SIZE, a);
    }

    /** `boot_add_data_to_shared_area`. An entry that reaches the log with only the header write failing is committed by
        the next add that succeeds. */
    method Add(major: Byte, minor: U16, data: Option<seq<Byte>>) returns (code: Code)
      requires Valid() && (data.Some? ==> |data.value| + 4 < 0x1_0000)
      modifies this
      ensures Valid()
      ensures code == Ok ==> data.Some? && entries == old(entries) + [Entry(Kind(major, minor), data.value)] && committed == Some(|entries|)
      ensures code != Ok ==> committed == old(committed)
      ensures entries != old(entries) ==> data.Some? && entries == old(entries) + [Entry(Kind(major, minor), data.value)]
      ensures entries != old(entries) ==> forall i :: 0 <= i < |old(entries)| ==> !SameKind(old(entries)[i].kind, major, minor)
      ensures code == Overwrite ==> exists i :: 0 <= i < |old(entries)| && SameKind(old(entries)[i].kind, major, minor)
      ensures code == Overflow ==> data.Some? && size + 4 + |data.value| > |mem|
      ensures old(Distinct(entries)) && major < 16 && minor < 0x1000 ==> Distinct(entries)
    {
      if data.None? {
        return GenError;
      }
      if !ready {
        mem := Fill(|mem|, 0);
        ready := true;
      }
      var searched := Search(major, minor);
      if searched != Ok {
        return searched;
      }
      if Distinct(entries) && major < 16 && minor < 0x1000 {
        StaysDistinct(entries, major, minor, data.value);
      }
      code := Append(Entry(Kind(major, minor), data.value));
    }

    /** The walk over the log that looks for the same type. */
    method Search(major: Byte, minor: U16) returns (code: Code)
      requires Valid() && ready
      ensures code in {Ok, Overwrite, ReadError}
      ensures code == Ok ==> forall i :: 0 <= i < |entries| ==> !SameKind(entries[i].kind, major, minor)
      ensures code == Overwrite ==> exists i :: 0 <= i < |entries| && SameKind(entries[i].kind, major, minor)
    {
      hide SameKind, EntryBytes;
      var offset := HEADER_SIZE;
      ghost var i := 0;
      assert entries[..0] == [] && entries[..|entries|] == entries;
      while offset < size
        invariant i <= |entries| && offset == HEADER_SIZE + |Encode(entries[..i])| <= size
        invariant forall j :: 0 <= j < i ==> !SameKind(entries[j].kind, major, minor)
        decreases |entries| - i
      {
        var rc: int := *;
        if rc != 0 {
          return ReadError;
        }
        EntryAt(mem, HEADER_SIZE, entries, i);
        if SameKind(U16At(mem, offset), major, minor) {
          return Overwrite;
        }
        offset := offset + 4 + U16At(mem, offset + 2);
        i := i + 1;
      }
      if i < |entries| {
        EntryAt(mem, HEADER_SIZE, entries, i);
      }
      return Ok;
    }

    /** The three writes: entry header, data, area header. */
    method Append(e: Entry) returns (code: Code)
      requires Valid() && ready && |e.data| + 4 < 0x1_0000
      modifies this`mem, this`size, this`entries, this`committed
      ensures Valid() && code in {Ok, GenError, Overflow, WriteError}
      ensures entries == old(entries) || entries == old(entries) + [e]
      ensures code == Ok ==> entries == old(entries) + [e] && committed == Some(|entries|)
      ensures code != Ok ==> committed == old(committed)
      ensures code == Overflow ==> size + 4 + |e.data| > |mem|
    {
      hide Encode, HeaderIs, EntryBytes;
      if size + 4 + |e.data| > 0xFFFF {
        return GenError;
      }
      if size + 4 + |e.data| > |mem| {
        return Overflow;
      }
      var rc := PutEntry(e);
      if rc != 0 {
        return WriteError;
      }
      Grow(e);
      rc := PutHeader();
      return if rc != 0 then WriteError else Ok;
    }

    /** Entry header and data go behind the log, which does not reach there yet. */
    method PutEntry(e: Entry) returns (rc: int)
      requires Valid() && ready && e.Valid() && size + 4 + |e.data| <= |mem|
      modifies this`mem
      ensures Valid() && |mem| == |old(mem)|
      ensures rc == 0 ==> mem[size..size + 4 + |e.data|] == EntryBytes(e)
    {
      hide Encode, Le16;
      rc := RetentionWrite(size, Le16(e.kind) + Le16(|e.data|));
      assert mem[..size] == old(mem)[..size];
      LogUnmoved(old(mem), mem, size);
      if rc == 0 {
        ghost var mem1 := mem;
        assert mem1[size..size + 4] == Le16(e.kind) + Le16(|e.data|);
        rc := RetentionWrite(size + 4, e.data);
        assert mem[..size + 4] == mem1[..size + 4];
        LogUnmoved(mem1, mem, size + 4);
        if rc == 0 {
          assert mem[size..size + 4 + |e.data|] == mem1[size..size + 4] + e.data;
        }
      }
    }

    /** The log now includes the entry just written. */
    method Grow(e: Entry)
      requires Valid() && ready && e.Valid() && size + 4 + |e.data| <= |mem| && size + 4 + |e.data| < 0x1_0000
      requires mem[size..size + 4 + |e.data|] == EntryBytes(e)
      modifies this`size, this`entries
      ensures Valid() && entries == old(entries) + [e] && size == old(size) + 4 + |e.data|
    {
      hide EntryBytes, Le16;
      EncodeLast(entries, e);
      assert mem[HEADER_SIZE..size + 4 + |e.data|] == mem[HEADER_SIZE..size] + mem[size..size + 4 + |e.data|];
      if committed.Some? {
        assert (entries + [e])[..committed.value] == entries[..committed.value];
      }
      size := size + 4 + |e.data|;
      entries := entries + [e];
    }

    /** The area header, covering the whole log. */
    method PutHeader() returns (rc: int)
      requires Valid() && ready
      modifies this`mem, this`committed
      ensures Valid() && |mem| == |old(mem)|
      ensures committed == if rc == 0 then Some(|entries|) else old(committed)
    {
      hide Encode, Le16;
      rc := RetentionWrite(0, Le16(MAGIC) + Le16(size));
      if rc == 0 {
        assert mem[HEADER_SIZE..size] == old(mem)[HEADER_SIZE..size];
        assert entries[..|entries|] == entries;
        committed := Some(|entries|);
      }
    }
  }

  lemma LogUnmoved(m: seq<Byte>, m': seq<Byte>, n: nat)
    requires 4 <= n <= |m| == |m'| && m'[..n] == m[..n]
    ensures m'[..4] == m[..4]
    ensures forall k :: 4 <= k <= n ==> m'[4..k] == m[4..k]
  {
    assert m'[..4] == m'[..n][..4];
    assert m[..4] == m[..n][..4];
    forall k | 4 <= k <= n
      ensures m'[4..k] == m[4..k]
    {
      assert m'[4..k] == m'[..n][4..k] && m[4..k] == m[..n][4..k];
    }
  }

  /** In-range types stay distinct: the new entry passed the duplicate test. */
  lemma StaysDistinct(es: seq<Entry>, major: Byte, minor: U16, data: seq<Byte>)
    requires Distinct(es) && major < 16 && minor < 0x1000
    requires forall i :: 0 <= i < |es| ==> !SameKind(es[i].kind, major, minor)
    ensures Distinct(es + [Entry(Kind(major, minor), data)])
  {
    forall i | 0 <= i < |es|
      ensures es[i].kind != Kind(major, minor)
    {
      SameKindIff(es[i].kind, major, minor);
    }
  }

  lemma HeaderFields(mem: seq<Byte>, total: U16)
    requires |mem| >= 4 && mem[..4] == Le16(MAGIC) + Le16(total)
    ensures U16At(mem, 0) == MAGIC && U16At(mem, 2) == total
  {
    var h := mem[..4];
    assert mem[0..2] == h[0..2] == Le16(MAGIC) && mem[2..4] == h[2..4] == Le16(total);
    ReadLe16(mem, 0, MAGIC);
    ReadLe16(mem, 2, total);
  }
}
