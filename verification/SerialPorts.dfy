/** The serial console over the buffer pool: raw fragments and newline-terminated lines, with the interrupt striking
    anywhere outside the reader's locked section. */
module SerialPorts {
  import opened Bytes
  import opened Options
  import opened SerialPool

  function Flat(q: seq<seq<Byte>>): (s: seq<Byte>)
  {
    if q == [] then [] else q[0] + Flat(q[1..])
  }

  lemma {:induction false} FlatAppend(q: seq<seq<Byte>>, x: seq<Byte>)
    ensures Flat(q + [x]) == Flat(q) + x
  {
    if q == [] {
      assert q + [x] == [x];
      assert Flat([x]) == x + Flat([]) == x;
    } else {
      assert (q + [x])[1..] == q[1..] + [x];
      FlatAppend(q[1..], x);
    }
  }

  /** What can happen, in any order: an interrupt with these bytes (or batches) in the FIFO, the reader's locked section if
      it needs a new buffer, and the rest of a `console_read` into a buffer of this size. */
  datatype Event = Irq(batches: seq<seq<Byte>>) | Lock | Copy(size: nat)

  function Stream(events: seq<Event>): (s: seq<Byte>)
  {
    if events == [] then []
    else Stream(events[..|events| - 1]) + (if events[|events| - 1].Irq? then Flat(events[|events| - 1].batches) else [])
  }

  // ----- raw protocol -----

  class RawPort {
    var pool: Pool
    var cur: nat
    /** The reader has left the locked section and not yet taken over the buffer. */
    var fetched: bool
    var pendingOff: nat
    var pendingLen: nat
    /** Every byte stored, and every byte handed to the caller. */
    ghost var stored: seq<Byte>
    ghost var read: seq<Byte>

    /** What the reader holds and has not handed on yet. */
    ghost function Tail(): (s: seq<Byte>)
      reads this
      requires pool.held.Some? ==> pool.held.value < |pool.data| && pendingOff <= |pool.data[pool.held.value]|
    {
      if pool.held.None? then [] else if fetched then pool.data[pool.held.value] else pool.data[pool.held.value][pendingOff..]
    }

    ghost predicate Valid()
      reads this
    {
      Consistent() && cur < pool.max
    }

    /** As `Valid`, but the current buffer may just have become full. */
    ghost predicate Consistent()
      reads this
    {
      && pool.Valid()
      && cur == |pool.Partial()|
      && (pool.held.Some? ==> pendingOff <= |pool.data[pool.held.value]| && (!fetched ==> pendingOff + pendingLen == |pool.data[pool.held.value]|))
      && (pool.held.None? || fetched ==> pendingLen == 0)
      && (fetched ==> pendingOff == 0)
      && stored == read + Tail() + Flat(pool.Queued()) + pool.Partial()
    }

    constructor (bufs: nat, max: nat)
      requires 1 <= max
      ensures Valid() && stored == [] && read == [] && !fetched
    {
      pool, cur, fetched, pendingOff, pendingLen, stored, read := Init(bufs, max), 0, false, 0, 0, [], [];
      new;
      InitValid(bufs, max);
    }

    /** `boot_uart_fifo_callback` in raw mode, with these bytes in the FIFO. When no buffer is left, the byte just read is
        lost and the rest stays in the FIFO. */
    method Callback(fifo: seq<Byte>) returns (consumed: nat, dry: bool)
      requires Valid()
      modifies this`pool, this`cur, this`stored
      ensures Valid() && HeldUntouched(old(pool), pool)
      ensures !dry ==> consumed == |fifo| && stored == old(stored) + fifo && pool.cmd.None?
      ensures dry ==> 0 < consumed <= |fifo| && stored == old(stored) + fifo[..consumed - 1]
    {
      hide Pool.Valid, Flat, Tail, HeldUntouched;
      HeldInRange();
      consumed := 0;
      while consumed < |fifo|
        invariant consumed <= |fifo|
        invariant Valid() && HeldUntouched(old(pool), pool)
        invariant stored == old(stored) + fifo[..consumed]
      {
        var byte := fifo[consumed];
        consumed := consumed + 1;
        if pool.cmd.None? {
          if pool.avail == [] {
            return consumed, true;
          }
          ghost var was := pool;
          TakeBuffer();
          StillUntouched(old(pool), was, pool);
        }
        ghost var was := pool;
        StoreOne(byte);
        StillUntouched(old(pool), was, pool);
        assert fifo[..consumed] == fifo[..consumed - 1] + [byte];
      }
      dry := false;
      assert fifo[..|fifo|] == fifo;
      if pool.cmd.Some? {
        ghost var was := pool;
        PublishCurrent();
        StillUntouched(old(pool), was, pool);
      }
    }

    lemma HeldInRange()
      requires Valid()
      ensures HeldUntouched(pool, pool)
    {
    }

    method TakeBuffer()
      requires Valid() && pool.cmd.None? && pool.avail != []
      modifies this`pool
      ensures Valid() && pool.cmd.Some? && HeldUntouched(old(pool), pool)
    {
      TakeKeeps(pool);
      pool := pool.Take();
    }

    /** One byte into the current buffer, published when full. */
    method StoreOne(byte: Byte)
      requires Valid() && pool.cmd.Some?
      modifies this`pool, this`cur, this`stored
      ensures Valid() && HeldUntouched(old(pool), pool) && stored == old(stored) + [byte]
    {
      hide Pool.Partitioned, Flat, Pool.Queued;
      StoreKeeps(pool, [byte]);
      pool := pool.Store([byte]);
      cur := cur + 1;
      stored := stored + [byte];
      if cur >= pool.max {
        PublishCurrent();
      }
    }

    method PublishCurrent()
      requires Consistent() && pool.cmd.Some?
      modifies this`pool, this`cur
      ensures Valid() && HeldUntouched(old(pool), pool) && pool.cmd.None?
    {
      hide Pool.Partitioned;
      PublishKeeps(pool);
      FlatAppend(pool.Queued(), pool.Partial());
      pool := pool.Publish();
      cur := 0;
    }

    /** The locked section of `boot_uart_fifo_getline`, entered when nothing is pending. */
    method Lock()
      requires Valid() && !fetched
      modifies this`pool, this`fetched, this`pendingOff
      ensures Valid() && (pendingLen == 0 <==> fetched)
    {
      hide Pool.Partitioned, Pool.Fetch, Pool.Queued, Pool.Partial;
      if pendingLen == 0 {
        FetchKeeps(pool);
        ghost var q := pool.Queued();
        pool := pool.Fetch();
        assert q != [] ==> q[1..] == pool.Queued();
        fetched, pendingOff := true, 0;
      }
    }

    /** The rest of `console_read_raw`. */
    method Copy(size: nat) returns (out: seq<Byte>, newline: bool)
      requires Valid() && (fetched || pendingLen > 0)
      modifies this`fetched, this`pendingOff, this`pendingLen, this`read
      ensures Valid() && !fetched
      ensures read == old(read) + out && |out| <= size
      ensures newline <==> pool.held.Some?
    {
      hide Pool.Partitioned, Flat, Pool.Queued, Pool.Partial;
      if fetched {
        fetched := false;
        if pool.held.None? {
          return [], false;
        }
        pendingLen := |pool.data[pool.held.value]|;
        assert pool.data[pool.held.value][0..] == pool.data[pool.held.value];
      }
      out := HandOver(size);
      newline := true;
    }

    /** As much of the pending bytes as fits. */
    method HandOver(size: nat) returns (out: seq<Byte>)
      requires Valid() && !fetched && pool.held.Some?
      modifies this`pendingOff, this`pendingLen, this`read
      ensures Valid() && read == old(read) + out && |out| <= size
    {
      hide Pool.Partitioned, Flat, Pool.Queued, Pool.Partial;
      var n := if pendingLen < size then pendingLen else size;
      ghost var tail := Tail();
      out := pool.data[pool.held.value][pendingOff..pendingOff + n];
      pendingOff, pendingLen := pendingOff + n, pendingLen - n;
      assert tail == out + Tail();
      assert read + tail == read + out + Tail();
      read := read + out;
    }
  }

  /** Any interleaving: while no buffer shortage lost a byte, what the reads returned is a prefix of what was received. */
  method DriveRaw(port: RawPort, events: seq<Event>) returns (out: seq<Byte>, dry: bool)
    requires port.Valid() && port.stored == [] && port.read == [] && !port.fetched
    modifies port
    ensures port.Valid()
    ensures !dry ==> out <= Stream(events)
  {
    hide RawPort.Valid, Flat;
    out, dry := [], false;
    var i := 0;
    while i < |events|
      invariant i <= |events| && port.Valid() && out == port.read
      invariant !dry ==> port.stored == Stream(events[..i])
    {
      ghost var before := events[..i];
      assert events[..i + 1] == before + [events[i]];
      assert (before + [events[i]])[..i] == before;
      match events[i] {
        case Irq(batches) =>
          var consumed, lost := port.Callback(Flat(batches));
          dry := dry || lost;
        case Lock =>
          if !port.fetched {
            port.Lock();
          }
        case Copy(size) =>
          if port.fetched || port.pendingLen > 0 {
            var part, newline := port.Copy(size);
            out := out + part;
          }
      }
      i := i + 1;
    }
    assert events[..|events|] == events;
    ReadIsPrefix(port);
  }

  lemma ReadIsPrefix(port: RawPort)
    requires port.Valid()
    ensures port.read <= port.stored
  {
  }

  // ----- line protocol -----

  const NEWLINE: Byte := 10

  /** The lines a byte stream makes, one byte at a time: those completed, each cut to `max` bytes, and the one begun. */
  function LinesOf(max: nat, s: seq<Byte>): (r: (seq<seq<Byte>>, seq<Byte>))
    ensures |r.1| <= max
  {
    if s == [] then ([], [])
    else
      var (done, begun) := LinesOf(max, s[..|s| - 1]);
      var b := s[|s| - 1];
      var more := if |begun| < max then begun + [b] else begun;
      if b == NEWLINE then (done + [more], []) else (done, more)
  }

  function Cut(max: nat, s: seq<Byte>): (r: seq<Byte>) {
    if |s| <= max then s else s[..max]
  }

  /** Bytes up to a newline, fed at once. */
  lemma {:induction false} FeedChunk(max: nat, s: seq<Byte>, chunk: seq<Byte>)
    requires chunk != [] && forall i :: 0 <= i < |chunk| - 1 ==> chunk[i] != NEWLINE
    ensures
      var (done, begun) := LinesOf(max, s);
      var more := Cut(max, begun + chunk);
      LinesOf(max, s + chunk) == if chunk[|chunk| - 1] == NEWLINE then (done + [more], []) else (done, more)
    decreases |chunk|
  {
    var last := chunk[|chunk| - 1];
    var init := chunk[..|chunk| - 1];
    assert (s + chunk)[..|s + chunk| - 1] == s + init;
    var begun := LinesOf(max, s).1;
    assert begun + chunk == begun + init + [last];
    CutAppend(max, begun + init, last);
    if init == [] {
      assert s + init == s && begun + init == begun;
    } else {
      FeedChunk(max, s, init);
    }
  }

  lemma CutAppend(max: nat, x: seq<Byte>, b: Byte)
    ensures Cut(max, x + [b]) == if |Cut(max, x)| < max then Cut(max, x) + [b] else Cut(max, x)
  {
    if |x| >= max {
      assert (x + [b])[..max] == x[..max];
    }
  }

  class LinePort {
    var pool: Pool
    var cur: nat
    var fetched: bool
    /** Every byte taken in, and every line handed to the caller, whole. */
    ghost var stored: seq<Byte>
    ghost var lines: seq<seq<Byte>>

    /** A line fetched and not yet handed on. */
    ghost function InHand(): (q: seq<seq<Byte>>)
      reads this
      requires pool.held.Some? ==> pool.held.value < |pool.data|
    {
      if fetched && pool.held.Some? then [pool.data[pool.held.value]] else []
    }

    ghost predicate Valid()
      reads this
    {
      && pool.Valid()
      && cur == |pool.Partial()|
      && LinesOf(pool.max, stored) == (lines + InHand() + pool.Queued(), pool.Partial())
    }

    constructor (bufs: nat, max: nat)
      requires 1 <= max
      ensures Valid() && stored == [] && lines == [] && !fetched && pool.max == max
    {
      pool, cur, fetched, stored, lines := Init(bufs, max), 0, false, [], [];
      new;
      InitValid(bufs, max);
      assert lines + InHand() + pool.Queued() == [];
    }

    method TakeBuffer()
      requires Valid() && pool.cmd.None? && pool.avail != []
      modifies this`pool
      ensures Valid() && pool.cmd.Some? && pool.max == old(pool.max) && HeldUntouched(old(pool), pool)
    {
      TakeKeeps(pool);
      pool := pool.Take();
    }

    /** One pass of the batch loop: a chunk up to and including a newline, or the rest of the batch. */
    method StoreChunk(chunk: seq<Byte>)
      requires Valid() && pool.cmd.Some?
      requires chunk != [] && forall i :: 0 <= i < |chunk| - 1 ==> chunk[i] != NEWLINE
      modifies this`pool, this`cur, this`stored
      ensures Valid() && stored == old(stored) + chunk && pool.max == old(pool.max) && HeldUntouched(old(pool), pool)
    {
      hide Pool.Partitioned, LinesOf, Pool.Queued;
      var room := pool.max - cur;
      var copy := chunk[..if |chunk| < room then |chunk| else room];
      FeedChunk(pool.max, stored, chunk);
      assert Cut(pool.max, pool.Partial() + chunk) == pool.Partial() + copy;
      StoreKeeps(pool, copy);
      pool := pool.Store(copy);
      cur := cur + |copy|;
      stored := stored + chunk;
      if chunk[|chunk| - 1] == NEWLINE {
        PublishKeeps(pool);
        ghost var q := pool.Queued() + [pool.Partial()];
        assert lines + InHand() + q == lines + InHand() + pool.Queued() + [pool.Partial()];
        pool := pool.Publish();
        cur := 0;
      }
    }

    lemma HeldInRange()
      requires Valid()
      ensures HeldUntouched(pool, pool)
    {
    }

    /** Position after the next newline from `p` on, or the end: the `memchr` of the callback. */
    method ChunkEnd(batch: seq<Byte>, p: nat) returns (e: nat)
      requires p < |batch|
      ensures p < e <= |batch| && (forall i :: p <= i < e - 1 ==> batch[i] != NEWLINE) && (batch[e - 1] == NEWLINE || e == |batch|)
    {
      e := p + 1;
      while e < |batch| && batch[e - 1] != NEWLINE
        invariant p < e <= |batch| && forall i :: p <= i < e - 1 ==> batch[i] != NEWLINE
      {
        e := e + 1;
      }
    }

    /** `boot_uart_fifo_callback` on one batch. When no buffer is left the rest of the batch is lost. */
    method Batch(batch: seq<Byte>) returns (dry: bool)
      requires Valid()
      modifies this`pool, this`cur, this`stored
      ensures Valid() && pool.max == old(pool.max) && HeldUntouched(old(pool), pool)
      ensures !dry ==> stored == old(stored) + batch
    {
      hide Valid, HeldUntouched;
      HeldInRange();
      var p := 0;
      while p < |batch|
        invariant p <= |batch| && Valid() && pool.max == old(pool.max) && HeldUntouched(old(pool), pool)
        invariant stored == old(stored) + batch[..p]
      {
        if pool.cmd.None? {
          if pool.avail == [] {
            return true;
          }
          ghost var was := pool;
          TakeBuffer();
          StillUntouched(old(pool), was, pool);
        }
        var e := ChunkEnd(batch, p);
        ghost var was := pool;
        StoreChunk(batch[p..e]);
        StillUntouched(old(pool), was, pool);
        assert batch[..e] == batch[..p] + batch[p..e];
        p := e;
      }
      assert batch[..|batch|] == batch;
      return false;
    }

    /** The locked section of `boot_uart_fifo_getline`. */
    method Lock()
      requires Valid() && !fetched
      modifies this`pool, this`fetched
      ensures Valid() && fetched && pool.max == old(pool.max)
    {
      hide Pool.Partitioned, Pool.Fetch, LinesOf, Pool.Queued, Pool.Partial;
      FetchKeeps(pool);
      ghost var q := pool.Queued();
      pool := pool.Fetch();
      fetched := true;
      assert lines + [] + q == lines + InHand() + pool.Queued();
    }

    /** The rest of `console_read`; the count includes the terminating NUL. */
    method Copy(size: nat) returns (out: seq<Byte>, count: nat, newline: bool)
      requires Valid() && fetched && size >= 1
      modifies this`fetched, this`lines
      ensures Valid() && !fetched
      ensures newline <==> pool.held.Some?
      ensures !newline ==> lines == old(lines) && out == [] && count == 0
      ensures newline ==> |lines| == |old(lines)| + 1 && old(lines) == lines[..|old(lines)|]
      ensures newline ==> out == Cut(size - 1, lines[|old(lines)|]) && count == |out| + 1
    {
      hide Pool.Partitioned, LinesOf, Pool.Queued, Pool.Partial;
      fetched := false;
      if pool.held.None? {
        return [], 0, false;
      }
      var line := pool.data[pool.held.value];
      var len := |line|;
      if len > size - 1 {
        len := size - 1;
      }
      assert lines + [line] + pool.Queued() == lines + [line] + [] + pool.Queued();
      lines := lines + [line];
      return line[..len], len + 1, true;
    }
  }

  /** Any interleaving and any splitting into batches: while no shortage lost a byte, the lines handed on are the first
      lines of the byte stream. */
  method DriveLines(port: LinePort, events: seq<Event>) returns (dry: bool, count: nat)
    requires port.Valid() && port.stored == [] && port.lines == [] && !port.fetched
    modifies port
    ensures port.Valid() && port.pool.max == old(port.pool.max) && count == |port.lines|
    ensures !dry ==> port.lines <= LinesOf(port.pool.max, Stream(events)).0
  {
    hide LinePort.Valid, LinesOf;
    dry, count := false, 0;
    var i := 0;
    while i < |events|
      invariant i <= |events| && port.Valid() && port.pool.max == old(port.pool.max) && count == |port.lines|
      invariant !dry ==> port.stored == Stream(events[..i])
    {
      assert events[..i + 1] == events[..i] + [events[i]];
      assert (events[..i] + [events[i]])[..i] == events[..i];
      match events[i] {
        case Irq(batches) =>
          var lost := Batches(port, batches);
          dry := dry || lost;
        case Lock =>
          if !port.fetched {
            port.Lock();
          }
        case Copy(size) =>
          if port.fetched && size >= 1 {
            var part, n, newline := port.Copy(size);
            if newline {
              count := count + 1;
            }
          }
      }
      i := i + 1;
    }
    assert events[..|events|] == events;
    LinesArePrefix(port);
  }

  method Batches(port: LinePort, batches: seq<seq<Byte>>) returns (dry: bool)
    requires port.Valid()
    modifies port`pool, port`cur, port`stored
    ensures port.Valid() && port.pool.max == old(port.pool.max)
    ensures !dry ==> port.stored == old(port.stored) + Flat(batches)
  {
    hide LinePort.Valid;
    dry := false;
    var i := 0;
    assert Flat(batches[..0]) == [];
    while i < |batches|
      invariant i <= |batches| && port.Valid() && port.pool.max == old(port.pool.max)
      invariant port.stored == old(port.stored) + Flat(batches[..i])
    {
      dry := port.Batch(batches[i]);
      if dry {
        return;
      }
      assert batches[..i + 1] == batches[..i] + [batches[i]];
      FlatAppend(batches[..i], batches[i]);
      i := i + 1;
    }
    assert batches[..|batches|] == batches;
  }

  lemma LinesArePrefix(port: LinePort)
    requires port.Valid()
    ensures port.lines <= LinesOf(port.pool.max, port.stored).0
  {
  }
}
