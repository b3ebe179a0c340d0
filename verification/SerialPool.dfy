/** The line buffers that the UART interrupt and the console reader hand each other through two queues. */
module SerialPool {
  import opened Bytes
  import opened Options

  /** Who has which buffer. `cmd` is the interrupt's current buffer, `held` the one the reader reads. `data[b]` is what has
      been stored in buffer `b` since the interrupt last took it up. */
  datatype Pool = Pool(max: nat, avail: seq<nat>, lines: seq<nat>, cmd: Option<nat>, held: Option<nat>, data: seq<seq<Byte>>) {

    /** In how many places buffer `b` is. */
    function Places(b: nat): (n: nat) {
      multiset(avail)[b] + multiset(lines)[b] + (if cmd == Some(b) then 1 else 0) + (if held == Some(b) then 1 else 0)
    }

    /** Each buffer is in exactly one place, and only buffers are. */
    ghost predicate Partitioned() {
      forall b: nat :: Places(b) == if b < |data| then 1 else 0
    }

    ghost predicate Valid() {
      && 1 <= max
      && Partitioned()
      && (forall b :: b in lines ==> b < |data|)
      && (forall b :: b in avail ==> b < |data|)
      && (cmd.Some? ==> cmd.value < |data| && |data[cmd.value]| <= max)
      && (held.Some? ==> held.value < |data|)
    }

    /** What the interrupt has stored of the current fragment or line. */
    function Partial(): (s: seq<Byte>)
      requires cmd.Some? ==> cmd.value < |data|
    {
      if cmd.Some? then data[cmd.value] else []
    }

    /** The contents of the queued buffers, oldest first. */
    function Queued(): (q: seq<seq<Byte>>)
      requires forall b :: b in lines ==> b < |data|
    {
      seq(|lines|, i requires 0 <= i < |lines| => assert lines[i] in lines; data[lines[i]])
    }

    /** `sys_slist_get(&avail_queue)` and a fresh current buffer. */
    function Take(): (p: Pool)
      requires Valid() && cmd.None? && avail != []
    {
      assert avail[0] in avail;
      this.(avail := avail[1..], cmd := Some(avail[0]), data := data[avail[0] := []])
    }

    /** Bytes into the current buffer. */
    function Store(s: seq<Byte>): (p: Pool)
      requires Valid() && cmd.Some?
    {
      this.(data := data[cmd.value := data[cmd.value] + s])
    }

    /** The current buffer goes to the lines queue. */
    function Publish(): (p: Pool)
      requires Valid() && cmd.Some?
    {
      this.(lines := lines + [cmd.value], cmd := None)
    }

    /** The reader's locked section: the buffer read so far is appended to the available queue, unless it is already its
        last one; the oldest line is taken. */
    function Fetch(): (p: Pool)
      requires Valid()
    {
      var recycled := if held.Some? && (avail == [] || avail[|avail| - 1] != held.value) then avail + [held.value] else avail;
      if lines == [] then this.(avail := recycled, held := None)
      else this.(avail := recycled, lines := lines[1..], held := Some(lines[0]))
    }
  }

  /** The reader has the same buffer, if any, with the same bytes in it. */
  predicate HeldUntouched(p: Pool, q: Pool) {
    && q.held == p.held
    && (p.held.Some? ==> p.held.value < |p.data| && p.held.value < |q.data| && q.data[p.held.value] == p.data[p.held.value])
  }

  lemma StillUntouched(p: Pool, q: Pool, r: Pool)
    requires HeldUntouched(p, q) && HeldUntouched(q, r)
    ensures HeldUntouched(p, r)
  {
  }

  function Init(bufs: nat, max: nat): (p: Pool)
  {
    Pool(max, seq(bufs, i => i), [], None, None, seq(bufs, i => []))
  }

  /** `boot_console_init`: all buffers available. */
  lemma InitValid(bufs: nat, max: nat)
    requires 1 <= max
    ensures Init(bufs, max).Valid()
  {
    forall b: nat
      ensures Init(bufs, max).Places(b) == if b < bufs then 1 else 0
    {
      RangeOnce(bufs, b);
    }
  }

  lemma {:induction false} RangeOnce(n: nat, b: nat)
    ensures multiset(seq(n, i => i))[b] == if b < n then 1 else 0
  {
    if n > 0 {
      RangeOnce(n - 1, b);
      assert seq(n, i => i) == seq(n - 1, i => i) + [n - 1];
    }
  }

  lemma TakeKeeps(p: Pool)
    requires p.Valid() && p.cmd.None? && p.avail != []
    ensures p.Take().Valid() && p.Take().Queued() == p.Queued() && p.Take().Partial() == []
    ensures HeldUntouched(p, p.Take())
  {
    var q := p.Take();
    assert p.avail == [p.avail[0]] + p.avail[1..];
    assert p.avail[0] in p.avail && forall b :: b in q.avail ==> b in p.avail;
    Apart(p, p.avail[0]);
    SamePlaces(p, q);
    SameQueue(p, q);
  }

  lemma SamePlaces(p: Pool, q: Pool)
    requires p.Valid() && |q.data| == |p.data| && q.held == p.held
    requires multiset(q.avail) + (if q.cmd.Some? then multiset{q.cmd.value} else multiset{}) == multiset(p.avail) + (if p.cmd.Some? then multiset{p.cmd.value} else multiset{})
    requires q.lines == p.lines
    ensures q.Partitioned()
  {
    forall b: nat
      ensures q.Places(b) == p.Places(b)
    {
      assert (multiset(q.avail) + (if q.cmd.Some? then multiset{q.cmd.value} else multiset{}))[b] ==
             (multiset(p.avail) + (if p.cmd.Some? then multiset{p.cmd.value} else multiset{}))[b];
    }
  }

  /** The queue's contents are unchanged when no queued buffer is written. */
  lemma SameQueue(p: Pool, q: Pool)
    requires q.lines == p.lines && |q.data| == |p.data|
    requires forall b :: b in p.lines ==> b < |p.data| && q.data[b] == p.data[b]
    ensures q.Queued() == p.Queued()
  {
    forall i | 0 <= i < |p.lines|
      ensures q.Queued()[i] == p.Queued()[i]
    {
      assert p.lines[i] in p.lines;
    }
  }

  /** A buffer that is available or current is neither queued nor held. */
  lemma Apart(p: Pool, b: nat)
    requires p.Valid() && (b in p.avail || p.cmd == Some(b))
    ensures b !in p.lines && p.held != Some(b)
  {
    assert p.Places(b) <= 1;
  }

  lemma StoreKeeps(p: Pool, s: seq<Byte>)
    requires p.Valid() && p.cmd.Some? && |p.Partial()| + |s| <= p.max
    ensures p.Store(s).Valid() && p.Store(s).Queued() == p.Queued() && p.Store(s).Partial() == p.Partial() + s
    ensures HeldUntouched(p, p.Store(s))
  {
    Apart(p, p.cmd.value);
    SamePlaces(p, p.Store(s));
    SameQueue(p, p.Store(s));
  }

  lemma PublishKeeps(p: Pool)
    requires p.Valid() && p.cmd.Some?
    ensures HeldUntouched(p, p.Publish())
    ensures p.Publish().Valid() && p.Publish().Queued() == p.Queued() + [p.Partial()] && p.Publish().Partial() == []
  {
    forall b: nat
      ensures p.Publish().Places(b) == p.Places(b)
    {
    }
  }

  /** The guard against appending the same buffer twice never bites: a held buffer is not available. */
  lemma FetchKeeps(p: Pool)
    requires p.Valid()
    ensures p.Fetch().Valid()
    ensures p.Fetch().avail == p.avail + (if p.held.Some? then [p.held.value] else [])
    ensures p.lines == [] ==> p.Fetch().held.None? && p.Fetch().Queued() == p.Queued() == []
    ensures p.lines != [] ==> p.Fetch().held.Some? && p.Queued() == [p.Fetch().data[p.Fetch().held.value]] + p.Fetch().Queued()
    ensures p.Fetch().Partial() == p.Partial() && p.Fetch().max == p.max && p.Fetch().data == p.data
  {
    hide Pool.Partitioned;
    if p.held.Some? {
      HeldNotAvailable(p);
    }
    if p.lines != [] {
      assert p.lines == [p.lines[0]] + p.lines[1..];
      assert p.lines[0] in p.lines && forall b :: b in p.lines[1..] ==> b in p.lines;
    }
    FetchPlaces(p);
  }

  lemma HeldNotAvailable(p: Pool)
    requires p.Valid() && p.held.Some?
    ensures p.held.value !in p.avail
  {
    assert p.Places(p.held.value) == 1;
  }

  lemma FetchPlaces(p: Pool)
    requires p.Valid()
    ensures p.Fetch().Partitioned()
  {
    if p.held.Some? {
      HeldNotAvailable(p);
    }
    if p.lines != [] {
      assert p.lines == [p.lines[0]] + p.lines[1..];
    }
    forall b: nat
      ensures p.Fetch().Places(b) == p.Places(b)
    {
    }
  }
}
