/** Decoding a CBOR map against a table of keys with a search that goes on from the last match. */
module ZcborBulk {
  import opened Bytes
  import opened Options

  /** A table entry: its key and the kind of value its decoder takes. */
  datatype Entry = Entry(key: seq<Byte>, kind: nat)

  /** A key/value pair of the map; `skippable` says whether the value can be skipped when no entry has the key. */
  datatype Item = Item(key: seq<Byte>, kind: nat, skippable: bool)

  /** The encoded map: does it open, its pairs, and does it close after whatever was consumed. */
  datatype Input = Input(opens: bool, items: seq<Item>, closes: bool)

  const EBADMSG: int := 74
  const EADDRINUSE: int := 98
  const ENOMSG: int := 42

  datatype Result = Result(rc: int, matched: nat, found: seq<bool>)

  predicate DistinctKeys(table: seq<Entry>) {
    forall i, j :: 0 <= i < j < |table| ==> table[i].key != table[j].key
  }

  /** The first entry with this key, searching from the table's start. */
  function IndexOf(table: seq<Entry>, key: seq<Byte>): (r: Option<nat>)
    ensures r.Some? ==> r.value < |table| && table[r.value].key == key
    ensures r.None? ==> forall i :: 0 <= i < |table| ==> table[i].key != key
  {
    if table == [] then None
    else if table[0].key == key then Some(0)
    else
      match IndexOf(table[1..], key)
      case None =>
        assert forall i :: 0 < i < |table| ==> table[i] == table[1..][i - 1];
        None
      case Some(i) => Some(i + 1)
  }

  /** The reference: each pair is looked up from the start; a second pair with a key, or a value of the wrong kind, ends
      with an error; a pair that is in no entry is skipped. */
  function Scan(table: seq<Entry>, found: seq<bool>, matched: nat, items: seq<Item>, closes: bool): (r: Result)
    requires |found| == |table|
    decreases |items|
  {
    var end := Result(if closes then 0 else -EBADMSG, matched, found);
    if items == [] then end
    else
      match IndexOf(table, items[0].key)
      case None => if items[0].skippable then Scan(table, found, matched, items[1..], closes) else end
      case Some(i) =>
        if found[i] then Result(-EADDRINUSE, matched, found)
        else if items[0].kind != table[i].kind then Result(-ENOMSG, matched, found)
        else Scan(table, found[i := true], matched + 1, items[1..], closes)
  }

  /** The rotating search: from the cursor, around once. `at` is the cursor after a match. */
  method Search(table: seq<Entry>, key: seq<Byte>, cursor: nat) returns (hit: Option<nat>, at: nat)
    requires cursor <= |table|
    ensures at <= |table|
    ensures hit.Some? ==> hit.value < |table| && table[hit.value].key == key && at == hit.value + 1
    ensures hit.None? ==> forall i :: 0 <= i < |table| ==> table[i].key != key
  {
    at := cursor;
    var count := 0;
    while count < |table|
      invariant 0 <= count <= |table| && at <= |table|
      invariant if cursor + count <= |table| then at == cursor + count else at == cursor + count - |table|
      invariant forall i :: 0 <= i < |table| && (cursor <= i < cursor + count || i < cursor + count - |table|) ==> table[i].key != key
    {
      if at >= |table| {
        at := 0;
      }
      if |key| == |table[at].key| && key == table[at].key {
        return Some(at), at + 1;
      }
      at := at + 1;
      count := count + 1;
    }
    hit := None;
  }

  /** `zcbor_map_decode_bulk`: whatever the cursor, the outcome is the reference's. */
  method MapDecodeBulk(table: seq<Entry>, found: array<bool>, input: Input) returns (rc: int, matched: nat)
    requires found.Length == |table| && DistinctKeys(table)
    modifies found
    ensures !input.opens ==> rc == -EBADMSG && found[..] == old(found[..])
    ensures input.opens ==> Result(rc, matched, found[..]) == Scan(table, old(found[..]), 0, input.items, input.closes)
  {
    matched := 0;
    if !input.opens {
      return -EBADMSG, 0;
    }
    var cursor: nat, i := 0, 0;
    while i < |input.items|
      invariant 0 <= i <= |input.items| && cursor <= |table|
      invariant Scan(table, old(found[..]), 0, input.items, input.closes) == Scan(table, found[..], matched, input.items[i..], input.closes)
    {
      var item := input.items[i];
      var hit;
      hit, cursor := Search(table, item.key, cursor);
      assert input.items[i..][1..] == input.items[i + 1..];
      SameEntry(table, item.key, hit);
      if hit.Some? {
        if found[hit.value] {
          return -EADDRINUSE, matched;
        }
        if item.kind != table[hit.value].kind {
          return -ENOMSG, matched;
        }
        ghost var before := found[..];
        found[hit.value] := true;
        assert found[..] == before[hit.value := true];
        matched := matched + 1;
      } else if !item.skippable {
        return if input.closes then 0 else -EBADMSG, matched;
      }
      i := i + 1;
    }
    return if input.closes then 0 else -EBADMSG, matched;
  }

  /** With distinct keys a match is the match, wherever the search started. */
  lemma SameEntry(table: seq<Entry>, key: seq<Byte>, hit: Option<nat>)
    requires DistinctKeys(table)
    requires hit.Some? ==> hit.value < |table| && table[hit.value].key == key
    requires hit.None? ==> forall i :: 0 <= i < |table| ==> table[i].key != key
    ensures hit == IndexOf(table, key)
  {
  }

  function CountTrue(found: seq<bool>): (n: nat)
  {
    if found == [] then 0 else (if found[0] then 1 else 0) + CountTrue(found[1..])
  }

  lemma {:induction false} CountSet(found: seq<bool>, i: nat)
    requires i < |found| && !found[i]
    ensures CountTrue(found[i := true]) == CountTrue(found) + 1
  {
    if i == 0 {
      assert found[0 := true][1..] == found[1..];
    } else {
      assert found[i := true][1..] == found[1..][i - 1 := true];
      CountSet(found[1..], i - 1);
    }
  }

  /** `matched` is always the number of entries found in this call, also when it ends with an error. */
  lemma {:induction false} MatchedIsCount(table: seq<Entry>, found: seq<bool>, matched: nat, items: seq<Item>, closes: bool)
    requires |found| == |table|
    ensures
      var r := Scan(table, found, matched, items, closes);
      |r.found| == |table| && r.matched - matched == CountTrue(r.found) - CountTrue(found)
    decreases |items|
  {
    if items != [] {
      match IndexOf(table, items[0].key)
      case None =>
        if items[0].skippable {
          MatchedIsCount(table, found, matched, items[1..], closes);
        }
      case Some(i) =>
        if !found[i] && items[0].kind == table[i].kind {
          CountSet(found, i);
          MatchedIsCount(table, found[i := true], matched + 1, items[1..], closes);
        }
    }
  }

  /** From a clear table, a map that decodes has no repeated table key, and the entries found are those it has. */
  lemma {:induction false} DecodedMapHasNoRepeats(table: seq<Entry>, found: seq<bool>, matched: nat, items: seq<Item>, closes: bool)
    requires |found| == |table| && DistinctKeys(table)
    requires Scan(table, found, matched, items, closes).rc == 0
    requires forall i :: 0 <= i < |items| ==> items[i].skippable
    ensures forall i, j :: 0 <= i < j < |items| && items[i].key == items[j].key ==> IndexOf(table, items[i].key).None?
    ensures forall i :: 0 <= i < |items| && IndexOf(table, items[i].key).Some? ==> !found[IndexOf(table, items[i].key).value]
    decreases |items|
  {
    if items != [] {
      var hit := IndexOf(table, items[0].key);
      var found' := if hit.Some? then found[hit.value := true] else found;
      DecodedMapHasNoRepeats(table, found', if hit.Some? then matched + 1 else matched, items[1..], closes);
      assert forall i :: 0 < i < |items| ==> items[i] == items[1..][i - 1];
    }
  }
}
