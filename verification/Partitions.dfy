/** Flash partitions: alignment to erase blocks, overlap, and lists of partitions. */
module Partitions {
  const KB: nat := 1024
  const MB: nat := 1024 * 1024
  const STORAGE_SIZE: nat := 32 * KB
  const SLOT0_MIN_SIZE: nat := MB

  datatype Name = Boot | Slot0 | Slot1 | Storage | Nvm | Filesystem | Other(title: string)

  /** A partition as planned; nothing keeps a computed size from being negative. */
  datatype Part = Part(name: Name, off: int, size: int) {
    function End(): (e: int) {
      off + size
    }
  }

  datatype Device = Device(id: string, size: nat, erase: nat)

  datatype Planned = Planned(dev: Device, parts: seq<Part>)

  // ----- alignment -----

  function AlignUp(v: int, a: nat): (r: int)
    requires a > 0
    ensures v <= r < v + a && r % a == 0
  {
    AlignDown(v + a - 1, a)
  }

  function AlignDown(v: int, a: nat): (r: int)
    requires a > 0
    ensures r <= v < r + a && r % a == 0
  {
    assert v == v / a * a + v % a;
    ModUnique(v / a * a, a, v / a, 0);
    v / a * a
  }

  lemma ModUnique(x: int, a: nat, q: int, r: int)
    requires a > 0 && x == q * a + r && 0 <= r < a
    ensures x / a == q && x % a == r
  {
    var p, s := x / a, x % a;
    assert x == p * a + s;
    assert (p - q) * a == r - s && (q - p) * a == s - r;
    if p > q {
      AtLeastUnit(p - q, a);
    } else if p < q {
      AtLeastUnit(q - p, a);
    }
  }

  lemma AtLeastUnit(k: int, a: nat)
    requires k >= 1
    ensures k * a >= a
  {
  }

  /** Sums and differences of multiples are multiples. */
  lemma AlignedSum(x: int, y: int, a: nat)
    requires a > 0 && x % a == 0 && y % a == 0
    ensures (x + y) % a == 0 && (x - y) % a == 0
  {
    var p, q := x / a, y / a;
    assert x == p * a && y == q * a;
    assert x + y == (p + q) * a && x - y == (p - q) * a;
    ModUnique(x + y, a, p + q, 0);
    ModUnique(x - y, a, p - q, 0);
  }

  /** A multiple of a multiple. */
  lemma AlignedChain(x: int, b: nat, a: nat)
    requires a > 0 && b > 0 && x % b == 0 && b % a == 0
    ensures x % a == 0
  {
    var p, q := x / b, b / a;
    assert x == p * b && b == q * a;
    assert x == (p * q) * a;
    ModUnique(x, a, p * q, 0);
  }

  /** Two multiples are equal or a whole unit apart. */
  lemma AlignedGap(x: int, y: int, a: nat)
    requires a > 0 && x % a == 0 && y % a == 0 && x < y
    ensures x + a <= y
  {
    var p, q := x / a, y / a;
    assert x == p * a && y == q * a;
    assert (q - p) * a == y - x;
    if p < q {
      AtLeastUnit(q - p, a);
    }
  }

  /** Rounding is tight: no multiple lies strictly between. */
  lemma AlignDownGreatest(v: int, a: nat, m: int)
    requires a > 0 && m % a == 0 && m <= v
    ensures m <= AlignDown(v, a)
  {
    if m > AlignDown(v, a) {
      AlignedGap(AlignDown(v, a), m, a);
    }
  }

  lemma AlignUpLeast(v: int, a: nat, m: int)
    requires a > 0 && m % a == 0 && v <= m
    ensures AlignUp(v, a) <= m
  {
    if m < AlignUp(v, a) {
      AlignedGap(m, AlignUp(v, a), a);
    }
  }

  lemma AlignedFixed(v: int, a: nat)
    requires a > 0 && v % a == 0
    ensures AlignUp(v, a) == v == AlignDown(v, a)
  {
    AlignDownGreatest(v, a, v);
    AlignUpLeast(v, a, v);
  }

  /** One of the two erase sizes divides the other, as powers of two do. */
  predicate Compatible(a: nat, b: nat) {
    a > 0 && b > 0 && (a % b == 0 || b % a == 0)
  }

  function Max(a: int, b: int): (m: int)
    ensures m >= a && m >= b && (m == a || m == b)
  {
    if a >= b then a else b
  }

  function Min(a: int, b: int): (m: int)
    ensures m <= a && m <= b && (m == a || m == b)
  {
    if a <= b then a else b
  }

  /** Multiples of the larger erase size are multiples of both. */
  lemma LargestServesBoth(x: int, a: nat, b: nat)
    requires Compatible(a, b) && x % Max(a, b) == 0
    ensures x % a == 0 && x % b == 0
  {
    var m := Max(a, b);
    ModUnique(m, m, 1, 0);
    if a < b {
      ModUnique(a, b, 0, a);
    } else if b < a {
      ModUnique(b, a, 0, b);
    }
    AlignedChain(x, m, a);
    AlignedChain(x, m, b);
  }

  function Power(n: nat): (p: nat)
    ensures p > 0
  {
    if n == 0 then 1 else 2 * Power(n - 1)
  }

  lemma {:induction false} PowersDivide(m: nat, n: nat)
    requires m <= n
    ensures Power(n) % Power(m) == 0
    decreases n - m
  {
    var p := Power(m);
    if m < n {
      PowersDivide(m, n - 1);
      var q := Power(n - 1);
      AlignedSum(q, q, p);
      assert Power(n) == q + q;
    } else {
      ModUnique(p, p, 1, 0);
    }
  }

  lemma PowersCompatible(m: nat, n: nat)
    ensures Compatible(Power(m), Power(n))
  {
    if m <= n {
      PowersDivide(m, n);
    } else {
      PowersDivide(n, m);
    }
  }

  // ----- lists of partitions -----

  /** The two share a byte. */
  predicate Overlap(p: Part, q: Part) {
    p.off < q.End() && q.off < p.End() && p.size > 0 && q.size > 0
  }

  predicate Disjoint(ps: seq<Part>) {
    forall i, j :: 0 <= i < j < |ps| ==> !Overlap(ps[i], ps[j])
  }

  /** No partition of one list shares a byte with one of the other. */
  predicate AllApart(ps: seq<Part>, qs: seq<Part>) {
    forall p, q :: p in ps && q in qs ==> !Overlap(p, q)
  }

  predicate Inside(p: Part, dev: Device) {
    0 <= p.off && 0 <= p.size && p.End() <= dev.size
  }

  predicate Aligned(p: Part, dev: Device)
    requires dev.erase > 0
  {
    p.off % dev.erase == 0 && p.size % dev.erase == 0
  }

  /** Every partition is inside the device and made of whole erase blocks, and no two share a byte. */
  predicate Laid(p: Planned)
    requires p.dev.erase > 0
  {
    && Disjoint(p.parts)
    && forall i :: 0 <= i < |p.parts| ==> Inside(p.parts[i], p.dev) && Aligned(p.parts[i], p.dev)
  }

  /** Disjoint partitions of whole erase blocks, all below the cursor. */
  predicate Filled(ps: seq<Part>, erase: nat, cursor: int)
    requires erase > 0
  {
    && Disjoint(ps) && cursor >= 0 && cursor % erase == 0
    && forall i :: 0 <= i < |ps| ==>
         0 <= ps[i].off && 0 <= ps[i].size && ps[i].End() <= cursor && ps[i].off % erase == 0 && ps[i].size % erase == 0
  }

  lemma Append(ps: seq<Part>, erase: nat, cursor: int, p: Part)
    requires erase > 0 && Filled(ps, erase, cursor)
    requires p.off >= cursor && p.size >= 0 && p.off % erase == 0 && p.size % erase == 0
    ensures Filled(ps + [p], erase, p.End()) && Names(ps + [p]) == Names(ps) + [p.name]
  {
    AlignedSum(p.off, p.size, erase);
    NamesAppend(ps, p);
  }

  lemma FilledIsLaid(p: Planned, cursor: int)
    requires p.dev.erase > 0 && Filled(p.parts, p.dev.erase, cursor) && cursor <= p.dev.size
    ensures Laid(p)
  {
  }

  /** The names of the planned partitions, in order. */
  function Names(ps: seq<Part>): (ns: seq<Name>)
  {
    if ps == [] then [] else Names(ps[..|ps| - 1]) + [ps[|ps| - 1].name]
  }

  lemma NamesNone()
    ensures Names([]) == []
  {
  }

  lemma NamesAppend(ps: seq<Part>, p: Part)
    ensures Names(ps + [p]) == Names(ps) + [p.name]
  {
    assert (ps + [p])[..|ps|] == ps;
  }

  // ----- sorting by offset -----

  ghost predicate Ordered(ps: seq<Part>) {
    forall i, j :: 0 <= i < j < |ps| ==> ps[i].off <= ps[j].off
  }

  function Insert(ps: seq<Part>, p: Part): (r: seq<Part>)
    requires Ordered(ps)
    ensures Ordered(r) && multiset(r) == multiset(ps) + multiset{p} && |r| == |ps| + 1
    ensures forall q :: q in r <==> q == p || q in ps
  {
    if ps == [] then [p]
    else
      var init, last := ps[..|ps| - 1], ps[|ps| - 1];
      assert ps == init + [last];
      if last.off <= p.off then ps + [p]
      else
        var r := Insert(init, p);
        assert forall q :: q in r ==> q.off <= last.off;
        r + [last]
  }

  /** In order of offset; equal offsets keep their order. */
  function Sort(ps: seq<Part>): (r: seq<Part>)
    ensures Ordered(r) && multiset(r) == multiset(ps) && |r| == |ps|
    ensures forall q :: q in r <==> q in ps
  {
    if ps == [] then []
    else
      assert ps == ps[..|ps| - 1] + [ps[|ps| - 1]];
      Insert(Sort(ps[..|ps| - 1]), ps[|ps| - 1])
  }

  lemma InsertLast(ps: seq<Part>, p: Part)
    requires Ordered(ps) && (ps != [] ==> ps[|ps| - 1].off <= p.off)
    ensures Insert(ps, p) == ps + [p]
  {
  }

  /** A sorted list is sorted already. */
  lemma {:induction false} SortFixed(ps: seq<Part>)
    requires Ordered(ps)
    ensures Sort(ps) == ps
  {
    hide Insert;
    if ps != [] {
      var init, last := ps[..|ps| - 1], ps[|ps| - 1];
      assert ps == init + [last];
      SortFixed(init);
      InsertLast(init, last);
    }
  }

  // ----- disjointness does not depend on the order -----

  lemma DisjointAppend(a: seq<Part>, c: seq<Part>)
    ensures Disjoint(a + c) <==> Disjoint(a) && Disjoint(c) && AllApart(a, c)
  {
    var ac := a + c;
    if Disjoint(ac) {
      assert forall i :: 0 <= i < |a| ==> ac[i] == a[i];
      assert forall i :: 0 <= i < |c| ==> ac[|a| + i] == c[i];
    }
  }

  lemma {:induction false} CountTwo(ps: seq<Part>, i: nat, j: nat)
    requires i < j < |ps| && ps[i] == ps[j]
    ensures multiset(ps)[ps[i]] >= 2
  {
    assert ps == ps[..j] + ps[j..];
    assert ps[..j][i] == ps[i] && ps[j..][0] == ps[j];
    assert ps[i] in multiset(ps[..j]) && ps[j] in multiset(ps[j..]);
  }

  lemma {:induction false} TwoPlaces(ps: seq<Part>, p: Part) returns (i: nat, j: nat)
    requires multiset(ps)[p] >= 2
    ensures i < j < |ps| && ps[i] == ps[j] == p
  {
    var init, last := ps[..|ps| - 1], ps[|ps| - 1];
    assert ps == init + [last];
    if last == p {
      j := |ps| - 1;
      assert p in multiset(init);
      i :| 0 <= i < |init| && init[i] == p;
    } else {
      i, j := TwoPlaces(init, p);
    }
  }

  /** Disjointness in terms of members and how often they occur. */
  lemma DisjointIff(ps: seq<Part>)
    ensures Disjoint(ps) <==> forall p, q :: p in ps && q in ps && Overlap(p, q) ==> p == q && multiset(ps)[p] == 1
  {
    if Disjoint(ps) {
      forall p, q | p in ps && q in ps && Overlap(p, q)
        ensures p == q && multiset(ps)[p] == 1
      {
        MeetOnlyThemselves(ps, p, q);
      }
    }
    if forall p, q :: p in ps && q in ps && Overlap(p, q) ==> p == q && multiset(ps)[p] == 1 {
      forall i, j | 0 <= i < j < |ps|
        ensures !Overlap(ps[i], ps[j])
      {
        if ps[i] == ps[j] {
          CountTwo(ps, i, j);
        }
      }
    }
  }

  lemma MeetOnlyThemselves(ps: seq<Part>, p: Part, q: Part)
    requires Disjoint(ps) && p in ps && q in ps && Overlap(p, q)
    ensures p == q && multiset(ps)[p] == 1
  {
    var i :| 0 <= i < |ps| && ps[i] == p;
    var j :| 0 <= j < |ps| && ps[j] == q;
    if multiset(ps)[p] >= 2 {
      var k, l := TwoPlaces(ps, p);
    }
  }

  lemma DisjointSame(a: seq<Part>, c: seq<Part>)
    requires multiset(a) == multiset(c)
    ensures Disjoint(a) <==> Disjoint(c)
  {
    DisjointIff(a);
    DisjointIff(c);
    assert forall p :: p in a <==> p in multiset(a);
    assert forall p :: p in c <==> p in multiset(c);
  }
}
