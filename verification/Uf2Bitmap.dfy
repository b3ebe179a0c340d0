/** The received-block bitmap: one bit per block number, eight to a byte. */
module Uf2Bitmap {

  function Mask(i: nat): (m: bv8)
    requires i < 8
  {
    1 << i
  }

  predicate Bit(m: bv8, i: nat)
    requires i < 8
  {
    m & Mask(i) != 0
  }

  predicate Marked(bits: seq<bv8>, n: nat) {
    n / 8 < |bits| && Bit(bits[n / 8], n % 8)
  }

  /** The block numbers below `n` whose bit is set. */
  function MembersBelow(bits: seq<bv8>, n: nat): (s: set<nat>)
  {
    if n == 0 then {}
    else if Marked(bits, n - 1) then MembersBelow(bits, n - 1) + {n - 1}
    else MembersBelow(bits, n - 1)
  }

  /** The block numbers whose bit is set. */
  function Members(bits: seq<bv8>): (s: set<nat>)
  {
    MembersBelow(bits, 8 * |bits|)
  }

  lemma {:induction false} MemberBelowIff(bits: seq<bv8>, n: nat, k: nat)
    ensures k in MembersBelow(bits, n) <==> k < n && Marked(bits, k)
  {
    if n > 0 {
      MemberBelowIff(bits, n - 1, k);
    }
  }

  lemma MemberIff(bits: seq<bv8>, k: nat)
    ensures k in Members(bits) <==> Marked(bits, k)
  {
    MemberBelowIff(bits, 8 * |bits|, k);
  }

  /** Or-ing a mask into a byte sets that bit and leaves the other seven alone. */
  lemma OrMask(m: bv8, i: nat, j: nat)
    requires i < 8 && j < 8
    ensures Bit(m | Mask(i), j) <==> i == j || Bit(m, j)
  {
    MaskIsPower(i);
    MaskIsPower(j);
  }

  lemma MaskIsPower(i: nat)
    requires i < 8
    ensures Mask(i) == [1 as bv8, 2, 4, 8, 16, 32, 64, 128][i]
  {
    if i == 0 { } else if i == 1 { } else if i == 2 { } else if i == 3 { } else if i == 4 { } else if i == 5 { } else if i == 6 { } else { assert i == 7; }
  }

  /** Setting the bit of `n` adds `n` to the set and nothing else. */
  lemma MarkAdds(bits: seq<bv8>, n: nat)
    requires n / 8 < |bits|
    ensures Members(bits[n / 8 := bits[n / 8] | Mask(n % 8)]) == Members(bits) + {n}
  {
    var bits' := bits[n / 8 := bits[n / 8] | Mask(n % 8)];
    forall k: nat
      ensures k in Members(bits') <==> k in Members(bits) || k == n
    {
      MemberIff(bits', k);
      MemberIff(bits, k);
      if k / 8 == n / 8 {
        OrMask(bits[n / 8], n % 8, k % 8);
        assert k == 8 * (k / 8) + k % 8 && n == 8 * (n / 8) + n % 8;
      }
    }
  }

  /** A bitmap of zero bytes marks nothing. */
  lemma ZeroMarksNothing(bits: seq<bv8>)
    requires forall i :: 0 <= i < |bits| ==> bits[i] == 0
    ensures Members(bits) == {}
  {
    forall k: nat
      ensures k !in Members(bits)
    {
      MemberIff(bits, k);
      if k / 8 < |bits| {
        assert (0 as bv8) & Mask(k % 8) == 0;
      }
    }
  }

  /** `block_map[n / 8] |= 1u << (n % 8)`. */
  method SetBit(bits: array<bv8>, n: nat)
    requires n / 8 < bits.Length
    modifies bits
    ensures Members(bits[..]) == old(Members(bits[..])) + {n}
  {
    MarkAdds(bits[..], n);
    bits[n / 8] := bits[n / 8] | Mask(n % 8);
    assert bits[..] == old(bits[..])[n / 8 := old(bits[n / 8]) | Mask(n % 8)];
  }
}
