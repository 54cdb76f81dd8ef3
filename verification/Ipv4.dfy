/** IPv4 addresses and prefixes with the meaning Go's `net/netip` gives them:
    an address is a 32-bit word, and a prefix holds an address when the two
    words agree once the host bits are shifted out. */
module Ipv4 {

  type Addr = a: int | 0 <= a < 0x1_0000_0000
  type Bits = b: int | 0 <= b <= 32

  datatype Prefix = Prefix(addr: Addr, bits: Bits)

  /** Logical shift right by k. */
  function Shr(x: nat, k: nat): nat
    decreases k
  {
    if k == 0 then x else Shr(x, k - 1) / 2
  }

  /** Shift left by k, without wrap-around. */
  function Shl(x: nat, k: nat): nat
    decreases k
  {
    if k == 0 then x else 2 * Shl(x, k - 1)
  }

  function HostBits(p: Prefix): nat { 32 - p.bits }

  /** `Prefix.Contains`. */
  predicate Contains(p: Prefix, a: Addr)
  {
    Shr(a, HostBits(p)) == Shr(p.addr, HostBits(p))
  }

  predicate IsMasked(p: Prefix)
  {
    Shl(Shr(p.addr, HostBits(p)), HostBits(p)) == p.addr
  }

  /** Shr peels bits at either end: the recursive step can also halve first. */
  lemma {:induction false} ShrOuter(x: nat, k: nat)
    requires k > 0
    ensures Shr(x, k) == Shr(x / 2, k - 1)
  {
    if k == 1 {
    } else {
      ShrOuter(x, k - 1);
    }
  }

  lemma {:induction false} ShrShl(x: nat, k: nat)
    ensures Shr(Shl(x, k), k) == x
  {
    if k == 0 {
    } else {
      ShrOuter(Shl(x, k), k);
      ShrShl(x, k - 1);
    }
  }

  lemma {:induction false} ShlShrBelow(x: nat, k: nat)
    ensures Shl(Shr(x, k), k) <= x < Shl(Shr(x, k) + 1, k)
  {
    if k == 0 {
    } else {
      ShrOuter(x, k);
      ShlShrBelow(x / 2, k - 1);
    }
  }

  /** `Prefix.Masked`: clear the host bits. */
  function Masked(p: Prefix): (m: Prefix)
    ensures m.bits == p.bits && IsMasked(m)
    ensures forall a: Addr :: Contains(m, a) <==> Contains(p, a)
  {
    ShlShrBelow(p.addr, HostBits(p));
    var m := Prefix(Shl(Shr(p.addr, HostBits(p)), HostBits(p)), p.bits);
    ShrShl(Shr(p.addr, HostBits(p)), HostBits(p));
    m
  }

  /** The test used wherever the program asks whether one prefix lies in
      another: not longer, and holding the other's network address. */
  predicate Within(inner: Prefix, outer: Prefix)
  {
    outer.bits <= inner.bits && Contains(outer, inner.addr)
  }

  predicate Disjoint(p: Prefix, q: Prefix)
  {
    forall a: Addr :: !(Contains(p, a) && Contains(q, a))
  }

  // ---------------------------------------------------------------- shifts

  lemma {:induction false} ShlMonotone(x: nat, y: nat, k: nat)
    requires x <= y
    ensures Shl(x, k) <= Shl(y, k)
  {
    if k == 0 {
    } else {
      ShlMonotone(x, y, k - 1);
    }
  }

  lemma {:induction false} ShrMonotone(x: nat, y: nat, k: nat)
    requires x <= y
    ensures Shr(x, k) <= Shr(y, k)
  {
    if k == 0 {
    } else {
      ShrMonotone(x, y, k - 1);
    }
  }

  /** Agreement on the high bits survives dropping more low bits. */
  lemma {:induction false} ShrAgreeFurther(x: nat, y: nat, j: nat, k: nat)
    requires j <= k && Shr(x, j) == Shr(y, j)
    ensures Shr(x, k) == Shr(y, k)
  {
    if j == k {
    } else {
      ShrAgreeFurther(x, y, j, k - 1);
    }
  }

  /** Shifting left by j and k in turn is one shift by their sum. */
  lemma {:induction false} ShlAdd(x: nat, j: nat, k: nat)
    ensures Shl(Shl(x, j), k) == Shl(x, j + k)
  {
    if k == 0 {
    } else {
      ShlAdd(x, j, k - 1);
    }
  }

  lemma AllOnes()
    ensures Shl(1, 32) == 0x1_0000_0000
  {
    assert Shl(1, 8) == 256;
    ShlAdd(1, 8, 8);
    assert Shl(256, 8) == 65536;
    ShlAdd(1, 16, 16);
    assert Shl(65536, 8) == 0x100_0000;
    ShlAdd(65536, 8, 8);
    assert Shl(0x100_0000, 8) == 0x1_0000_0000;
  }

  lemma {:induction false} ShlStrict(x: nat, y: nat, k: nat)
    requires x < y
    ensures Shl(x, k) < Shl(y, k)
  {
    if k == 0 {
    } else {
      ShlStrict(x, y, k - 1);
    }
  }

  /** Shr keeps a 32-bit word below 2^(32-k): shifting it, or anything below
      the next even number, back gives a 32-bit word again. */
  lemma ShlOfEvenNeighbour(x: nat, a: Addr, k: nat)
    requires k < 32 && x == Shr(a, k) && x % 2 == 0
    ensures Shl(x + 1, k) < 0x1_0000_0000
  {
    AllOnes();
    ShlAdd(1, 32 - k, k);
    var top := Shl(1, 32 - k);
    assert top == 2 * Shl(1, 32 - k - 1);
    if x + 1 >= top {
      assert x >= top;
      ShlMonotone(top, x, k);
      ShlShrBelow(a, k);
      assert false;
    }
    ShlStrict(x + 1, top, k);
  }

  /** One shift is two in turn. */
  lemma {:induction false} ShrSplit(x: nat, j: nat, k: nat)
    ensures Shr(x, j + k) == Shr(Shr(x, j), k)
  {
    if k != 0 {
      ShrSplit(x, j, k - 1);
    }
  }

  lemma ShrSmall(w: nat)
    ensures Shr(w, 4) == w / 16
    ensures Shr(w, 6) == w / 64
    ensures Shr(w, 8) == w / 256
    ensures Shr(w, 13) == w / 8192
  {
    assert Shr(w, 1) == w / 2;
    assert Shr(w, 2) == w / 4;
    assert Shr(w, 3) == w / 8;
    assert Shr(w, 4) == w / 16;
    assert Shr(w, 5) == w / 32;
    assert Shr(w, 6) == w / 64;
    assert Shr(w, 7) == w / 128;
    assert Shr(w, 8) == w / 256;
    assert Shr(w, 9) == w / 512;
    assert Shr(w, 10) == w / 1024;
    assert Shr(w, 11) == w / 2048;
    assert Shr(w, 12) == w / 4096;
  }

  /** Shifts by a whole number of octets, and by the block lengths in use. */
  lemma ShrDivides(a: Addr)
    ensures var w := Shr(a, 16);
      && w == a / 65536 && w < 65536
      && Shr(a, 20) == w / 16 && Shr(a, 22) == w / 64
      && Shr(a, 24) == w / 256 && Shr(a, 29) == w / 8192
  {
    ShrSplit(a, 8, 8);
    ShrSmall(a);
    ShrSmall(Shr(a, 8));
    ShrSplit(a, 16, 4);
    ShrSplit(a, 16, 6);
    ShrSplit(a, 16, 8);
    ShrSplit(a, 16, 13);
    ShrSmall(Shr(a, 16));
  }

  // ----------------------------------------------------------- containment

  lemma {:induction false} ShlNext(x: nat, k: nat)
    ensures Shl(x + 1, k) == Shl(x, k) + Shl(1, k)
  {
    if k > 0 {
      ShlNext(x, k - 1);
    }
  }

  /** A masked prefix is the run of 2^(32 - bits) addresses from its own. */
  lemma ContainsRange(p: Prefix, a: Addr)
    requires IsMasked(p)
    ensures Contains(p, a) <==> p.addr <= a < p.addr + Shl(1, 32 - p.bits)
  {
    var k := 32 - p.bits;
    var x, y := Shr(p.addr, k), Shr(a, k);
    ShlShrBelow(a, k);
    ShlNext(x, k);
    if y < x {
      ShlMonotone(y + 1, x, k);
    } else if x < y {
      ShlMonotone(x + 1, y, k);
    }
  }

  lemma ContainsOwn(p: Prefix)
    ensures Contains(p, p.addr)
  {
  }

  /** Two addresses in a common prefix are in the same wider prefixes. */
  lemma SameWider(p: Prefix, q: Prefix, a: Addr, b: Addr)
    requires p.bits <= q.bits
    requires Contains(q, a) && Contains(q, b)
    ensures Contains(p, a) <==> Contains(p, b)
  {
    ShrAgreeFurther(a, b, HostBits(q), HostBits(p));
  }

  /** Every address of a prefix that is not a host route has a partner in it
      from which any longer prefix separates it. */
  lemma SplitsShorter(q: Prefix, p: Prefix) returns (a: Addr)
    requires q.bits < p.bits
    ensures Contains(q, a) && !Contains(p, a)
  {
    var k := HostBits(q) - 1;
    var x := Shr(p.addr, k);
    if !Contains(q, p.addr) {
      a := q.addr;
      if Contains(p, a) {
        ShrAgreeFurther(a, p.addr, HostBits(p), HostBits(q));
        assert false;
      }
      return;
    }
    var y := if x % 2 == 0 then x + 1 else x - 1;
    if x % 2 == 0 {
      ShlOfEvenNeighbour(x, p.addr, k);
    } else {
      ShlMonotone(y, x, k);
      ShlShrBelow(p.addr, k);
    }
    a := Shl(y, k);
    ShrShl(y, k);
    assert Shr(a, k) == y && y / 2 == x / 2;
    assert Shr(a, k + 1) == Shr(p.addr, k + 1);
    if Contains(p, a) {
      ShrAgreeFurther(a, p.addr, HostBits(p), k);
      assert false;
    }
  }

  /** `Within` is exactly inclusion of address sets. */
  lemma WithinIffSubset(inner: Prefix, outer: Prefix)
    ensures Within(inner, outer) <==> forall a: Addr :: Contains(inner, a) ==> Contains(outer, a)
  {
    if Within(inner, outer) {
      forall a: Addr | Contains(inner, a)
        ensures Contains(outer, a)
      {
        SameWider(outer, inner, a, inner.addr);
      }
    } else if outer.bits <= inner.bits {
      ContainsOwn(inner);
    } else {
      var a := SplitsShorter(inner, outer);
    }
  }

  /** Two prefixes are nested or share no address. */
  lemma NestedOrDisjoint(p: Prefix, q: Prefix)
    ensures Within(p, q) || Within(q, p) || Disjoint(p, q)
    ensures Within(p, q) ==> !Disjoint(p, q)
  {
    ContainsOwn(p);
    forall a: Addr | Contains(p, a) && Contains(q, a)
      ensures Within(p, q) || Within(q, p)
    {
      if p.bits <= q.bits {
        SameWider(p, q, a, q.addr);
      } else {
        SameWider(q, p, a, p.addr);
      }
    }
  }

  lemma WithinTransitive(p: Prefix, q: Prefix, r: Prefix)
    requires Within(p, q) && Within(q, r)
    ensures Within(p, r)
  {
    SameWider(r, q, p.addr, q.addr);
  }

  /** Masked prefixes that hold each other are the same prefix. */
  lemma WithinAntisymmetric(p: Prefix, q: Prefix)
    requires IsMasked(p) && IsMasked(q) && Within(p, q) && Within(q, p)
    ensures p == q
  {
  }

  /** A masked prefix starts at its own address. */
  lemma MaskedIsFirst(p: Prefix, a: Addr)
    requires IsMasked(p) && Contains(p, a)
    ensures p.addr <= a
  {
    ShlShrBelow(a, HostBits(p));
  }

  /** Addresses between two members of a prefix are members. */
  lemma ContainsConvex(p: Prefix, a: Addr, b: Addr, c: Addr)
    requires a <= b <= c && Contains(p, a) && Contains(p, c)
    ensures Contains(p, b)
  {
    ShrMonotone(a, b, HostBits(p));
    ShrMonotone(b, c, HostBits(p));
  }
}
