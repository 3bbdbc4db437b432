/** Address decomposition of the cache simulator.
    An address is split into three fields, from low to high bits:
    a b-bit block offset, an s-bit set index and the remaining tag.
    On unsigned values `x >> k` is floor division by 2^k and
    `x & (2^k - 1)` is the remainder modulo 2^k; the model states both
    in those arithmetic terms. */
module Decode {

  function Pow2(k: nat): (r: nat)
    ensures r >= 1
  {
    if k == 0 then 1 else 2 * Pow2(k - 1)
  }

  lemma {:induction false} Pow2Add(x: nat, y: nat)
    ensures Pow2(x + y) == Pow2(x) * Pow2(y)
  {
    if x > 0 {
      Pow2Add(x - 1, y);
      assert Pow2(x + y) == 2 * Pow2(x - 1 + y);
    }
  }

  lemma {:induction false} Pow2Monotone(x: nat, y: nat)
    requires x <= y
    ensures Pow2(x) <= Pow2(y)
  {
    if x < y {
      Pow2Monotone(x, y - 1);
    }
  }

  /** The mask `(1 << s) - 1` kept in the simulator's `set_index_mask`. */
  function SetIndexMask(s: nat): (m: nat)
    ensures m + 1 == Pow2(s)
  {
    Pow2(s) - 1
  }

  /** `(address >> b) & set_index_mask`: always a valid index into the S = 2^s sets. */
  function SetIndex(address: nat, s: nat, b: nat): (r: nat)
    ensures r < Pow2(s)
    ensures r <= SetIndexMask(s)
  {
    (address / Pow2(b)) % Pow2(s)
  }

  /** `address >> (s + b)`. */
  function Tag(address: nat, s: nat, b: nat): nat
  {
    var d := Pow2(s + b);
    DivIsNat(address, d);
    address / d
  }

  /** `address & (2^b - 1)`: the byte within the block, unused by the simulation. */
  function BlockOffset(address: nat, b: nat): (r: nat)
    ensures r < Pow2(b)
  {
    address % Pow2(b)
  }

  /** The address whose fields are the given tag, set index and offset. */
  function Compose(tag: nat, setIndex: nat, offset: nat, s: nat, b: nat): nat
  {
    (tag * Pow2(s) + setIndex) * Pow2(b) + offset
  }

  /** Euclidean division is determined by its quotient and remainder. */
  lemma {:induction false} DivModUnique(a: nat, d: nat, q: nat, r: nat)
    requires d > 0 && a == d * q + r && r < d
    ensures a / d == q && a % d == r
  {
    var q0, r0 := a / d, a % d;
    assert d * q0 + r0 == a;
    assert d * (q - q0) == r0 - r by {
      assert d * (q - q0) == d * q - d * q0;
    }
    if q > q0 {
      MulAtLeast(d, q - q0);
      assert false;
    } else if q < q0 {
      MulAtLeast(d, q0 - q);
      assert false;
    }
  }

  /** The quotient of naturals is a natural. */
  lemma DivIsNat(a: nat, d: nat)
    requires d > 0
    ensures a / d >= 0
  {
  }

  lemma {:induction false} MulAtLeast(d: nat, k: int)
    requires k >= 1
    ensures d * k >= d
  {
    var j: nat := k - 1;
    assert d * k == d * j + d;
  }

  lemma {:induction false} MulDistributes(x: nat, u: nat, v: nat)
    ensures x * (u + v) == x * u + x * v
  {
  }

  lemma {:induction false} MulAssociates(x: nat, y: nat, z: nat)
    ensures x * (y * z) == (x * y) * z
  {
  }

  lemma {:induction false} MulMonotone(x: nat, u: nat, v: nat)
    requires u <= v
    ensures x * u <= x * v
  {
    MulDistributes(x, u, v - u);
  }

  lemma {:induction false} DivDiv(a: nat, x: nat, y: nat)
    requires x > 0 && y > 0
    ensures a / (x * y) == (a / x) / y
  {
    var q, r := a / x, a % x;
    var q2, r2 := q / y, q % y;
    var p := x * y;
    assert a == x * q + r;
    assert q == y * q2 + r2;
    MulDistributes(x, y * q2, r2);
    MulAssociates(x, y, q2);
    assert x * q == p * q2 + x * r2;
    assert a == p * q2 + (x * r2 + r);
    MulMonotone(x, r2, y - 1);
    MulDistributes(x, y - 1, 1);
    assert x * r2 <= p - x;
    assert x * r2 + r < p;
    DivModUnique(a, p, q2, x * r2 + r);
  }

  /** The tag is the set index field shifted out once more:
      `address >> (s + b) == (address >> b) >> s`. */
  lemma {:induction false} TagIsShiftedSetField(address: nat, s: nat, b: nat)
    ensures Tag(address, s, b) == (address / Pow2(b)) / Pow2(s)
  {
    Pow2Add(s, b);
    assert Pow2(s + b) == Pow2(b) * Pow2(s);
    DivDiv(address, Pow2(b), Pow2(s));
  }

  /** Decoding loses nothing: tag, set index and offset put back together give the address. */
  lemma {:induction false} DecomposeCompose(address: nat, s: nat, b: nat)
    ensures Compose(Tag(address, s, b), SetIndex(address, s, b), BlockOffset(address, b), s, b) == address
  {
    TagIsShiftedSetField(address, s, b);
    var pb, ps := Pow2(b), Pow2(s);
    var q := address / pb;
    DivModIdentity(address, pb);
    DivModIdentity(q, ps);
    assert Tag(address, s, b) * ps + SetIndex(address, s, b) == q;
  }

  lemma {:induction false} DivModIdentity(a: nat, d: nat)
    requires d > 0
    ensures (a / d) * d + a % d == a
  {
  }

  /** And every field value in range is recovered by decoding the composed address. */
  lemma {:induction false} ComposeDecompose(tag: nat, setIndex: nat, offset: nat, s: nat, b: nat)
    requires setIndex < Pow2(s) && offset < Pow2(b)
    ensures Tag(Compose(tag, setIndex, offset, s, b), s, b) == tag
    ensures SetIndex(Compose(tag, setIndex, offset, s, b), s, b) == setIndex
    ensures BlockOffset(Compose(tag, setIndex, offset, s, b), b) == offset
  {
    var a := Compose(tag, setIndex, offset, s, b);
    var mid := tag * Pow2(s) + setIndex;
    DivModUnique(a, Pow2(b), mid, offset);
    DivModUnique(mid, Pow2(s), tag, setIndex);
    TagIsShiftedSetField(a, s, b);
  }

  /** Two addresses in the same block share set index and tag. */
  lemma {:induction false} SameBlockSameFields(a1: nat, a2: nat, s: nat, b: nat)
    requires a1 / Pow2(b) == a2 / Pow2(b)
    ensures SetIndex(a1, s, b) == SetIndex(a2, s, b) && Tag(a1, s, b) == Tag(a2, s, b)
  {
    TagIsShiftedSetField(a1, s, b);
    TagIsShiftedSetField(a2, s, b);
  }
}
