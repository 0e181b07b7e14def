/** The Bloom filter of `libbloom/bloom.c`: a byte array used as a set of bits. The hash
    is a parameter; its values are 32-bit. */
module Bloom {
  import opened Bytes

  const SEED := 0x9747b28c
  const WORD := 0x1_0000_0000

  /** `murmur(buffer, seed)`. */
  type Hash = (bytes, nat) -> nat

  /** Dimensions of a filter: bit count, number of hash positions, and the hash. */
  datatype Shape = Shape(bits: nat, hashes: nat, hash: Hash)

  ghost predicate ValidShape(s: Shape)
  {
    0 < s.bits && 0 < s.hashes
  }

  function Ceil(x: real): (n: int)
    ensures n as real - 1.0 < x <= n as real
  {
    -(-x).Floor
  }

  lemma {:induction false} Positive(n: nat, x: real)
    requires n as real * x >= 1.0
    ensures x > 0.0
  {
    assert x <= 0.0 ==> n as real * x <= 0.0;
  }

  /** The sizing of bloom_init, on real numbers: `bpe` is the number of bits per element that
      the logarithm of the error rate gives. Less than one bit in all counts as none. */
  function Sized(entries: nat, bpe: real, hash: Hash): (s: Shape)
    ensures ValidShape(s) <==> entries as real * bpe >= 1.0
    ensures ValidShape(s) ==> s.bits as real <= entries as real * bpe < s.bits as real + 1.0
  {
    if entries as real * bpe < 1.0 then Shape(0, 0, hash)
    else
      Positive(entries, bpe);
      Shape((entries as real * bpe).Floor, Ceil(0.693147180559945 * bpe), hash)
  }

  /** The i-th bit index of an element, with the 32-bit wrap-around of `a + i*b`. */
  function Position(s: Shape, e: bytes, i: nat): (x: nat)
    requires s.bits > 0
    ensures x < s.bits
  {
    var a := s.hash(e, SEED) % WORD;
    var b := s.hash(e, a) % WORD;
    (a + i * b) % WORD % s.bits
  }

  ghost function Positions(s: Shape, e: bytes, n: nat): (r: set<nat>)
    requires s.bits > 0
  {
    set i | 0 <= i < n :: Position(s, e, i)
  }

  /** Bit `x` belongs to the element through hash number `i`: two runs of the hash, the second seeded
      with the first, combined in 32 bits and reduced to the number of bits. */
  ghost predicate Marks(s: Shape, e: bytes, i: nat, x: nat)
    requires s.bits > 0
  {
    var a := s.hash(e, 0x9747b28c) % 0x1_0000_0000;
    x == (a + i * (s.hash(e, a) % 0x1_0000_0000)) % 0x1_0000_0000 % s.bits
  }

  lemma {:induction false} PositionsAre(s: Shape, e: bytes, x: nat)
    requires s.bits > 0
    ensures x in Positions(s, e, s.hashes) <==> exists i: nat :: i < s.hashes && Marks(s, e, i, x)
  {
    forall i: nat ensures Marks(s, e, i, x) <==> Position(s, e, i) == x {
    }
    hide Marks, Position;
  }

  // ---------- bits of a byte array ----------

  function Mask(k: nat): (m: bv8)
    requires k < 8
  {
    1 << k
  }

  predicate Bit(bf: seq<bv8>, x: nat)
    requires x / 8 < |bf|
  {
    bf[x / 8] & Mask(x % 8) != 0
  }

  lemma {:induction false} MaskBits(c: bv8, k: nat, j: nat)
    requires k < 8 && j < 8
    ensures (c | Mask(k)) & Mask(j) != 0 <==> c & Mask(j) != 0 || j == k
  {
    assert Mask(0) == 1 && Mask(1) == 2 && Mask(2) == 4 && Mask(3) == 8;
    assert Mask(4) == 16 && Mask(5) == 32 && Mask(6) == 64 && Mask(7) == 128;
  }

  /** The set of bit indices below `bits` that are set. */
  ghost function BitSet(bf: seq<bv8>, bits: nat): (r: set<nat>)
    requires bits <= 8 * |bf|
  {
    set x | 0 <= x < bits && Bit(bf, x)
  }

  lemma {:induction false} SetBit(bf: seq<bv8>, bits: nat, x: nat)
    requires bits <= 8 * |bf| && x < bits
    ensures BitSet(bf[x / 8 := bf[x / 8] | Mask(x % 8)], bits) == BitSet(bf, bits) + {x}
  {
    var bf' := bf[x / 8 := bf[x / 8] | Mask(x % 8)];
    forall y | 0 <= y < bits ensures Bit(bf', y) <==> Bit(bf, y) || y == x {
      if y / 8 == x / 8 {
        MaskBits(bf[x / 8], x % 8, y % 8);
      }
    }
  }

  lemma {:induction false} TestBit(bf: seq<bv8>, bits: nat, x: nat)
    requires bits <= 8 * |bf| && x < bits
    ensures x in BitSet(bf, bits) <==> bf[x / 8] & Mask(x % 8) != 0
    ensures x in BitSet(bf, bits) ==> BitSet(bf, bits) + {x} == BitSet(bf, bits)
  {
    hide Mask;
  }

  /** One filter. */
  class Filter {
    var ready: bool
    const shape: Shape
    const bf: array<bv8>

    ghost predicate Valid()
      reads this, bf
    {
      ValidShape(shape) && bf.Length == (shape.bits + 7) / 8
    }

    ghost function Bits(): (r: set<nat>)
      requires Valid()
      reads this, bf
    {
      BitSet(bf[..], shape.bits)
    }

    /** bloom_init, libbloom/bloom.c:81-114. A filter that is not ready is not used. One that is ready
        can be used exactly when it has a bit, since positions are remainders by their number. */
    constructor (entries: int, bpe: real, zeroError: bool, hash: Hash)
      ensures ready <==> entries >= 1000 && !zeroError
      ensures shape == if ready then Sized(entries, bpe, hash) else Shape(1, 1, hash)
      ensures Valid() <==> ready ==> entries as real * bpe >= 1.0
      ensures fresh(bf) && (Valid() ==> Bits() == {})
    {
      var fits := entries >= 1000 && !zeroError;
      var sized := if fits then Sized(entries, bpe, hash) else Shape(1, 1, hash);
      var bytes := if sized.bits % 8 != 0 then sized.bits / 8 + 1 else sized.bits / 8;
      ready, shape := fits, sized;
      bf := new bv8[bytes](_ => 0);
    }

    /** libbloom/bloom.c:24-39. */
    method TestBitSetBit(x: nat, setBit: bool) returns (hit: bool)
      requires Valid() && x < shape.bits
      modifies bf
      ensures hit <==> x in old(Bits())
      ensures Bits() == if setBit then old(Bits()) + {x} else old(Bits())
    {
      var byt := x / 8;
      var c := bf[byt];
      var mask := Mask(x % 8);
      hide Mask, BitSet;
      ghost var was := bf[..];
      TestBit(was, shape.bits, x);
      if c & mask != 0 {
        return true;
      }
      if setBit {
        SetBit(was, shape.bits, x);
        bf[byt] := c | mask;
        assert bf[..] == was[byt := c | mask];
      }
      return false;
    }

    /** libbloom/bloom.c:42-71: 1 when every position was set before the call. */
    method CheckAdd(e: bytes, add: bool) returns (r: int)
      requires Valid()
      modifies bf
      ensures !ready ==> r == -1 && Bits() == old(Bits())
      ensures ready ==> r == if Positions(shape, e, shape.hashes) <= old(Bits()) then 1 else 0
      ensures ready ==> Bits() == if add then old(Bits()) + Positions(shape, e, shape.hashes) else old(Bits())
    {
      if !ready {
        return -1;
      }
      var hits, i := 0, 0;
      while i < shape.hashes
        invariant 0 <= hits <= i <= shape.hashes
        invariant hits == i <==> Positions(shape, e, i) <= old(Bits())
        invariant !add ==> hits == i
        invariant Bits() == if add then old(Bits()) + Positions(shape, e, i) else old(Bits())
      {
        var x := Position(shape, e, i);
        assert Positions(shape, e, i + 1) == Positions(shape, e, i) + {x};
        var hit := TestBitSetBit(x, add);
        if hit {
          hits := hits + 1;
        } else if !add {
          assert x in Positions(shape, e, shape.hashes);
          return 0;
        }
        i := i + 1;
      }
      return if hits == shape.hashes then 1 else 0;
    }

    /** bloom_check, libbloom/bloom.c:117-120: whether all bits of the element are set. */
    method Check(e: bytes) returns (r: int)
      requires Valid()
      modifies bf
      ensures Bits() == old(Bits())
      ensures r == if !ready then -1 else if Positions(shape, e, shape.hashes) <= Bits() then 1 else 0
    {
      hide Positions, BitSet;
      r := CheckAdd(e, false);
    }

    /** bloom_add, libbloom/bloom.c:123-126: the bits of the element are set, and nothing else. */
    method Add(e: bytes) returns (r: int)
      requires Valid()
      modifies bf
      ensures !ready ==> r == -1 && Bits() == old(Bits())
      ensures ready ==> r == (if Positions(shape, e, shape.hashes) <= old(Bits()) then 1 else 0)
                        && Bits() == old(Bits()) + Positions(shape, e, shape.hashes)
      ensures ready ==> forall x: nat :: x in Bits() <==>
                          x in old(Bits()) || exists i: nat :: i < shape.hashes && Marks(shape, e, i, x)
    {
      hide Positions, BitSet, Marks;
      r := CheckAdd(e, true);
      forall x: nat ensures x in Positions(shape, e, shape.hashes)
                            <==> exists i: nat :: i < shape.hashes && Marks(shape, e, i, x) {
        PositionsAre(shape, e, x);
      }
    }

    /** libbloom/bloom.c:150-155. */
    method Reset()
      requires Valid()
      modifies bf
      ensures Bits() == if ready then {} else old(Bits())
    {
      if ready {
        forall k | 0 <= k < bf.Length {
          bf[k] := 0;
        }
      }
    }
  }
}
