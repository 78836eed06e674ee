/**
 The bit-packed tree of the binary-tree buddy (btbuddy.cpp).  Nodes of the upper levels take a byte
 each; the last three levels take 2, 2 and 1 bits a node.  Read and written through `Get` and `Set`
 it behaves as a plain array with one entry for each node.
 */
module PackedTree {
  import opened Powers

  /** `_btBits`. */
  function BtBits(L: nat, l: nat): (b: nat)
    requires l < L
    ensures b == 1 || b == 2 || b == 8
  {
    if l + 1 == L then 1 else if l + 3 >= L then 2 else 8
  }

  /** The bytes a level takes, rounded up to whole bytes. */
  function LevelBytes(L: nat, l: nat): nat
    requires l < L
  {
    (Pow2(l) * BtBits(L, l) + 7) / 8
  }

  /** `_levelOffsets`. */
  function Offset(L: nat, l: nat): nat
    requires l <= L
  {
    if l == 0 then 0 else Offset(L, l - 1) + LevelBytes(L, l - 1)
  }

  /** `level_of_index`: the level `l` with `2^l - 1 <= index < 2^(l+1) - 1`. */
  function LevelOfIndex(index: nat): (l: nat)
    ensures Pow2(l) - 1 <= index < Pow2(l + 1) - 1
  {
    if index == 0 then 0 else LevelOfIndex((index - 1) / 2) + 1
  }

  lemma LevelOfIndexIs(index: nat, l: nat)
    requires Pow2(l) - 1 <= index < Pow2(l + 1) - 1
    ensures LevelOfIndex(index) == l
  {
    var m := LevelOfIndex(index);
    if m < l {
      Pow2Mono(m + 1, l);
    } else if l < m {
      Pow2Mono(l + 1, m);
    }
  }

  // Positions

  /** The place of node `n` within its level. */
  function Place(n: nat): nat {
    n - (Pow2(LevelOfIndex(n)) - 1)
  }

  /** How many bits the nodes of the level before `n` take. */
  function BitsBefore(L: nat, n: nat): nat
    requires LevelOfIndex(n) < L
  {
    Place(n) * BtBits(L, LevelOfIndex(n))
  }

  function BytePos(L: nat, n: nat): nat
    requires LevelOfIndex(n) < L
  {
    Offset(L, LevelOfIndex(n)) + BitsBefore(L, n) / 8
  }

  function BitPos(L: nat, n: nat): (b: nat)
    requires LevelOfIndex(n) < L
    ensures b < 8
  {
    BitsBefore(L, n) % 8
  }

  /** Above the packed levels a node's byte is the one with its own number. */
  lemma {:induction false} DirectOffset(L: nat, l: nat)
    requires l + 3 <= L
    ensures Offset(L, l) == Pow2(l) - 1
  {
    if l > 0 {
      DirectOffset(L, l - 1);
    }
  }

  lemma DirectByte(L: nat, n: nat)
    requires LevelOfIndex(n) + 3 < L
    ensures BytePos(L, n) == n && BitPos(L, n) == 0
  {
    DirectOffset(L, LevelOfIndex(n));
  }

  /** A node's byte lies among the bytes of its level. */
  lemma ByteInLevel(L: nat, n: nat)
    requires LevelOfIndex(n) < L
    ensures var l := LevelOfIndex(n); Offset(L, l) <= BytePos(L, n) < Offset(L, l + 1)
  {
    var l := LevelOfIndex(n);
    var b := BtBits(L, l);
    assert Place(n) < Pow2(l);
    if b == 1 {
    } else if b == 2 {
    } else {
    }
  }

  lemma {:induction false} OffsetMono(L: nat, l: nat, m: nat)
    requires l <= m <= L
    ensures Offset(L, l) <= Offset(L, m)
    decreases m
  {
    if l < m {
      OffsetMono(L, l, m - 1);
    }
  }

  /** All levels fit into the `2^L` bytes of the array. */
  lemma {:induction false} OffsetBound(L: nat, l: nat)
    requires l <= L && L >= 3
    ensures Offset(L, l) <= Pow2(l)
  {
    if l > 0 {
      OffsetBound(L, l - 1);
      if l + 2 <= L {
        DirectOffset(L, l - 1);
      }
    }
  }

  /** The bytes of a level come before those of the levels below it. */
  lemma {:induction false} ByteBefore(L: nat, n: nat, m: nat)
    requires LevelOfIndex(n) < LevelOfIndex(m) < L
    ensures BytePos(L, n) < BytePos(L, m)
  {
    ByteInLevel(L, n);
    ByteInLevel(L, m);
    OffsetMono(L, LevelOfIndex(n) + 1, LevelOfIndex(m));
  }

  lemma {:induction false} SameByteLevel(L: nat, n: nat, m: nat)
    requires LevelOfIndex(n) < L && LevelOfIndex(m) < L
    requires BytePos(L, n) == BytePos(L, m)
    ensures LevelOfIndex(n) == LevelOfIndex(m)
  {
    if LevelOfIndex(n) < LevelOfIndex(m) {
      ByteBefore(L, n, m);
    } else if LevelOfIndex(m) < LevelOfIndex(n) {
      ByteBefore(L, m, n);
    }
  }

  /** Two nodes share a byte only within a level, and then their bits are apart. */
  lemma Apart(L: nat, n: nat, m: nat)
    requires LevelOfIndex(n) < L && LevelOfIndex(m) < L && n != m
    requires BytePos(L, n) == BytePos(L, m)
    ensures LevelOfIndex(n) == LevelOfIndex(m) && LevelOfIndex(n) + 3 >= L
    ensures BitPos(L, n) != BitPos(L, m)
    ensures BtBits(L, LevelOfIndex(n)) == 2 ==> BitPos(L, n) % 2 == 0 && BitPos(L, m) % 2 == 0
  {
    SameByteLevel(L, n, m);
    SlotsApart(Place(n), Place(m), BtBits(L, LevelOfIndex(n)));
  }

  lemma SlotsApart(k: nat, j: nat, b: nat)
    requires b == 1 || b == 2 || b == 8
    requires k != j && k * b / 8 == j * b / 8
    ensures b != 8 && k * b % 8 != j * b % 8
    ensures b == 2 ==> k * b % 8 % 2 == 0 && j * b % 8 % 2 == 0
  {
    if b == 1 {
    } else if b == 2 {
    } else {
    }
  }

  // Bits

  /** `bitmask_table`: all bits but the `bits` ones from `bit` on. */
  function Mask(bits: nat, bit: nat): bv8 {
    if bits == 1 then
      (if bit == 0 then 0xFE else if bit == 1 then 0xFD else if bit == 2 then 0xFB else if bit == 3 then 0xF7
       else if bit == 4 then 0xEF else if bit == 5 then 0xDF else if bit == 6 then 0xBF else 0x7F)
    else if bit == 0 then 0xFC else if bit == 2 then 0xF3 else if bit == 4 then 0xCF else if bit == 6 then 0x3F else 0
  }

  function PutBits(byte: bv8, bits: nat, bit: nat, value: bv8): bv8
    requires bit < 8
  {
    (byte & Mask(bits, bit)) | (value << bit)
  }

  function GetBits(byte: bv8, bits: nat, bit: nat): bv8
    requires bit < 8 && 1 <= bits <= 8
  {
    (byte >> bit) & (0xFF >> (8 - bits))
  }

  lemma PutGet(byte: bv8, bits: nat, bit: nat, value: bv8)
    requires (bits == 1 && bit < 8 && value < 2) || (bits == 2 && bit < 8 && bit % 2 == 0 && value < 4)
    ensures GetBits(PutBits(byte, bits, bit, value), bits, bit) == value
  {
    if bit == 0 {
    } else if bit == 1 {
    } else if bit == 2 {
    } else if bit == 3 {
    } else if bit == 4 {
    } else if bit == 5 {
    } else if bit == 6 {
    } else {
    }
  }

  /** Writing one slot of a byte leaves the others alone. */
  lemma PutOther(byte: bv8, bits: nat, bit: nat, value: bv8, other: nat)
    requires (bits == 1 && bit < 8 && other < 8 && value < 2) ||
      (bits == 2 && bit < 8 && bit % 2 == 0 && other < 8 && other % 2 == 0 && value < 4)
    requires bit != other
    ensures GetBits(PutBits(byte, bits, bit, value), bits, other) == GetBits(byte, bits, other)
  {
    if bits == 2 {
      PutOtherPair(byte, bit, value, other);
    } else if bit < 4 {
      PutOtherLow(byte, bit, value, other);
    } else {
      PutOtherHigh(byte, bit, value, other);
    }
  }

  lemma PutOtherPair(byte: bv8, bit: nat, value: bv8, other: nat)
    requires bit < 8 && bit % 2 == 0 && other < 8 && other % 2 == 0 && value < 4 && bit != other
    ensures GetBits(PutBits(byte, 2, bit, value), 2, other) == GetBits(byte, 2, other)
  {
    if bit == 0 {
    } else if bit == 2 {
    } else if bit == 4 {
    } else {
    }
    if other == 0 {
    } else if other == 2 {
    } else if other == 4 {
    } else {
    }
  }

  lemma PutOtherLow(byte: bv8, bit: nat, value: bv8, other: nat)
    requires bit < 4 && other < 8 && value < 2 && bit != other
    ensures GetBits(PutBits(byte, 1, bit, value), 1, other) == GetBits(byte, 1, other)
  {
    if bit == 0 {
    } else if bit == 1 {
    } else if bit == 2 {
    } else {
    }
    if other == 0 {
    } else if other == 1 {
    } else if other == 2 {
    } else if other == 3 {
    } else if other == 4 {
    } else if other == 5 {
    } else if other == 6 {
    } else {
    }
  }

  lemma PutOtherHigh(byte: bv8, bit: nat, value: bv8, other: nat)
    requires 4 <= bit < 8 && other < 8 && value < 2 && bit != other
    ensures GetBits(PutBits(byte, 1, bit, value), 1, other) == GetBits(byte, 1, other)
  {
    if bit == 4 {
    } else if bit == 5 {
    } else if bit == 6 {
    } else {
    }
    if other == 0 {
    } else if other == 1 {
    } else if other == 2 {
    } else if other == 3 {
    } else if other == 4 {
    } else if other == 5 {
    } else if other == 6 {
    } else {
    }
  }

  /** The byte of a small number, built bit by bit, and back. */
  function ToByte(v: nat): bv8
    requires v < 256
  {
    if v == 0 then 0 else (ToByte(v / 2) << 1) | (if v % 2 == 1 then 1 else 0)
  }

  function FromByte(b: bv8): nat
    decreases b
  {
    if b == 0 then 0 else 2 * FromByte(b >> 1) + (if b & 1 != 0 then 1 else 0)
  }

  /** The largest byte of `k` bits. */
  function Largest(k: nat): bv8 {
    if k == 0 then 0 else if k == 1 then 1 else if k == 2 then 3 else if k == 3 then 7
    else if k == 4 then 15 else if k == 5 then 31 else if k == 6 then 63 else if k == 7 then 127 else 255
  }

  lemma {:induction false} ByteRange(v: nat, k: nat)
    requires v < Pow2(k) && k <= 8 && v < 256
    ensures ToByte(v) <= Largest(k)
  {
    if v > 0 {
      ByteRange(v / 2, k - 1);
      ShiftIn(ToByte(v / 2), k, if v % 2 == 1 then 1 else 0);
    }
  }

  lemma ShiftIn(x: bv8, k: nat, bit: bv8)
    requires 0 < k <= 8 && x <= Largest(k - 1) && bit <= 1
    ensures (x << 1) | bit <= Largest(k)
  {
    if k == 1 {
    } else if k == 2 {
    } else if k == 3 {
    } else if k == 4 {
    } else if k == 5 {
    } else if k == 6 {
    } else if k == 7 {
    } else {
    }
  }

  lemma ShiftBack(x: bv8, bit: bv8)
    requires x <= 127 && bit <= 1
    ensures ((x << 1) | bit) >> 1 == x && ((x << 1) | bit) & 1 == bit
    ensures (x << 1) | bit == 0 <==> x == 0 && bit == 0
  {
  }

  lemma {:induction false} ByteValue(v: nat)
    requires v < 256
    ensures FromByte(ToByte(v)) == v
    ensures ToByte(v) == 0 <==> v == 0
  {
    if v > 0 {
      ByteValue(v / 2);
      assert Pow2(7) == 128;
      ByteRange(v / 2, 7);
      ShiftBack(ToByte(v / 2), if v % 2 == 1 then 1 else 0);
    }
  }

  lemma TwoBits(v: nat)
    requires v < 4
    ensures ToByte(v) < 4
  {
    ByteRange(v, 2);
  }

  lemma OneBit(v: nat)
    requires v < 2
    ensures ToByte(v) < 2
  {
    ByteRange(v, 1);
  }

  // The tree

  /** What `get_tree` reads. */
  function Decode(L: nat, bytes: seq<bv8>, n: nat): nat
    requires LevelOfIndex(n) < L && BytePos(L, n) < |bytes|
  {
    var l := LevelOfIndex(n);
    if l + 3 < L then FromByte(bytes[BytePos(L, n)])
    else FromByte(GetBits(bytes[BytePos(L, n)], BtBits(L, l), BitPos(L, n)))
  }

  /** What `set_tree` writes. */
  function Encode(L: nat, bytes: seq<bv8>, n: nat, v: nat): (after: seq<bv8>)
    requires LevelOfIndex(n) < L && BytePos(L, n) < |bytes| && v < 256
    ensures |after| == |bytes|
  {
    var l := LevelOfIndex(n);
    var i := BytePos(L, n);
    if l + 3 < L then bytes[i := ToByte(v)]
    else bytes[i := PutBits(bytes[i], BtBits(L, l), BitPos(L, n), ToByte(v))]
  }

  /** The values a node of level `l` can hold: the heights of blocks of that level. */
  predicate FitsLevel(L: nat, n: nat, v: nat) {
    LevelOfIndex(n) < L && v <= L - LevelOfIndex(n) && L < 256
  }

  lemma PosBound(L: nat, n: nat)
    requires LevelOfIndex(n) < L && L >= 3
    ensures BytePos(L, n) < Pow2(L)
  {
    ByteInLevel(L, n);
    OffsetMono(L, LevelOfIndex(n) + 1, L);
    OffsetBound(L, L);
  }

  /** Reading back what was written, and what was there before at every other node. */
  lemma DecodeEncode(L: nat, bytes: seq<bv8>, n: nat, v: nat, m: nat)
    requires L >= 3 && |bytes| == Pow2(L)
    requires FitsLevel(L, n, v) && LevelOfIndex(m) < L
    ensures BytePos(L, n) < |bytes| && BytePos(L, m) < |bytes|
    ensures Decode(L, Encode(L, bytes, n, v), m) == if m == n then v else Decode(L, bytes, m)
  {
    PosBound(L, n);
    PosBound(L, m);
    ByteValue(v);
    if LevelOfIndex(n) + 3 >= L {
      if BtBits(L, LevelOfIndex(n)) == 1 {
        OneBit(v);
      } else {
        TwoBits(v);
      }
      BitEven(L, n);
      if m == n {
        PutGet(bytes[BytePos(L, n)], BtBits(L, LevelOfIndex(n)), BitPos(L, n), ToByte(v));
      }
    }
    if m != n && BytePos(L, m) == BytePos(L, n) {
      Apart(L, n, m);
      PutOther(bytes[BytePos(L, n)], BtBits(L, LevelOfIndex(n)), BitPos(L, n), ToByte(v), BitPos(L, m));
    }
  }

  lemma BitEven(L: nat, n: nat)
    requires LevelOfIndex(n) < L
    ensures BtBits(L, LevelOfIndex(n)) == 2 ==> BitPos(L, n) % 2 == 0
  {
    EvenRemainder(Place(n));
  }

  lemma EvenRemainder(p: nat)
    ensures p * 2 % 8 % 2 == 0
  {
  }

  ghost predicate Holds(L: nat, bytes: seq<bv8>, plain: seq<nat>, n: nat) {
    LevelOfIndex(n) < L && BytePos(L, n) < |bytes| && n < |plain| && Decode(L, bytes, n) == plain[n]
  }

  /** The first `count` nodes read as the plain array says. */
  ghost predicate HoldsUpTo(L: nat, bytes: seq<bv8>, plain: seq<nat>, count: nat) {
    |bytes| == Pow2(L) == |plain| && forall n :: 0 <= n < count ==> Holds(L, bytes, plain, n)
  }

  lemma NodeLevel(L: nat, n: nat)
    requires n < Pow2(L) - 1
    ensures LevelOfIndex(n) < L
  {
    if L <= LevelOfIndex(n) {
      Pow2Mono(L, LevelOfIndex(n));
    }
  }

  /** Writing node `n` keeps all the others. */
  lemma WriteNode(L: nat, bytes: seq<bv8>, plain: seq<nat>, n: nat, v: nat, count: nat)
    requires L >= 3 && HoldsUpTo(L, bytes, plain, count) && count < Pow2(L)
    requires n < Pow2(L) - 1 && n <= count && FitsLevel(L, n, v)
    ensures BytePos(L, n) < |bytes|
    ensures HoldsUpTo(L, Encode(L, bytes, n, v), plain[n := v], if n == count then count + 1 else count)
  {
    PosBound(L, n);
    var bytes' := Encode(L, bytes, n, v);
    var plain' := plain[n := v];
    forall m | 0 <= m < (if n == count then count + 1 else count)
      ensures Holds(L, bytes', plain', m)
    {
      NodeLevel(L, m);
      DecodeEncode(L, bytes, n, v, m);
      assert m < count ==> Holds(L, bytes, plain, m);
    }
  }

  class Tree {
    const L: nat
    const bytes: array<bv8>
    ghost var plain: seq<nat>

    ghost predicate Valid()
      reads this, bytes
    {
      3 <= L < 256 && HoldsUpTo(L, bytes[..], plain, Pow2(L) - 1)
    }

    /** Every node at its full height, as `init_bitmaps` leaves an empty region. */
    constructor (L: nat)
      requires 3 <= L < 256
      ensures Valid() && fresh(bytes) && this.L == L
      ensures forall n :: 0 <= n < Pow2(L) - 1 ==> plain[n] == L - LevelOfIndex(n)
    {
      this.L := L;
      this.bytes := new bv8[Pow2(L)];
      this.plain := seq(Pow2(L), i => 0);
      new;
      FillHeights();
    }

    method FillHeights()
      requires 3 <= L < 256 && bytes.Length == Pow2(L) == |plain|
      modifies this, bytes
      ensures Valid()
      ensures forall n :: 0 <= n < Pow2(L) - 1 ==> plain[n] == L - LevelOfIndex(n)
    {
      var n := 0;
      while n < Pow2(L) - 1
        invariant n <= Pow2(L) - 1
        invariant HoldsUpTo(L, bytes[..], plain, n)
        invariant forall m :: 0 <= m < n ==> plain[m] == L - LevelOfIndex(m)
      {
        NodeLevel(L, n);
        Write(n, L - LevelOfIndex(n), n);
        n := n + 1;
      }
    }

    /** `set_tree`; the nodes known to hold their values so far are the first `count`. */
    method Write(n: nat, v: nat, ghost count: nat)
      requires 3 <= L < 256 && HoldsUpTo(L, bytes[..], plain, count) && count < Pow2(L)
      requires n < Pow2(L) - 1 && n <= count && FitsLevel(L, n, v)
      modifies this`plain, bytes
      ensures plain == old(plain)[n := v]
      ensures HoldsUpTo(L, bytes[..], plain, if n == count then count + 1 else count)
    {
      WriteNode(L, bytes[..], plain, n, v, count);
      var l := LevelOfIndex(n);
      var i := BytePos(L, n);
      if l + 3 < L {
        DirectByte(L, n);
        bytes[n] := ToByte(v);
      } else {
        bytes[i] := PutBits(bytes[i], BtBits(L, l), BitPos(L, n), ToByte(v));
      }
      plain := plain[n := v];
      assert bytes[..] == Encode(L, old(bytes[..]), n, v);
    }

    method Set(n: nat, v: nat)
      requires Valid() && n < Pow2(L) - 1 && FitsLevel(L, n, v)
      modifies this`plain, bytes
      ensures Valid() && plain == old(plain)[n := v]
    {
      Write(n, v, Pow2(L) - 1);
    }

    /** `get_tree`. */
    method Get(n: nat) returns (v: nat)
      requires Valid() && n < Pow2(L) - 1
      ensures v == plain[n]
    {
      assert Holds(L, bytes[..], plain, n);
      var l := LevelOfIndex(n);
      if l + 3 < L {
        DirectByte(L, n);
        return FromByte(bytes[n]);
      }
      return FromByte(GetBits(bytes[BytePos(L, n)], BtBits(L, l), BitPos(L, n)));
    }
  }
}
