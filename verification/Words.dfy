/** Bytes, little-endian words and bit arithmetic shared by the other modules. */
module Words {

  type byte = value: int | 0 <= value < 256

  /** Sizes of an unsigned int and of a 64-bit word. */
  const UINT := 0x1_0000_0000
  const WORD := 0x1_0000_0000_0000_0000

  /** 256 to the power `n`. */
  function Pow256(n: nat): (p: nat)
    ensures p > 0
  {
    if n == 0 then 1 else 256 * Pow256(n - 1)
  }

  /** The number whose little-endian representation is `bytes`. */
  function Decode(bytes: seq<byte>): nat {
    if bytes == [] then 0 else bytes[0] + 256 * Decode(bytes[1..])
  }

  /** The `n` low-order bytes of `value`, least significant first. */
  function Encode(value: nat, n: nat): (bytes: seq<byte>)
    ensures |bytes| == n
  {
    if n == 0 then [] else [value % 256] + Encode(value / 256, n - 1)
  }

  lemma {:induction false} DecodeEncode(value: nat, n: nat)
    requires value < Pow256(n)
    ensures Decode(Encode(value, n)) == value
  {
    if n > 0 {
      assert value / 256 < Pow256(n - 1);
      DecodeEncode(value / 256, n - 1);
      assert Encode(value, n)[1..] == Encode(value / 256, n - 1);
    }
  }

  lemma {:induction false} EncodeDecode(bytes: seq<byte>)
    ensures Decode(bytes) < Pow256(|bytes|)
    ensures Encode(Decode(bytes), |bytes|) == bytes
  {
    if bytes != [] {
      EncodeDecode(bytes[1..]);
      assert Decode(bytes) % 256 == bytes[0] && Decode(bytes) / 256 == Decode(bytes[1..]);
    }
  }

  /** Whether binary digit `k` of `b` is one: `(b & (1 << k)) != 0`. */
  predicate Bit(b: nat, k: nat) {
    if k == 0 then b % 2 == 1 else Bit(b / 2, k - 1)
  }

  /** `b | (1 << k)` */
  function Raise(b: nat, k: nat): nat {
    if k == 0 then b - b % 2 + 1 else 2 * Raise(b / 2, k - 1) + b % 2
  }

  /** `b & ~(1 << k)` */
  function Lower(b: nat, k: nat): nat {
    if k == 0 then b - b % 2 else 2 * Lower(b / 2, k - 1) + b % 2
  }

  /** `a | b` */
  function Or(a: nat, b: nat): nat {
    if a == 0 then b
    else 2 * Or(a / 2, b / 2) + if a % 2 == 1 || b % 2 == 1 then 1 else 0
  }

  /** `Or` is the operator on binary digits. */
  lemma {:induction false} OrBits(a: nat, b: nat, k: nat)
    ensures Bit(Or(a, b), k) <==> Bit(a, k) || Bit(b, k)
  {
    if a == 0 {
      NoBits(k);
    } else if k > 0 {
      OrBits(a / 2, b / 2, k - 1);
    }
  }

  lemma {:induction false} NoBits(k: nat)
    ensures !Bit(0, k)
  {
    if k > 0 {
      NoBits(k - 1);
    }
  }

  lemma {:induction false} OrFits(a: nat, b: nat, n: nat)
    requires a < Pow2(n) && b < Pow2(n)
    ensures Or(a, b) < Pow2(n)
  {
    if a != 0 && n > 0 {
      OrFits(a / 2, b / 2, n - 1);
    }
  }

  lemma {:induction false} OrNone(a: nat)
    ensures Or(a, 0) == a
  {
    if a != 0 {
      OrNone(a / 2);
    }
  }

  lemma OrDoubled(a: nat, b: nat)
    ensures Or(2 * a, b) == 2 * Or(a, b / 2) + b % 2
  {
  }

  lemma OrBy16(a: nat, b: nat)
    ensures Or(16 * a, b) == 16 * Or(a, b / 16) + b % 16
  {
    hide Or;
    OrDoubled(8 * a, b);
    OrDoubled(4 * a, b / 2);
    OrDoubled(2 * a, b / 4);
    OrDoubled(a, b / 8);
    assert b / 2 / 2 == b / 4 && b / 4 / 2 == b / 8 && b / 8 / 2 == b / 16;
    assert b % 16 == 8 * (b / 8 % 2) + 4 * (b / 4 % 2) + 2 * (b / 2 % 2) + b % 2;
  }

  /** The low twelve bits, which a page-aligned operand does not have, come from the other. */
  lemma OrBy4096(a: nat, b: nat)
    ensures Or(4096 * a, b) == 4096 * Or(a, b / 4096) + b % 4096
  {
    hide Or;
    OrBy16(256 * a, b);
    OrBy16(16 * a, b / 16);
    OrBy16(a, b / 256);
    assert b / 16 / 16 == b / 256 && b / 256 / 16 == b / 4096;
    assert b % 4096 == 256 * (b / 256 % 16) + 16 * (b / 16 % 16) + b % 16;
  }

  lemma OrOne(a: nat)
    ensures Or(a, 1) == if a % 2 == 1 then a else a + 1
  {
    OrNone(a / 2);
  }

  function Pow2(n: nat): (p: nat)
    ensures p > 0
  {
    if n == 0 then 1 else 2 * Pow2(n - 1)
  }

  lemma {:induction false} RaiseFits(b: nat, k: nat, n: nat)
    requires b < Pow2(n) && k < n
    ensures Raise(b, k) < Pow2(n)
  {
    if k > 0 {
      RaiseFits(b / 2, k - 1, n - 1);
    }
  }

  lemma {:induction false} LowerFits(b: nat, k: nat)
    ensures Lower(b, k) <= b
  {
    if k > 0 {
      LowerFits(b / 2, k - 1);
    }
  }

  lemma {:induction false} BitRaise(b: nat, k: nat, j: nat)
    ensures Bit(Raise(b, k), j) <==> j == k || Bit(b, j)
  {
    if k > 0 && j > 0 {
      BitRaise(b / 2, k - 1, j - 1);
    }
  }

  lemma {:induction false} BitLower(b: nat, k: nat, j: nat)
    ensures Bit(Lower(b, k), j) <==> j != k && Bit(b, j)
  {
    if k > 0 && j > 0 {
      BitLower(b / 2, k - 1, j - 1);
    }
  }

  /** The byte after `b |= 1 << k`. */
  function RaiseByte(b: byte, k: nat): byte
    requires k < 8
  {
    assert Pow2(8) == 256;
    RaiseFits(b, k, 8);
    Raise(b, k)
  }

  /** The byte after `b &= ~(1 << k)`. */
  function LowerByte(b: byte, k: nat): byte
    requires k < 8
  {
    LowerFits(b, k);
    Lower(b, k)
  }

  /** Whether bit `i` of a bitmap, eight bits to a byte, is one. */
  predicate IsSet(bitmap: seq<byte>, i: nat)
    requires i < 8 * |bitmap|
  {
    Bit(bitmap[i / 8], i % 8)
  }

  function SetBit(bitmap: seq<byte>, i: nat): seq<byte>
    requires i < 8 * |bitmap|
  {
    bitmap[i / 8 := RaiseByte(bitmap[i / 8], i % 8)]
  }

  function ClearBit(bitmap: seq<byte>, i: nat): seq<byte>
    requires i < 8 * |bitmap|
  {
    bitmap[i / 8 := LowerByte(bitmap[i / 8], i % 8)]
  }

  lemma SetBitSets(bitmap: seq<byte>, i: nat, j: nat)
    requires i < 8 * |bitmap| && j < 8 * |bitmap|
    ensures IsSet(SetBit(bitmap, i), j) <==> j == i || IsSet(bitmap, j)
  {
    BitRaise(bitmap[i / 8], i % 8, j % 8);
  }

  lemma ClearBitClears(bitmap: seq<byte>, i: nat, j: nat)
    requires i < 8 * |bitmap| && j < 8 * |bitmap|
    ensures IsSet(ClearBit(bitmap, i), j) <==> j != i && IsSet(bitmap, j)
  {
    BitLower(bitmap[i / 8], i % 8, j % 8);
  }

  /** The number of zero bits among the first `n` bits of a bitmap. */
  function ClearBelow(bitmap: seq<byte>, n: nat): nat
    requires n <= 8 * |bitmap|
  {
    if n == 0 then 0 else ClearBelow(bitmap, n - 1) + if IsSet(bitmap, n - 1) then 0 else 1
  }

  /** The number of zero bits of a bitmap. */
  function ClearCount(bitmap: seq<byte>): nat {
    ClearBelow(bitmap, 8 * |bitmap|)
  }

  lemma {:induction false} SameBitsSameCount(a: seq<byte>, b: seq<byte>, n: nat)
    requires |a| == |b| && n <= 8 * |a|
    requires forall i: nat :: i < n ==> (IsSet(a, i) <==> IsSet(b, i))
    ensures ClearBelow(a, n) == ClearBelow(b, n)
  {
    if n > 0 {
      SameBitsSameCount(a, b, n - 1);
    }
  }

  /** Two bitmaps that differ in one bit differ by one in their count. */
  lemma {:induction false} OneBitCount(clear: seq<byte>, full: seq<byte>, i: nat, n: nat)
    requires |clear| == |full| && i < n <= 8 * |clear|
    requires !IsSet(clear, i) && IsSet(full, i)
    requires forall j: nat :: j < n && j != i ==> (IsSet(clear, j) <==> IsSet(full, j))
    ensures ClearBelow(clear, n) == ClearBelow(full, n) + 1
  {
    if n - 1 == i {
      SameBitsSameCount(clear, full, n - 1);
    } else {
      OneBitCount(clear, full, i, n - 1);
    }
  }

  lemma SetBitCount(bitmap: seq<byte>, i: nat)
    requires i < 8 * |bitmap| && !IsSet(bitmap, i)
    ensures ClearCount(bitmap) == ClearCount(SetBit(bitmap, i)) + 1
  {
    forall j: nat | j < 8 * |bitmap| {
      SetBitSets(bitmap, i, j);
    }
    OneBitCount(bitmap, SetBit(bitmap, i), i, 8 * |bitmap|);
  }

  lemma ClearBitCount(bitmap: seq<byte>, i: nat)
    requires i < 8 * |bitmap|
    ensures ClearCount(ClearBit(bitmap, i)) == ClearCount(bitmap) + if IsSet(bitmap, i) then 1 else 0
  {
    forall j: nat | j < 8 * |bitmap| {
      ClearBitClears(bitmap, i, j);
    }
    if IsSet(bitmap, i) {
      OneBitCount(ClearBit(bitmap, i), bitmap, i, 8 * |bitmap|);
    } else {
      SameBitsSameCount(ClearBit(bitmap, i), bitmap, 8 * |bitmap|);
    }
  }

  /** The positions of the zero bits among the first `n`. */
  function ClearSet(bitmap: seq<byte>, n: nat): set<nat>
    requires n <= 8 * |bitmap|
  {
    set i: nat | i < n && !IsSet(bitmap, i)
  }

  lemma {:induction false} ClearSetSize(bitmap: seq<byte>, n: nat)
    requires n <= 8 * |bitmap|
    ensures |ClearSet(bitmap, n)| == ClearBelow(bitmap, n)
  {
    if n > 0 {
      ClearSetSize(bitmap, n - 1);
      if IsSet(bitmap, n - 1) {
        assert ClearSet(bitmap, n) == ClearSet(bitmap, n - 1);
      } else {
        assert ClearSet(bitmap, n) == ClearSet(bitmap, n - 1) + {n - 1};
      }
    } else {
      assert ClearSet(bitmap, n) == {};
    }
  }
}
