/**
 Bytes and words as flash holds them. A 32-bit C value is its four bytes in memory order; the
 value stores never do arithmetic on it, they compare it and clear bits in it.
 */
module Bits {
  import opened Arith

  type Byte = b: nat | b < 0x100

  /** An unsigned long, least significant byte first. */
  datatype Word = Word(b0: Byte, b1: Byte, b2: Byte, b3: Byte)

  /** 0xffffffff */
  const ERASED := Word(0xff, 0xff, 0xff, 0xff)

  const ZERO := Word(0, 0, 0, 0)

  /** Bitwise AND, from the low end. */
  function And(a: nat, b: nat): (r: nat)
    ensures r <= a && r <= b
  {
    if a == 0 || b == 0 then 0
    else 2 * And(a / 2, b / 2) + if a % 2 == 1 && b % 2 == 1 then 1 else 0
  }

  function AndByte(a: Byte, b: Byte): (r: Byte) {
    And(a, b)
  }

  function AndWord(a: Word, b: Word): (r: Word)
    ensures r == ERASED ==> a == ERASED && b == ERASED
  {
    Word(AndByte(a.b0, b.b0), AndByte(a.b1, b.b1), AndByte(a.b2, b.b2), AndByte(a.b3, b.b3))
  }

  function BytesOf(w: Word): (bs: seq<Byte>)
    ensures |bs| == 4
  {
    [w.b0, w.b1, w.b2, w.b3]
  }

  /** The law of AND: a bit of the result is set exactly when it is set in both. */
  lemma {:induction false} AndBits(a: nat, b: nat, i: nat)
    ensures BitAt(And(a, b), i) == 1 <==> BitAt(a, i) == 1 && BitAt(b, i) == 1
  {
    hide BitAt;
    if i == 0 {
      LowBit(a);
      LowBit(b);
      LowBit(And(a, b));
    } else if a == 0 || b == 0 {
      NoBits(i);
    } else {
      AndBits(a / 2, b / 2, i - 1);
      HalfBit(a, i - 1);
      HalfBit(b, i - 1);
      HalfBit(And(a, b), i - 1);
    }
  }

  lemma NoBits(i: nat)
    ensures BitAt(0, i) == 0
  {
  }

  /** The number that a word is to C: its bytes, least significant first. */
  function ValueOf(w: Word): (x: nat)
    ensures x < U32
  {
    w.b0 + 0x100 * w.b1 + 0x1_0000 * w.b2 + 0x100_0000 * w.b3
  }

  /** In memory the least significant byte comes first. */
  lemma LittleEndian(w: Word)
    ensures BytesOf(w)[0] == ValueOf(w) % 0x100
    ensures BytesOf(w)[1] == ValueOf(w) / 0x100 % 0x100
    ensures BytesOf(w)[2] == ValueOf(w) / 0x1_0000 % 0x100
    ensures BytesOf(w)[3] == ValueOf(w) / 0x100_0000
  {
    var x := ValueOf(w);
    assert x / 0x100 == w.b1 + 0x100 * w.b2 + 0x1_0000 * w.b3;
    assert x / 0x1_0000 == w.b2 + 0x100 * w.b3;
    assert x / 0x100_0000 == w.b3;
  }

  lemma SameDigits(d: nat, x: nat, e: nat, y: nat)
    requires d < 0x100 && e < 0x100 && d + 0x100 * x == e + 0x100 * y
    ensures d == e && x == y
  {
  }

  /** Words are the same exactly when the numbers are. */
  lemma ValueTellsWord(v: Word, w: Word)
    ensures ValueOf(v) == ValueOf(w) <==> v == w
  {
    if ValueOf(v) == ValueOf(w) {
      SameDigits(v.b0, v.b1 + 0x100 * v.b2 + 0x1_0000 * v.b3, w.b0, w.b1 + 0x100 * w.b2 + 0x1_0000 * w.b3);
      SameDigits(v.b1, v.b2 + 0x100 * v.b3, w.b1, w.b2 + 0x100 * w.b3);
      SameDigits(v.b2, v.b3, w.b2, w.b3);
    }
  }

  /** 0xffffffff and 0 */
  lemma Reserved()
    ensures ValueOf(ERASED) == 0xffff_ffff && ValueOf(ZERO) == 0
  {
  }

  lemma {:induction false} AndSymmetric(a: nat, b: nat)
    ensures And(a, b) == And(b, a)
  {
    if a > 0 && b > 0 {
      AndSymmetric(a / 2, b / 2);
    }
  }

  function Ones(k: nat): (r: nat) {
    if k == 0 then 0 else 2 * Ones(k - 1) + 1
  }

  /** k ones keep every k-bit number. */
  lemma {:induction false} AndOnes(k: nat, b: nat)
    requires b <= Ones(k)
    ensures And(Ones(k), b) == b
  {
    if k > 0 && b > 0 {
      AndOnes(k - 1, b / 2);
      assert Ones(k) % 2 == 1 && Ones(k) / 2 == Ones(k - 1);
    }
  }

  lemma ErasedKeepsByte(b: Byte)
    ensures AndByte(0xff, b) == b == AndByte(b, 0xff)
  {
    assert Ones(8) == 0xff;
    AndOnes(8, b);
    AndSymmetric(0xff, b);
  }

  /** The erased pattern takes any word exactly, and disturbs none. */
  lemma ErasedKeepsWord(w: Word)
    ensures AndWord(ERASED, w) == w == AndWord(w, ERASED)
  {
    ErasedKeepsByte(w.b0);
    ErasedKeepsByte(w.b1);
    ErasedKeepsByte(w.b2);
    ErasedKeepsByte(w.b3);
  }
}
