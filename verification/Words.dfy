/** 32-bit words as four bytes, most significant first. */
module Words {
  import opened ByteBits

  datatype Word = Word(b3: bv8, b2: bv8, b1: bv8, b0: bv8)

  function XorByte(x: bv8, y: bv8): bv8 {
    x ^ y
  }

  function AndByte(x: bv8, y: bv8): bv8 {
    x & y
  }

  function OrByte(x: bv8, y: bv8): bv8 {
    x | y
  }

  function Xor(x: Word, y: Word): Word {
    Word(XorByte(x.b3, y.b3), XorByte(x.b2, y.b2), XorByte(x.b1, y.b1), XorByte(x.b0, y.b0))
  }

  function And(x: Word, y: Word): Word {
    Word(AndByte(x.b3, y.b3), AndByte(x.b2, y.b2), AndByte(x.b1, y.b1), AndByte(x.b0, y.b0))
  }

  function Or(x: Word, y: Word): Word {
    Word(OrByte(x.b3, y.b3), OrByte(x.b2, y.b2), OrByte(x.b1, y.b1), OrByte(x.b0, y.b0))
  }

  function ShiftByte(x: bv8, below: bv8): bv8 {
    (x << 1) | (below >> 7)
  }

  /** rotlConstant<1>. */
  function RotL1(x: Word): Word {
    Word(ShiftByte(x.b3, x.b2), ShiftByte(x.b2, x.b1), ShiftByte(x.b1, x.b0), ShiftByte(x.b0, x.b3))
  }

  function RotL8(x: Word): Word {
    Word(x.b2, x.b1, x.b0, x.b3)
  }

  function RotR8(x: Word): Word {
    Word(x.b0, x.b3, x.b2, x.b1)
  }

  function RotL16(x: Word): Word {
    Word(x.b1, x.b0, x.b3, x.b2)
  }

  lemma XorByteLaws(x: bv8, y: bv8)
    ensures XorByte(XorByte(x, y), y) == x
  {
  }

  lemma XorTwice(x: Word, y: Word)
    ensures Xor(Xor(x, y), y) == x
  {
    XorByteLaws(x.b3, y.b3);
    XorByteLaws(x.b2, y.b2);
    XorByteLaws(x.b1, y.b1);
    XorByteLaws(x.b0, y.b0);
  }

  lemma XorByteBit(x: bv8, y: bv8, j: nat)
    requires j < 8
    ensures ByteBit(XorByte(x, y), j) <==> ByteBit(x, j) != ByteBit(y, j)
  {
    XorBit(x, y, j);
  }

  lemma AndByteBit(x: bv8, y: bv8, j: nat)
    requires j < 8
    ensures ByteBit(AndByte(x, y), j) <==> ByteBit(x, j) && ByteBit(y, j)
  {
    AndBit(x, y, j);
  }

  lemma OrByteBit(x: bv8, y: bv8, j: nat)
    requires j < 8
    ensures ByteBit(OrByte(x, y), j) <==> ByteBit(x, j) || ByteBit(y, j)
  {
    OrBit(x, y, j);
  }
}
