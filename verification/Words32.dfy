/**
 The operations on 32-bit words that SHA-256 is made of, and what they do bit by bit: sections 3.2 and
 4.1.2 of FIPS 180-4.
 */
module Words32 {

  /** Addition modulo 2^32. */
  function Add(x: bv32, y: bv32): bv32 {
    x + y
  }

  function Add4(a: bv32, b: bv32, c: bv32, d: bv32): bv32 {
    a + b + c + d
  }

  function And(x: bv32, y: bv32): bv32 { x & y }
  function Or(x: bv32, y: bv32): bv32 { x | y }
  function Not(x: bv32): bv32 { !x }
  function Xor(x: bv32, y: bv32): bv32 { x ^ y }
  function Right(x: bv32, n: bv32): bv32 requires n < 32 { x >> n }
  function Left(x: bv32, n: bv32): bv32 requires n < 32 { x << n }

  /** Section 3.2: rotate right. */
  function RotR(x: bv32, n: bv32): bv32
    requires 0 < n < 32
  {
    Or(Right(x, n), Left(x, 32 - n))
  }

  /** Section 4.1.2. */
  function Ch(x: bv32, y: bv32, z: bv32): bv32 { Xor(And(x, y), And(Not(x), z)) }
  function Maj(x: bv32, y: bv32, z: bv32): bv32 { Xor(Xor(And(x, y), And(x, z)), And(y, z)) }

  /** Bit `i`, from the least significant. */
  predicate Bit(x: bv32, i: bv32)
    requires i < 32
  {
    (x >> i) & 1 == 1
  }

  // ----- the bits of each operation -----

  lemma AndBit(x: bv32, y: bv32, i: bv32)
    requires i < 32
    ensures Bit(And(x, y), i) == (Bit(x, i) && Bit(y, i))
  {
  }

  lemma OrBit(x: bv32, y: bv32, i: bv32)
    requires i < 32
    ensures Bit(Or(x, y), i) == (Bit(x, i) || Bit(y, i))
  {
  }

  lemma NotBit(x: bv32, i: bv32)
    requires i < 32
    ensures Bit(Not(x), i) == !Bit(x, i)
  {
  }

  lemma XorIs(x: bv32, y: bv32)
    ensures Xor(x, y) == Or(And(x, Not(y)), And(Not(x), y))
  {
  }

  lemma XorBit(x: bv32, y: bv32, i: bv32)
    requires i < 32
    ensures Bit(Xor(x, y), i) == (Bit(x, i) != Bit(y, i))
  {
    hide And, Or, Not, Xor, Bit;
    XorIs(x, y);
    NotBit(x, i);
    NotBit(y, i);
    AndBit(x, Not(y), i);
    AndBit(Not(x), y, i);
    OrBit(And(x, Not(y)), And(Not(x), y), i);
  }

  lemma ShiftRight(x: bv32, n: bv32, i: bv32)
    requires n < 32 && i < 32
    ensures Bit(x >> n, i) == (i + n < 32 && Bit(x, i + n))
  {
  }

  lemma ShiftLeft(x: bv32, n: bv32, i: bv32)
    requires n < 32 && i < 32
    ensures Bit(x << n, i) == (n <= i && Bit(x, i - n))
  {
  }

  lemma RightBit(x: bv32, n: bv32, i: bv32)
    requires n < 32 && i < 32
    ensures Bit(Right(x, n), i) == (i + n < 32 && Bit(x, i + n))
  {
    hide Bit;
    ShiftRight(x, n, i);
  }

  lemma LeftBit(x: bv32, n: bv32, i: bv32)
    requires n < 32 && i < 32
    ensures Bit(Left(x, n), i) == (n <= i && Bit(x, i - n))
  {
    hide Bit;
    ShiftLeft(x, n, i);
  }

  // ----- the laws -----

  /** Where x has a bit, Ch takes that of y, elsewhere that of z. */
  lemma ChChooses(x: bv32, y: bv32, z: bv32, i: bv32)
    requires i < 32
    ensures Bit(Ch(x, y, z), i) == if Bit(x, i) then Bit(y, i) else Bit(z, i)
  {
    hide And, Xor, Not, Bit;
    NotBit(x, i);
    AndBit(x, y, i);
    AndBit(Not(x), z, i);
    XorBit(And(x, y), And(Not(x), z), i);
  }

  /** Maj has the bits that two of the three have. */
  lemma MajVotes(x: bv32, y: bv32, z: bv32, i: bv32)
    requires i < 32
    ensures Bit(Maj(x, y, z), i)
         == ((Bit(x, i) && Bit(y, i)) || (Bit(x, i) && Bit(z, i)) || (Bit(y, i) && Bit(z, i)))
  {
    hide And, Xor, Bit;
    AndBit(x, y, i);
    AndBit(x, z, i);
    AndBit(y, z, i);
    XorBit(And(x, y), And(x, z), i);
    XorBit(Xor(And(x, y), And(x, z)), And(y, z), i);
  }

  /** RotR moves bit i + n to i, around the end. */
  lemma RotRRotates(x: bv32, n: bv32, i: bv32)
    requires 0 < n < 32 && i < 32
    ensures Bit(RotR(x, n), i) == Bit(x, if i + n < 32 then i + n else i + n - 32)
  {
    hide Or, Right, Left, Bit;
    RightBit(x, n, i);
    LeftBit(x, 32 - n, i);
    OrBit(Right(x, n), Left(x, 32 - n), i);
    assert i + n >= 32 ==> i - (32 - n) == i + n - 32;
  }
}
