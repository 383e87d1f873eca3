/**
 That the checksum of picoarch/source/patch.c is the CRC-32 of section 8 of RFC 1952 and no other CRC: its
 generator is the standard's, power by power.
 */
module CrcStandard {
  import opened Crc32

  /** `x >> k & 1` */
  function Digit(x: nat, k: nat): nat {
    if k == 0 then x % 2 else Digit(x / 2, k - 1)
  }

  /** The coefficient of x^e in the generator polynomial of the standard. */
  function Coefficient(e: nat): nat {
    if e in {0, 1, 2, 4, 5, 7, 8, 10, 11, 12, 16, 22, 23, 26, 32} then 1 else 0
  }

  /** The powers up to `e`, the lowest in the highest bit. */
  function Reversed(e: nat): nat {
    if e == 0 then Coefficient(0) else 2 * Reversed(e - 1) + Coefficient(e)
  }

  lemma {:induction false} ReversedDigit(n: nat, e: nat)
    requires e <= n
    ensures Digit(Reversed(n), n - e) == Coefficient(e)
  {
    hide Coefficient;
    LowDigit(0, 0);
    if n > 0 {
      LowDigit(Reversed(n - 1), n);
      if e < n {
        ReversedDigit(n - 1, e);
      }
    }
  }

  lemma LowDigit(x: nat, e: nat)
    ensures Coefficient(e) < 2
    ensures (2 * x + Coefficient(e)) / 2 == x && (2 * x + Coefficient(e)) % 2 == Coefficient(e)
  {
  }

  lemma NextFour(e: nat)
    ensures Reversed(e + 4) == 16 * Reversed(e) + 8 * Coefficient(e + 1) + 4 * Coefficient(e + 2) +
                               2 * Coefficient(e + 3) + Coefficient(e + 4)
  {
    hide Coefficient;
    assert Reversed(e + 1) == 2 * Reversed(e) + Coefficient(e + 1);
    assert Reversed(e + 2) == 2 * Reversed(e + 1) + Coefficient(e + 2);
    assert Reversed(e + 3) == 2 * Reversed(e + 2) + Coefficient(e + 3);
    assert Reversed(e + 4) == 2 * Reversed(e + 3) + Coefficient(e + 4);
  }

  lemma AllReversed()
    ensures Reversed(32) == 0x1_DB71_0641
  {
    hide Reversed;
    FirstReversed();
    NextFour(0);
    assert Reversed(4) == 0x1d;
    NextFour(4);
    assert Reversed(8) == 0x1db;
    NextFour(8);
    assert Reversed(12) == 0x1db7;
    NextFour(12);
    assert Reversed(16) == 0x1db71;
    NextFour(16);
    assert Reversed(20) == 0x1db710;
    NextFour(20);
    assert Reversed(24) == 0x1db7106;
    NextFour(24);
    assert Reversed(28) == 0x1db71064;
    NextFour(28);
    assert Reversed(32) == 0x1db710641;
  }

  lemma FirstReversed()
    ensures Reversed(0) == 1
  {
  }

  /** Bit `32 - e` of the generator that the code divides by is the standard's coefficient of x^e. */
  lemma GeneratorIsStandard(e: nat)
    requires e <= 32
    ensures Digit(GENERATOR, 32 - e) == if e in {0, 1, 2, 4, 5, 7, 8, 10, 11, 12, 16, 22, 23, 26, 32} then 1 else 0
    ensures GENERATOR == 2 * POLY + 1 == 0x1_DB71_0641
  {
    hide Reversed, Digit;
    AllReversed();
    ReversedDigit(32, e);
  }
}
