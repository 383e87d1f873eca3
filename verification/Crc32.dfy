/**
 The CRC-32 of the soft-patcher (picoarch/source/patch.c).

 Three descriptions of one checksum are tied together: the table-driven loop of the C code
 (class `Crc`), the bit-at-a-time register (`Checksum`), and division of polynomials over the
 two-element field with an explicit quotient (`IsRemainder`).  A buffer is read as one
 big number, first byte lowest, so bit 0 is the first bit sent and has the highest degree.
 */
module Crc32 {
  import opened Words
  import opened Bits

  const POLY: u32 := 0xEDB88320
  /** Bits in a byte, named so that the solver does not unroll eight register steps at once. */
  const BYTE: nat := 8
  const ALL_ONES: u32 := 0xFFFF_FFFF

  /** One step of the reflected register: drop the low bit, feed the polynomial back if it was set. */
  function Shift(c: nat): nat {
    if c % 2 == 1 then Xor(c / 2, POLY) else c / 2
  }

  function Shifts(c: nat, n: nat): nat
    decreases n
  {
    if n == 0 then c else Shifts(Shift(c), n - 1)
  }

  /** Section 8 of RFC 1952, one bit at a time: mix a byte into the register, step eight times. */
  function Register(c: nat, buf: seq<byte>): nat
    decreases |buf|
  {
    if buf == [] then c else Register(Shifts(Xor(c, buf[0] as nat), BYTE), buf[1..])
  }

  function Checksum(buf: seq<byte>): u32 {
    RegisterBound(ALL_ONES, buf);
    ALL_ONES - Register(ALL_ONES, buf)
  }

  // ----- the register stays in 32 bits

  lemma WordXorBound(a: nat, b: nat)
    requires a <= ALL_ONES && b <= ALL_ONES
    ensures Xor(a, b) <= ALL_ONES
  {
    WordSize();
    XorBound(a, b, 32);
  }

  lemma ShiftsStep(c: nat, n: nat)
    ensures Shifts(c, 0) == c
    ensures n > 0 ==> Shifts(c, n) == Shifts(Shift(c), n - 1)
  {
  }

  lemma ShiftBound(c: u32)
    ensures Shift(c) <= ALL_ONES
  {
    WordXorBound(c / 2, POLY);
  }

  lemma {:induction false} ShiftsBound(c: nat, n: nat)
    requires c <= ALL_ONES
    ensures Shifts(c, n) <= ALL_ONES
    decreases n
  {
    if n > 0 {
      ShiftBound(c);
      ShiftsBound(Shift(c), n - 1);
    }
  }

  lemma {:induction false} RegisterBound(c: nat, buf: seq<byte>)
    requires c <= ALL_ONES
    ensures Register(c, buf) <= ALL_ONES
    decreases |buf|
  {
    if buf != [] {
      var x := Xor(c, buf[0] as nat);
      WordXorBound(c, buf[0] as nat);
      ShiftsBound(x, BYTE);
      RegisterBound(Shifts(x, BYTE), buf[1..]);
    }
  }

  lemma {:induction false} RegisterOfConcat(c: nat, a: seq<byte>, b: seq<byte>)
    ensures Register(c, a + b) == Register(Register(c, a), b)
    decreases |a|
  {
    if a == [] {
      assert a + b == b;
    } else {
      assert (a + b)[1..] == a[1..] + b;
      RegisterOfConcat(Shifts(Xor(c, a[0] as nat), BYTE), a[1..], b);
    }
  }

  // ----- what the register does to a value that has not reached the low end yet

  lemma ShiftApart(c: nat, d: nat)
    ensures Shift(Xor(c, 2 * d)) == Xor(Shift(c), d)
  {
    hide Xor;
    XorHalf(c, 2 * d);
    SplitOff(d, 0, 2 * d);
    Parity(c, 2 * d);
    XorSwap(c / 2, d, POLY);
  }

  /** Bits that sit `n` places up are only moved down by `n` steps. */
  lemma {:induction false} ShiftsApart(c: nat, d: nat, n: nat)
    ensures Shifts(Xor(c, Up(d, n)), n) == Xor(Shifts(c, n), d)
    decreases n
  {
    if n > 0 {
      ShiftApart(c, Up(d, n - 1));
      ShiftsApart(Shift(c), d, n - 1);
    }
  }

  lemma {:induction false} ShiftsZero(n: nat)
    ensures Shifts(0, n) == 0
  {
    if n > 0 {
      ShiftsZero(n - 1);
    }
  }

  lemma {:induction false} ShiftsCompose(c: nat, m: nat, n: nat)
    ensures Shifts(c, m + n) == Shifts(Shifts(c, m), n)
    decreases m
  {
    if m > 0 {
      ShiftsCompose(Shift(c), m - 1, n);
    }
  }

  lemma LowByteApart(x: nat)
    ensures Xor(x % 256, Up(x / 256, BYTE)) == x
  {
    UpByte(1);
    UpByte(x / 256);
    XorDisjoint(x % 256, x / 256, BYTE);
  }

  lemma HighPartOfXor(a: nat, b: nat)
    requires b < 256
    ensures Xor(a, b) / 256 == a / 256
  {
    var lo, hi := a % 256, a / 256;
    LowByteApart(a);
    XorSwap(lo, Up(hi, BYTE), b);
    UpByte(1);
    UpByte(hi);
    XorBound(lo, b, BYTE);
    XorDisjoint(Xor(lo, b), hi, BYTE);
  }

  /** The step the table takes: only the low byte is looked up, the rest moves down. */
  lemma TableStep(hash: nat, b: byte)
    ensures Xor(Shifts(Xor(hash, b as nat) % 256, BYTE), hash / 256) == Shifts(Xor(hash, b as nat), BYTE)
  {
    var x := Xor(hash, b as nat);
    LowByteApart(x);
    ShiftsApart(x % 256, x / 256, BYTE);
    HighPartOfXor(hash, b as nat);
  }

  lemma TableUpdate(hash: u32, buf: seq<byte>, k: nat, entry: u32)
    requires k < |buf| && entry == Shifts(Xor(hash, buf[k] as nat) % 256, BYTE)
    ensures Xor(entry, hash / 256) <= ALL_ONES
    ensures Register(Xor(entry, hash / 256), buf[k + 1..]) == Register(hash, buf[k..])
  {
    TableStep(hash, buf[k]);
    WordXorBound(hash, buf[k] as nat);
    ShiftsBound(Xor(hash, buf[k] as nat), BYTE);
    assert buf[k..][1..] == buf[k + 1..];
  }

  // ----- the table-driven code

  /** The static table and the two functions that use it. */
  class Crc {
    const table: array<u32>

    ghost predicate Untouched()
      reads table
    {
      table.Length == 256 && forall k :: 0 <= k < 256 ==> table[k] == 0
    }

    ghost predicate Built()
      reads table
    {
      table.Length == 256 && forall k :: 0 <= k < 256 ==> table[k] == Shifts(k, BYTE)
    }

    /** Every reachable state: the table is all zero or complete, never half built. */
    ghost predicate Valid()
      reads table
    {
      Untouched() || Built()
    }

    constructor ()
      ensures Untouched() && Valid() && fresh(table)
    {
      table := new u32[256](_ => 0);
    }

    method BuildTable()
      requires table.Length == 256
      modifies table
      ensures Built()
    {
      hide Shifts, Xor;
      var i := 0;
      while i < table.Length
        invariant 0 <= i <= table.Length
        invariant forall k :: 0 <= k < i ==> table[k] == Shifts(k, BYTE)
      {
        table[i] := i;
        ghost var entry := Shifts(i, BYTE);
        var j := 8;
        while j != 0
          invariant 0 <= j <= 8
          invariant Shifts(table[i], j) == entry
          invariant forall k :: 0 <= k < i ==> table[k] == Shifts(k, BYTE)
        {
          ShiftBound(table[i]);
          ShiftsStep(table[i], j);
          table[i] := if table[i] % 2 == 1 then Xor(table[i] / 2, POLY) else table[i] / 2;
          j := j - 1;
        }
        ShiftsStep(table[i], 0);
        i := i + 1;
      }
    }

    method Compute(buf: seq<byte>) returns (crc: u32)
      requires Valid()
      modifies table
      ensures Valid() && Built()
      ensures crc == Checksum(buf)
    {
      hide Shifts;
      if table[1] == 0 {
        BuildTable();
      }
      var hash: u32 := ALL_ONES;
      var k := 0;
      while k < |buf|
        invariant 0 <= k <= |buf|
        invariant Built()
        invariant Register(hash, buf[k..]) == Register(ALL_ONES, buf)
      {
        var index := Xor(hash, buf[k] as nat) % 256;
        TableUpdate(hash, buf, k, table[index]);
        hash := Xor(table[index], hash / 256);
        k := k + 1;
      }
      crc := ALL_ONES - hash;
    }
  }

  // ----- the register is injective

  lemma ShiftNonzero(c: nat)
    requires 0 < c <= ALL_ONES
    ensures Shift(c) != 0
  {
    if c % 2 == 1 && Shift(c) == 0 {
      XorInjective(c / 2, POLY);
    }
  }

  lemma {:induction false} ShiftsNonzero(c: nat, n: nat)
    requires 0 < c <= ALL_ONES
    ensures Shifts(c, n) != 0
    decreases n
  {
    if n > 0 {
      ShiftNonzero(c);
      WordXorBound(c / 2, POLY);
      ShiftsNonzero(Shift(c), n - 1);
    }
  }

  /** Why testing entry 1 tells a built table from an untouched one. */
  lemma EntryOneIsSet()
    ensures Shifts(1, BYTE) != 0
  {
    ShiftsNonzero(1, BYTE);
  }

  /** Stepping is linear, so two registers differ afterwards as their difference does. */
  lemma {:induction false} ShiftsLinear(c: nat, d: nat, n: nat)
    ensures Shifts(Xor(c, d), n) == Xor(Shifts(c, n), Shifts(d, n))
    decreases n
  {
    if n > 0 {
      ShiftLinear(c, d);
      ShiftsLinear(Shift(c), Shift(d), n - 1);
    }
  }

  lemma ShiftLinear(c: nat, d: nat)
    ensures Shift(Xor(c, d)) == Xor(Shift(c), Shift(d))
  {
    hide Xor;
    XorHalf(c, d);
    var a, b := c / 2, d / 2;
    XorSwap(a, b, POLY);
    XorAssociates(a, b, POLY);
    XorAssociates(Xor(a, POLY), b, POLY);
    XorCancel(Xor(a, b), POLY);
  }

  lemma ShiftsInjective(c: nat, d: nat, n: nat)
    requires c <= ALL_ONES && d <= ALL_ONES
    requires Shifts(c, n) == Shifts(d, n)
    ensures c == d
  {
    ShiftsLinear(c, d, n);
    XorSelf(Shifts(c, n));
    WordXorBound(c, d);
    if Xor(c, d) != 0 {
      ShiftsNonzero(Xor(c, d), n);
    }
    XorInjective(c, d);
  }

  // ----- the whole buffer as one number

  /** The buffer as a number, first byte lowest. */
  ghost function Number(buf: seq<byte>): (n: nat)
    decreases |buf|
  {
    if buf == [] then 0 else buf[0] as nat + 256 * Number(buf[1..])
  }

  lemma {:induction false} NumberBound(buf: seq<byte>)
    ensures Number(buf) < Up(1, BYTE * |buf|)
    decreases |buf|
  {
    if buf != [] {
      NumberBound(buf[1..]);
      UpUp(1, BYTE * |buf[1..]|, BYTE);
      UpByte(Up(1, BYTE * |buf[1..]|));
    }
  }

  lemma {:induction false} NumberInjective(a: seq<byte>, b: seq<byte>)
    requires |a| == |b| && Number(a) == Number(b)
    ensures a == b
    decreases |a|
  {
    if a != [] {
      NumberInjective(a[1..], b[1..]);
      assert a == [a[0]] + a[1..] && b == [b[0]] + b[1..];
    }
  }

  lemma NumberStep(c: nat, buf: seq<byte>)
    requires buf != []
    ensures Xor(Xor(c, buf[0] as nat), Up(Number(buf[1..]), BYTE)) == Xor(c, Number(buf))
  {
    hide Xor, Up;
    var b, rest := buf[0] as nat, Number(buf[1..]);
    XorAssociates(c, b, Up(rest, BYTE));
    UpByte(1);
    UpByte(rest);
    XorDisjoint(b, rest, BYTE);
  }

  lemma Unfolded(c: nat, buf: seq<byte>)
    ensures buf == [] ==> Register(c, buf) == c && Number(buf) == 0 && BYTE * |buf| == 0
    ensures buf != [] ==>
              && Register(c, buf) == Register(Shifts(Xor(c, buf[0] as nat), BYTE), buf[1..])
              && BYTE * |buf| == BYTE + BYTE * |buf[1..]|
  {
  }

  /** Byte after byte or all at once: the register divides the same number. */
  lemma {:induction false} RegisterIsOneDivision(c: nat, buf: seq<byte>)
    ensures Register(c, buf) == Shifts(Xor(c, Number(buf)), BYTE * |buf|)
    decreases |buf|
  {
    hide Xor, Shifts, Up, Number, Register;
    Unfolded(c, buf);
    if buf == [] {
      XorZero(c);
      ShiftsStep(c, 0);
    } else {
      var rest := Number(buf[1..]);
      var x := Xor(c, buf[0] as nat);
      RegisterIsOneDivision(Shifts(x, BYTE), buf[1..]);
      ShiftsApart(x, rest, BYTE);
      NumberStep(c, buf);
      ShiftsCompose(Xor(c, Number(buf)), BYTE, BYTE * |buf[1..]|);
    }
  }

  // ----- polynomial division

  /** Product of polynomials over the two-element field. */
  ghost function Times(q: nat, g: nat): nat
    decreases q
  {
    if q == 0 then 0 else Xor(if q % 2 == 1 then g else 0, 2 * Times(q / 2, g))
  }

  /** The generator with its leading term, bit-reversed: x^32 is bit 0. */
  const GENERATOR: nat := 2 * POLY + 1

  /** `r` is what is left of `m` after taking multiples of the generator off its `n` low bits. */
  ghost predicate IsRemainder(m: nat, n: nat, r: nat) {
    exists q: nat :: IsQuotient(m, n, q, r)
  }

  ghost predicate IsQuotient(m: nat, n: nat, q: nat, r: nat) {
    q < Up(1, n) && Xor(m, Times(q, GENERATOR)) == Up(r, n)
  }

  ghost function Quotient(m: nat, n: nat): nat
    decreases n
  {
    if n == 0 then 0 else m % 2 + 2 * Quotient(Shift(m), n - 1)
  }

  lemma TimesStep(q: nat, g: nat)
    ensures Times(q, g) == Xor(if q % 2 == 1 then g else 0, 2 * Times(q / 2, g))
  {
    if q == 0 {
      XorZero(0);
    }
  }

  /** Cancelling the low bit with the generator is what one register step does. */
  lemma CancelLowBit(m: nat)
    ensures Xor(m, if m % 2 == 1 then GENERATOR else 0) == 2 * Shift(m)
  {
    var g := if m % 2 == 1 then GENERATOR else 0;
    XorHalf(m, g);
    XorZero(m / 2);
    assert m % 2 == 1 ==> g / 2 == POLY;
  }

  lemma ShiftCancels(m: nat, q: nat)
    requires q % 2 == m % 2
    ensures Xor(m, Times(q, GENERATOR)) == 2 * Xor(Shift(m), Times(q / 2, GENERATOR))
  {
    var g := if m % 2 == 1 then GENERATOR else 0;
    var t := Times(q / 2, GENERATOR);
    TimesStep(q, GENERATOR);
    XorAssociates(m, g, 2 * t);
    CancelLowBit(m);
    XorDouble(Shift(m), t);
  }

  lemma TimesParity(q: nat)
    ensures Times(q, GENERATOR) % 2 == q % 2
  {
    TimesStep(q, GENERATOR);
    XorHalf(if q % 2 == 1 then GENERATOR else 0, 2 * Times(q / 2, GENERATOR));
  }

  lemma {:induction false} DivisionExists(m: nat, n: nat)
    ensures IsQuotient(m, n, Quotient(m, n), Shifts(m, n))
    decreases n
  {
    if n == 0 {
      XorZero(m);
    } else {
      DivisionExists(Shift(m), n - 1);
      ShiftCancels(m, Quotient(m, n));
    }
  }

  lemma LowBitCancelled(m: nat, q: nat, r: nat, n: nat)
    requires n > 0 && Xor(m, Times(q, GENERATOR)) == Up(r, n)
    ensures q % 2 == m % 2
  {
    TimesParity(q);
    XorHalf(m, Times(q, GENERATOR));
    assert Up(r, n) == 2 * Up(r, n - 1);
  }

  lemma {:induction false} DivisionUnique(m: nat, n: nat, q: nat, r: nat)
    requires IsQuotient(m, n, q, r)
    ensures q == Quotient(m, n) && r == Shifts(m, n)
    decreases n
  {
    if n == 0 {
      XorZero(m);
    } else {
      LowBitCancelled(m, q, r, n);
      ShiftCancels(m, q);
      DivisionUnique(Shift(m), n - 1, q / 2, r);
    }
  }

  lemma RemainderIsShifts(m: nat, n: nat, r: nat)
    ensures IsRemainder(m, n, r) <==> r == Shifts(m, n)
  {
    DivisionExists(m, n);
    if IsRemainder(m, n, r) {
      var q: nat :| IsQuotient(m, n, q, r);
      DivisionUnique(m, n, q, r);
    }
  }

  /**
   The checksum is the complement of the one remainder of the polynomial division of the buffer,
   its first 32 bits complemented (a shorter buffer borrows from the 32 zero bits that follow it).
   */
  lemma ChecksumIsRemainder(buf: seq<byte>, r: nat)
    ensures IsRemainder(Xor(ALL_ONES, Number(buf)), BYTE * |buf|, r) <==> r == ALL_ONES - Checksum(buf)
  {
    RegisterIsOneDivision(ALL_ONES, buf);
    RemainderIsShifts(Xor(ALL_ONES, Number(buf)), BYTE * |buf|, r);
  }

  // ----- error detection

  lemma PatternTooHigh(at: nat, burst: nat, n: nat)
    requires burst > 0 && at >= n
    ensures Up(burst, at) >= Up(1, n)
  {
    UpUp(1, at - n, n);
    UpGrows(1, 1, at - n);
    UpGrows(1, Up(1, at - n), n);
    UpGrows(1, burst, at);
  }

  /** An error pattern that starts inside the buffer leaves a trace in the register. */
  lemma PatternSurvives(at: nat, burst: nat, n: nat)
    requires 0 < burst <= ALL_ONES
    requires Up(burst, at) < Up(1, n)
    ensures Shifts(Up(burst, at), n) != 0
  {
    if at >= n {
      PatternTooHigh(at, burst, n);
      assert false;
    }
    ShiftsCompose(Up(burst, at), at, n - at);
    ShiftsApart(0, burst, at);
    XorZero(Up(burst, at));
    XorZero(burst);
    ShiftsZero(at);
    ShiftsNonzero(burst, n - at);
  }

  /** The registers of two buffers differ by what the division leaves of their difference. */
  lemma RegistersDiffer(c: nat, a: seq<byte>, b: seq<byte>)
    requires |a| == |b|
    ensures Xor(Register(c, a), Register(c, b)) == Shifts(Xor(Number(a), Number(b)), BYTE * |a|)
  {
    RegisterIsOneDivision(c, a);
    RegisterIsOneDivision(c, b);
    SameMaskCancels(c, Number(a), Number(b));
    ShiftsLinear(Xor(c, Number(a)), Xor(c, Number(b)), BYTE * |a|);
  }

  lemma DifferentRegisters(x: nat, y: nat)
    requires Xor(x, y) != 0
    ensures x != y
  {
    XorSelf(x);
  }

  lemma DifferenceBound(a: seq<byte>, b: seq<byte>)
    requires |a| == |b|
    ensures Xor(Number(a), Number(b)) < Up(1, BYTE * |a|)
  {
    NumberBound(a);
    NumberBound(b);
    XorBound(Number(a), Number(b), BYTE * |a|);
  }

  /** Two buffers whose difference fits in 32 consecutive bits, wherever they start, never collide. */
  lemma BurstChangesChecksum(a: seq<byte>, b: seq<byte>, at: nat, burst: nat)
    requires |a| == |b|
    requires Xor(Number(a), Number(b)) == Up(burst, at)
    requires 0 < burst <= ALL_ONES
    ensures Checksum(a) != Checksum(b)
  {
    DifferenceBound(a, b);
    PatternSurvives(at, burst, BYTE * |a|);
    RegistersDiffer(ALL_ONES, a, b);
    DifferentRegisters(Register(ALL_ONES, a), Register(ALL_ONES, b));
  }

  lemma SameMaskCancels(m: nat, a: nat, b: nat)
    ensures Xor(Xor(m, a), Xor(m, b)) == Xor(a, b)
  {
    XorCommutes(m, a);
    XorAssociates(a, m, Xor(m, b));
    XorAssociates(m, m, b);
    XorSelf(m);
    XorZero(b);
  }

  lemma {:induction false} RegisterInjective(c: nat, d: nat, buf: seq<byte>)
    requires c <= ALL_ONES && d <= ALL_ONES
    requires Register(c, buf) == Register(d, buf)
    ensures c == d
    decreases |buf|
  {
    if buf != [] {
      var b := buf[0] as nat;
      WordXorBound(c, b);
      WordXorBound(d, b);
      ShiftsBound(Xor(c, b), BYTE);
      ShiftsBound(Xor(d, b), BYTE);
      RegisterInjective(Shifts(Xor(c, b), BYTE), Shifts(Xor(d, b), BYTE), buf[1..]);
      ShiftsInjective(Xor(c, b), Xor(d, b), BYTE);
      XorCancel(c, b);
      XorCancel(d, b);
    }
  }

  /** Replacing up to four consecutive bytes by others always changes the checksum. */
  lemma FourBytesChangeChecksum(before: seq<byte>, x: seq<byte>, y: seq<byte>, after: seq<byte>)
    requires |x| == |y| <= 4 && x != y
    ensures Checksum(before + x + after) != Checksum(before + y + after)
  {
    var c := Register(ALL_ONES, before);
    RegisterBound(ALL_ONES, before);
    RegisterBound(c, x);
    RegisterBound(c, y);
    RegisterOfConcat(ALL_ONES, before + x, after);
    RegisterOfConcat(ALL_ONES, before, x);
    RegisterOfConcat(ALL_ONES, before + y, after);
    RegisterOfConcat(ALL_ONES, before, y);
    if Checksum(before + x + after) == Checksum(before + y + after) {
      RegisterInjective(Register(c, x), Register(c, y), after);
      RegisterIsOneDivision(c, x);
      RegisterIsOneDivision(c, y);
      ShortNumber(x);
      ShortNumber(y);
      WordXorBound(c, Number(x));
      WordXorBound(c, Number(y));
      ShiftsInjective(Xor(c, Number(x)), Xor(c, Number(y)), BYTE * |x|);
      XorCommutes(c, Number(x));
      XorCommutes(c, Number(y));
      XorCancel(Number(x), c);
      XorCancel(Number(y), c);
      NumberInjective(x, y);
    }
  }

  lemma ShortNumber(x: seq<byte>)
    requires |x| <= 4
    ensures Number(x) <= ALL_ONES
  {
    NumberBound(x);
    UpUp(1, BYTE * |x|, 32 - BYTE * |x|);
    UpGrows(Up(1, BYTE * |x|), Up(1, BYTE * |x|), 32 - BYTE * |x|);
    WordSize();
  }
}
