/** Minute, second and frame addresses of picoarch/libretro-common/cdrom/cdrom.c; each is one byte. */
module CdAddress {
  import Arith

  /** Addresses a minute byte can tell apart. */
  const ADDRESSES: nat := 1_152_000

  datatype Msf = Msf(min: nat, sec: nat, frame: nat)

  predicate InBytes(a: Msf) {
    a.min < 256 && a.sec < 256 && a.frame < 256
  }

  predicate Proper(a: Msf) {
    a.min < 256 && a.sec < 60 && a.frame < 75
  }

  function FromLba(lba: nat): (a: Msf)
    ensures Proper(a)
  {
    Msf(lba / 75 / 60 % 256, lba / 75 % 60, lba % 75)
  }

  function ToLba(a: Msf): nat {
    (a.min * 60 + a.sec) * 75 + a.frame
  }

  /** `increment_msf`; the minute is a byte and wraps. */
  function Increment(a: Msf): Msf {
    Msf(if a.frame == 74 && a.sec >= 59 then (a.min + 1) % 256 else a.min,
        if a.frame == 74 then if a.sec < 59 then a.sec + 1 else 0 else a.sec,
        if a.frame < 74 then a.frame + 1 else 0)
  }

  /** An address is the wraps of its minute and what the three bytes keep. */
  lemma AddressInMinutes(lba: nat)
    ensures lba == (lba / 75 / 60 / 256) * ADDRESSES + ToLba(FromLba(lba))
    ensures ToLba(FromLba(lba)) < ADDRESSES
  {
    var f := lba / 75;
    var s := f / 60;
    assert lba == f * 75 + lba % 75 && f == s * 60 + f % 60 && s == (s / 256) * 256 + s % 256;
  }

  lemma SmallRemainder(n: nat)
    ensures n % ADDRESSES == n <==> n < ADDRESSES
  {
  }

  /** The two conversions undo each other on the addresses a disc can have. */
  lemma ToFrom(lba: nat)
    ensures ToLba(FromLba(lba)) == lba % ADDRESSES
    ensures ToLba(FromLba(lba)) == lba <==> lba < ADDRESSES
  {
    var a, s := ToLba(FromLba(lba)), lba / 75 / 60;
    AddressInMinutes(lba);
    hide FromLba, ToLba;
    Arith.DivModUnique(lba, ADDRESSES, s / 256, a);
    SmallRemainder(lba);
  }

  lemma FromTo(a: Msf)
    requires InBytes(a)
    ensures FromLba(ToLba(a)) == a <==> Proper(a)
  {
    var x := a.min * 60 + a.sec;
    if Proper(a) {
      assert ToLba(a) / 75 == x && x / 60 == a.min;
    }
  }

  lemma WrapOnce(n: nat)
    requires n <= ADDRESSES
    ensures n % ADDRESSES == if n == ADDRESSES then 0 else n
  {
  }

  lemma NextAddress(a: Msf)
    requires Proper(a)
    ensures Proper(Increment(a))
    ensures ToLba(a) + 1 <= ADDRESSES
    ensures ToLba(Increment(a)) == if ToLba(a) + 1 == ADDRESSES then 0 else ToLba(a) + 1
  {
    if a.frame < 74 || a.sec < 59 {
      assert Increment(a).min == a.min;
    } else if a.min < 255 {
      assert Increment(a) == Msf(a.min + 1, 0, 0);
    } else {
      assert Increment(a) == Msf(0, 0, 0);
    }
  }

  /** Incrementing is adding one, up to the wrap of the minute. */
  lemma IncrementIsPlusOne(a: Msf)
    requires Proper(a)
    ensures Proper(Increment(a))
    ensures ToLba(Increment(a)) == (ToLba(a) + 1) % ADDRESSES
  {
    hide Increment, ToLba;
    NextAddress(a);
    WrapOnce(ToLba(a) + 1);
  }

  /** 75 frames to the second, 60 seconds to the minute. */
  lemma DiscUnits()
    ensures FromLba(75) == Msf(0, 1, 0) && FromLba(4500) == Msf(1, 0, 0) && FromLba(4574) == Msf(1, 0, 74)
    ensures ToLba(Msf(0, 2, 0)) == 150 && ToLba(Msf(79, 59, 74)) == 359_999
  {
  }

  /** The address `n` as the minute byte leaves it. */
  function Wrapped(n: nat): (a: nat)
    ensures a < ADDRESSES && (n < ADDRESSES ==> a == n)
  {
    n % ADDRESSES
  }

  lemma ProperAddress(a: Msf)
    requires Proper(a)
    ensures ToLba(a) < ADDRESSES && Wrapped(ToLba(a)) == ToLba(a)
  {
  }

  lemma WrappedNext(n: nat)
    ensures Wrapped(n + 1) == if Wrapped(n) + 1 == ADDRESSES then 0 else Wrapped(n) + 1
  {
  }

  /** `cdrom_lba_to_msf`, in its steps on the out-parameters. */
  method LbaToMsf(address: nat) returns (min: nat, sec: nat, frame: nat)
    ensures Msf(min, sec, frame) == FromLba(address)
  {
    var lba := address;
    frame := lba % 75;
    lba := lba / 75;
    sec := lba % 60;
    lba := lba / 60;
    min := lba % 256;
  }
}
