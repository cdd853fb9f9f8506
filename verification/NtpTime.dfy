/**
 NTP timestamps (TimeToNTP in pkg/util/netutil.go): the 64-bit format of section 6 of RFC 5905, seconds
 in the upper half and a binary fraction in the lower half, which section 3.2.2 of RFC 4193 feeds into
 the generation of unique local prefixes.

 An instant is its exact distance from 1900 in nanoseconds. Go measures that distance with a saturating
 64-bit signed duration, then computes in 64-bit unsigned integers.
 */
module NtpTime {
  const BILLION: int := 1000000000
  const TWO32: int := 0x1_0000_0000
  const TWO63: int := 0x8000_0000_0000_0000
  const TWO64: int := 0x1_0000_0000_0000_0000

  /** time.Time.Sub. */
  function Saturate(d: int): int {
    if d < -TWO63 then -TWO63 else if d >= TWO63 then TWO63 - 1 else d
  }

  function ToUint64(x: int): nat {
    x % TWO64
  }

  function Shl32(x: nat): nat {
    ToUint64(x * TWO32)
  }

  function BitOr(x: nat, y: nat): nat
    decreases x + y
  {
    if x == 0 && y == 0 then 0 else
      (if x % 2 == 1 || y % 2 == 1 then 1 else 0) + 2 * BitOr(x / 2, y / 2)
  }

  /** The measured distance as an unsigned integer; instants before 1900 wrap around. */
  function Ticks(d: int): (n: nat)
    ensures n < TWO64
  {
    ToUint64(Saturate(d))
  }

  function TimeToNTP(d: int): nat {
    Stamp(Ticks(d))
  }

  function Stamp(nsec: nat): nat {
    var sec := nsec / BILLION;
    var shifted := Shl32(nsec - sec * BILLION);
    var frac := shifted / BILLION;
    var rounded := if shifted % BILLION >= BILLION / 2 then frac + 1 else frac;
    BitOr(Shl32(sec), rounded)
  }

  // ---------------------------------------------------------------------------------------------
  // The fraction
  // ---------------------------------------------------------------------------------------------

  /** The fraction of a second, rounded half up to 2^-32. */
  function Fraction(rem: nat): nat {
    (rem * TWO32) / BILLION + if (rem * TWO32) % BILLION >= BILLION / 2 then 1 else 0
  }

  lemma FractionRounds(rem: nat)
    ensures -BILLION < 2 * (Fraction(rem) * BILLION - rem * TWO32) <= BILLION
  {
    var n := rem * TWO32;
    assert n == (n / BILLION) * BILLION + n % BILLION;
  }

  /** The fraction never carries into the seconds. */
  lemma FractionFits(rem: nat)
    requires rem < BILLION
    ensures Fraction(rem) < TWO32
  {
    FractionRounds(rem);
  }

  // ---------------------------------------------------------------------------------------------
  // Shift and or
  // ---------------------------------------------------------------------------------------------

  function Pow2(k: nat): (p: nat)
    ensures p >= 1
  {
    if k == 0 then 1 else 2 * Pow2(k - 1)
  }

  lemma Pow32()
    ensures Pow2(32) == TWO32
  {
    assert Pow2(8) == 256;
    assert Pow2(16) == 65536;
    assert Pow2(24) == 16777216;
  }

  lemma {:induction false} OrZero(x: nat)
    ensures BitOr(x, 0) == x
  {
    if x > 0 {
      OrZero(x / 2);
    }
  }

  /** Or-ing a number below 2^k into a multiple of 2^k adds it. */
  lemma {:induction false} OrAdds(a: nat, b: nat, k: nat)
    requires b < Pow2(k)
    ensures BitOr(a * Pow2(k), b) == a * Pow2(k) + b
    decreases k
  {
    if k == 0 {
      OrZero(a);
    } else {
      var x := a * Pow2(k);
      assert x == 2 * (a * Pow2(k - 1));
      assert x / 2 == a * Pow2(k - 1);
      OrAdds(a, b / 2, k - 1);
    }
  }

  // ---------------------------------------------------------------------------------------------
  // The stamp
  // ---------------------------------------------------------------------------------------------

  /** One era of the format, in nanoseconds: 2^32 seconds. */
  const ERA: int := TWO32 * BILLION

  lemma ShiftSeconds(sec: nat)
    ensures Shl32(sec) == (sec % TWO32) * TWO32
  {
    assert sec == (sec / TWO32) * TWO32 + sec % TWO32;
    assert sec * TWO32 == (sec / TWO32) * TWO64 + (sec % TWO32) * TWO32;
  }

  lemma ShiftRemainder(rem: nat)
    requires rem < BILLION
    ensures Shl32(rem) == rem * TWO32
  {
  }

  /** The source's expression, with its seconds and its remainder named. */
  lemma StampParts(n: nat, sec: nat, rem: nat)
    requires sec == n / BILLION && rem == n - sec * BILLION && rem < BILLION
    ensures Stamp(n) == BitOr(Shl32(sec), Fraction(rem))
  {
    ShiftRemainder(rem);
  }

  lemma StampSum(n: nat)
    ensures Stamp(n) == ((n / BILLION) % TWO32) * TWO32 + Fraction(n % BILLION)
    ensures Fraction(n % BILLION) < TWO32
  {
    var sec, rem := n / BILLION, n % BILLION;
    StampParts(n, sec, rem);
    FractionFits(rem);
    ShiftSeconds(sec);
    Pow32();
    OrAdds(sec % TWO32, Fraction(rem), 32);
  }

  /** Shift and or amount to addition: seconds modulo the era above, the rounded fraction below. */
  lemma StampIs(d: int)
    ensures TimeToNTP(d) == ((Ticks(d) / BILLION) % TWO32) * TWO32 + Fraction(Ticks(d) % BILLION)
    ensures Fraction(Ticks(d) % BILLION) < TWO32
  {
    StampSum(Ticks(d));
  }

  lemma SecondsAreExact(sec: nat, rem: nat, stamp: nat)
    requires stamp == sec * TWO32 + Fraction(rem)
    ensures -BILLION < 2 * (stamp * BILLION - (sec * BILLION + rem) * TWO32) <= BILLION
  {
    FractionRounds(rem);
  }

  /** The stamp is within half a unit of the value. */
  predicate Near(stamp: nat, value: int) {
    -BILLION < 2 * (stamp * BILLION - value * TWO32) <= BILLION
  }

  lemma FirstEraNear(n: nat)
    requires n < ERA
    ensures Near(Stamp(n), n)
  {
    StampSum(n);
    var sec, rem := n / BILLION, n % BILLION;
    assert sec % TWO32 == sec;
    SecondsAreExact(sec, rem, Stamp(n));
  }

  /** No stamp is within half a unit of two nanoseconds, and nearness keeps the order. */
  lemma NearOrders(stamp: nat, stamp': nat, n: int, n': int)
    requires Near(stamp, n) && Near(stamp', n')
    ensures n < n' ==> stamp < stamp'
    ensures stamp == stamp' ==> n == n'
  {
  }

  lemma SameRemainder(q: nat, r: nat)
    ensures (q * BILLION + r) % BILLION == r % BILLION
    ensures (q * BILLION + r) / BILLION == q + r / BILLION
  {
  }

  lemma StampPeriodic(n: nat)
    ensures 0 <= n % ERA < ERA && Stamp(n) == Stamp(n % ERA)
  {
    var q, r := n / ERA, n % ERA;
    assert n == (q * TWO32) * BILLION + r;
    assert n % BILLION == r % BILLION && n / BILLION == q * TWO32 + r / BILLION by {
      SameRemainder(q * TWO32, r);
    }
    assert (q * TWO32 + r / BILLION) % TWO32 == (r / BILLION) % TWO32 by {
      assert r / BILLION < TWO32;
    }
    StampSum(n);
    StampSum(r);
  }

  /** In every era the stamp is within half a unit of the exact time since the era began. */
  lemma StampAccurate(d: int)
    ensures Near(TimeToNTP(d), Ticks(d) % ERA)
  {
    StampPeriodic(Ticks(d));
    FirstEraNear(Ticks(d) % ERA);
  }

  lemma WrapShiftsEra(d: int)
    requires -TWO63 <= d < 0
    ensures Ticks(d) == TWO64 + d && Ticks(d) % ERA != d % ERA
  {
    assert ToUint64(d) == TWO64 + d;
  }

  /**
   Of the instants that a duration can hold, the stamp is within half a unit of the true time since the
   era began exactly for those from 1900 on.
   */
  lemma TrueTimeExact(d: int)
    requires -TWO63 <= d < TWO63
    ensures Near(TimeToNTP(d), d % ERA) <==> d >= 0
  {
    StampAccurate(d);
    if d < 0 {
      WrapShiftsEra(d);
      if Near(TimeToNTP(d), d % ERA) {
        NearOrders(TimeToNTP(d), TimeToNTP(d), d % ERA, Ticks(d) % ERA);
      }
    }
  }

  lemma SameEra(n: nat, n': nat, q: nat)
    requires n < n' && n / ERA == q == n' / ERA
    ensures n % ERA < n' % ERA
  {
    assert n == q * ERA + n % ERA;
    assert n' == q * ERA + n' % ERA;
  }

  /** Within one era, before or after 1900, later instants have greater stamps. */
  lemma StampIncreases(d: int, d': int)
    requires -TWO63 <= d < d' < TWO63 && (d < 0 <==> d' < 0) && Ticks(d) / ERA == Ticks(d') / ERA
    ensures TimeToNTP(d) < TimeToNTP(d')
  {
    assert Ticks(d) < Ticks(d');
    SameEra(Ticks(d), Ticks(d'), Ticks(d) / ERA);
    StampAccurate(d);
    StampAccurate(d');
    NearOrders(TimeToNTP(d), TimeToNTP(d'), Ticks(d) % ERA, Ticks(d') % ERA);
  }

  /** Two instants share a stamp exactly when their measured distances lie a whole number of eras apart. */
  lemma StampCollides(d: int, d': int)
    ensures TimeToNTP(d) == TimeToNTP(d') <==> Ticks(d) % ERA == Ticks(d') % ERA
  {
    StampAccurate(d);
    StampAccurate(d');
    NearOrders(TimeToNTP(d), TimeToNTP(d'), Ticks(d) % ERA, Ticks(d') % ERA);
    StampPeriodic(Ticks(d));
    StampPeriodic(Ticks(d'));
  }

  /** Past the range of the duration, in the years 1607 and 2192, all instants share one stamp. */
  lemma StampSaturates(d: int)
    ensures d >= TWO63 ==> TimeToNTP(d) == TimeToNTP(TWO63 - 1)
    ensures d < -TWO63 ==> TimeToNTP(d) == TimeToNTP(-TWO63)
  {
  }

  lemma WithinRange(d: nat)
    requires d < TWO63
    ensures Ticks(d) == d
  {
  }

  lemma StampOf(n: nat, sec: nat, rem: nat)
    requires n / BILLION == sec < TWO32 && n % BILLION == rem
    ensures Stamp(n) == sec * TWO32 + Fraction(rem)
  {
    StampSum(n);
  }

  lemma Parts(sec: nat, rem: nat, n: nat)
    requires rem < BILLION && n == sec * BILLION + rem
    ensures n / BILLION == sec && n % BILLION == rem
  {
  }

  lemma SecondsStamp(sec: nat, rem: nat, n: nat)
    requires sec < TWO32 && rem < BILLION && n == sec * BILLION + rem
    ensures TimeToNTP(n) == sec * TWO32 + Fraction(rem)
  {
    Parts(sec, rem, n);
    WithinRange(n);
    StampOf(n, sec, rem);
  }

  /** In plain numbers: whole seconds of the first era are stamped in the upper half, half a second as 2^31. */
  lemma WholeSeconds(sec: nat)
    requires sec < 0x1_0000_0000
    ensures TimeToNTP(sec * 1000000000) == sec * 0x1_0000_0000
    ensures TimeToNTP(sec * 1000000000 + 500000000) == sec * 0x1_0000_0000 + 0x8000_0000
  {
    SecondsStamp(sec, 0, sec * 1000000000);
    SecondsStamp(sec, 500000000, sec * 1000000000 + 500000000);
  }
}
