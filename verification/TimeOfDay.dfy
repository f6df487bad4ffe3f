/** Wall-clock time kept as an offset from the tick counter, in 32-bit words. */

module ClockArithmetic {
  import opened Division
  import opened Words

  const ALT_US := 1000000
  type i32 = x: int | -0x8000_0000 <= x < 0x8000_0000

  datatype TimeVal = TimeVal(sec: i32, usec: i32)

  /** Conversion of a 32-bit result to the signed long it is stored in. */
  function ToLong(x: int): (r: i32)
    ensures -0x8000_0000 <= x < 0x8000_0000 ==> r == x
  {
    (x + 0x8000_0000) % WRAP - 0x8000_0000
  }

  function Micros(t: TimeVal): int {
    t.sec * ALT_US + t.usec
  }

  predicate Normal(t: TimeVal) {
    0 <= t.sec && 0 <= t.usec < ALT_US
  }

  /** What settimeofday stores: the product is taken modulo 2^32. */
  function Stored(t: TimeVal, nticks: u32, rate: u32): TimeVal
    requires rate > 0
  {
    TimeVal(ToLong(t.sec - Quo(nticks, rate)),
            ToLong(t.usec - (nticks * (Quo(ALT_US, rate))) % WRAP % ALT_US))
  }

  /** What gettimeofday starts from: the product is taken in 64 bits. */
  function Offset(reset: TimeVal, nticks: u32, rate: u32): TimeVal
    requires rate > 0
  {
    TimeVal(ToLong(reset.sec + Quo(nticks, rate)),
            ToLong(reset.usec + (nticks * (Quo(ALT_US, rate))) % ALT_US))
  }

  function Borrow(t: TimeVal): TimeVal
    decreases t.sec
  {
    if t.usec >= 0 then t
    else if t.sec <= 0 then TimeVal(0, 0)
    else Borrow(TimeVal(t.sec - 1, t.usec + ALT_US))
  }

  function Carry(t: TimeVal): TimeVal
    decreases t.usec
  {
    if t.usec < ALT_US then t else Carry(TimeVal(ToLong(t.sec + 1), t.usec - ALT_US))
  }

  function Shown(reset: TimeVal, nticks: u32, rate: u32): TimeVal
    requires rate > 0
  {
    Carry(Borrow(Offset(reset, nticks, rate)))
  }

  // ------------------------------------------------------------ exactness

  /** A settimeofday at tick `nticks` loses nothing to the 32-bit product. In
      particular this holds whenever the product does not overflow. */
  predicate Faithful(nticks: u32, rate: u32)
    requires rate > 0
  {
    nticks * (Quo(ALT_US, rate)) / WRAP % 15625 == 0
  }

  /** 2^32 is a multiple of 2^6 and prime to 5^6. */
  lemma WrapModMicros(k: nat)
    ensures k * WRAP % ALT_US == 0 <==> k % 15625 == 0
  {
    WrapsWhole(k);
    WrapsOnlyWhole(k);
  }

  lemma WrapsWhole(k: nat)
    ensures k % 15625 == 0 ==> k * WRAP % ALT_US == 0
  {
    var j := k / 15625;
    if k == 15625 * j {
      assert k * WRAP == ALT_US * (j * 67108864);
    }
  }

  lemma WrapsOnlyWhole(k: nat)
    ensures k * WRAP % ALT_US == 0 ==> k % 15625 == 0
  {
    var m := k * WRAP / ALT_US;
    if k * WRAP == ALT_US * m {
      assert 9231 * WRAP == 15625 * 2537397959 + 1;
      assert k + 15625 * (2537397959 * k) == 9231 * (k * WRAP) == 15625 * (9231 * (64 * m));
      assert k == 15625 * (9231 * (64 * m) - 2537397959 * k);
    }
  }

  lemma SumMod(y: nat, r: nat)
    ensures (y + r) % ALT_US == r % ALT_US <==> y % ALT_US == 0
  {
  }

  /** The fraction that is stored is the right one exactly when the overflow is harmless. */
  lemma StoredFraction(x: nat)
    ensures x % WRAP % ALT_US == x % ALT_US <==> x / WRAP % 15625 == 0
  {
    WrapModMicros(x / WRAP);
    SumMod(x / WRAP * WRAP, x % WRAP);
  }

  /** Whole seconds and the fraction shown add up to the elapsed ticks. */
  lemma TicksSplit(n: nat, rate: nat, q: nat)
    requires rate > 0 && rate * q == ALT_US
    ensures n * q == Quo(n, rate) * ALT_US + (n * q) % ALT_US
  {
    var s, r := Quo(n, rate), Rem(n, rate);
    Divided(n, rate);
    hide Quo, Rem;
    assert (rate * s + r) * q == s * (rate * q) + r * q;
    MulMonotone(q, r + 1, rate);
    assert q * (r + 1) == r * q + q;
  }

  lemma ElapsedMicros(n0: nat, n1: nat, q: nat)
    requires n0 <= n1
    ensures (n1 - n0) * q == n1 * q - n0 * q >= 0
  {
  }

  /** The two loops only normalise, as long as the time is not negative. */
  lemma NormaliseKeeps(t: TimeVal)
    requires -ALT_US < t.usec < 2 * ALT_US && 0 <= Micros(t) && t.sec < 0x7FFF_FFFF
    ensures Normal(Carry(Borrow(t))) && Micros(Carry(Borrow(t))) == Micros(t)
  {
    hide ToLong;
    var b := Borrow(t);
    if t.usec < 0 {
      assert b == TimeVal(t.sec - 1, t.usec + ALT_US);
    }
    if b.usec >= ALT_US {
      assert Carry(b) == TimeVal(b.sec + 1, b.usec - ALT_US);
    }
  }

  /** What the C program demands of its 32-bit seconds. */
  ghost predicate InRange(t: TimeVal, n0: u32, n1: u32, rate: u32)
    requires rate > 0
  {
    Normal(t) && n0 <= n1 && t.sec + Quo(n1, rate) < 0x7FFF_FFFE && Quo(n0, rate) < 0x7FFF_FFFF
  }

  lemma ExactRate(rate: u32)
    requires rate > 0
    ensures ALT_US % rate == 0 <==> rate * Quo(ALT_US, rate) == ALT_US
  {
    Divided(ALT_US, rate);
  }

  /** Set at tick n0 and read at tick n1: exact to the microsecond, normalised
      and never clamped. */
  lemma SetThenGet(t: TimeVal, n0: u32, n1: u32, rate: u32)
    requires rate > 0 && ALT_US % rate == 0 && Faithful(n0, rate) && InRange(t, n0, n1, rate)
    ensures var shown := Shown(Stored(t, n0, rate), n1, rate);
            Normal(shown) && Micros(shown) == Micros(t) + (n1 - n0) * Quo(ALT_US, rate)
  {
    var q := Quo(ALT_US, rate);
    ExactRate(rate);
    QuotientMonotone(n0, n1, rate);
    TicksSplit(n0, rate, q);
    TicksSplit(n1, rate, q);
    StoredFraction(n0 * q);
    ElapsedMicros(n0, n1, q);
    hide Quo, Rem, ToLong, Borrow, Carry;
    var f0, f1 := n0 * q % ALT_US, n1 * q % ALT_US;
    var o := Offset(Stored(t, n0, rate), n1, rate);
    assert o == TimeVal(t.sec - Quo(n0, rate) + Quo(n1, rate), t.usec - f0 + f1);
    NormaliseKeeps(o);
  }

  /** An overflow that is not harmless shows at once: two seconds past the
      epoch is read back, at the same tick, as something else. */
  lemma UnfaithfulSetIsSeen(n0: u32, rate: u32)
    requires rate > 0 && ALT_US % rate == 0 && !Faithful(n0, rate) && Quo(n0, rate) < 0x7FFF_FFF0
    ensures Micros(Shown(Stored(TimeVal(2, 0), n0, rate), n0, rate)) != Micros(TimeVal(2, 0))
  {
    var q := Quo(ALT_US, rate);
    StoredFraction(n0 * q);
    hide Quo, Rem, ToLong, Borrow, Carry;
    var o := Offset(Stored(TimeVal(2, 0), n0, rate), n0, rate);
    assert o == TimeVal(2, n0 * q % ALT_US - n0 * q % WRAP % ALT_US);
    NormaliseKeeps(o);
  }

  /** A settimeofday at tick n0 is undone by every later gettimeofday if and
      only if its 32-bit product overflows harmlessly. */
  lemma RoundTripExactly(n0: u32, rate: u32)
    requires rate > 0 && ALT_US % rate == 0 && Quo(n0, rate) < 0x7FFF_FFF0
    ensures Faithful(n0, rate) <==>
            forall t: TimeVal, n1: u32 :: InRange(t, n0, n1, rate) ==>
              Micros(Shown(Stored(t, n0, rate), n1, rate)) == Micros(t) + (n1 - n0) * Quo(ALT_US, rate)
  {
    hide Quo, Shown, Stored;
    if Faithful(n0, rate) {
      forall t: TimeVal, n1: u32 | InRange(t, n0, n1, rate)
        ensures Micros(Shown(Stored(t, n0, rate), n1, rate)) == Micros(t) + (n1 - n0) * Quo(ALT_US, rate)
      {
        SetThenGet(t, n0, n1, rate);
      }
    } else {
      var t := TimeVal(2, 0);
      assert InRange(t, n0, n0, rate) && (n0 - n0) * Quo(ALT_US, rate) == 0;
      UnfaithfulSetIsSeen(n0, rate);
    }
  }

  predicate TicksExact(n: u32, rate: u32)
    requires rate > 0
  {
    Micros(Shown(TimeVal(0, 0), n, rate)) == Quo(n * ALT_US, rate)
  }

  lemma DividingRateIsExact(n: u32, rate: u32)
    requires rate > 0 && ALT_US % rate == 0 && Quo(n, rate) < 0x7FFF_FFFE
    ensures TicksExact(n, rate)
  {
    var q := Quo(ALT_US, rate);
    ExactRate(rate);
    TicksSplit(n, rate, q);
    assert n * ALT_US == rate * (n * q) by {
      assert n * (rate * q) == rate * (n * q);
    }
    Quotient(n * ALT_US, rate, n * q, 0);
    hide Quo, Rem, ToLong, Borrow, Carry;
    NormaliseKeeps(Offset(TimeVal(0, 0), n, rate));
  }

  lemma OtherRateIsWrong(rate: u32)
    requires rate > 0 && ALT_US % rate != 0
    ensures if rate <= ALT_US then Quo(rate, rate) == 1 && !TicksExact(rate, rate)
            else Quo(rate - 1, rate) == 0 && !TicksExact(rate - 1, rate)
  {
    var q := Quo(ALT_US, rate);
    ExactRate(rate);
    Divided(ALT_US, rate);
    hide Rem, ToLong, Borrow, Carry;
    if rate <= ALT_US {
      Quotient(rate, rate, 1, 0);
      Quotient(rate * ALT_US, rate, ALT_US, 0);
      MulMonotone(rate, 1, q);
      hide Quo;
      var o := Offset(TimeVal(0, 0), rate, rate);
      assert o == TimeVal(1, rate * q);
      NormaliseKeeps(o);
    } else {
      assert (rate - 1) * ALT_US == rate * (ALT_US - 1) + (rate - ALT_US);
      Quotient((rate - 1) * ALT_US, rate, ALT_US - 1, rate - ALT_US);
      hide Quo;
      var o := Offset(TimeVal(0, 0), rate - 1, rate);
      assert q == 0 && o == TimeVal(0, 0);
      NormaliseKeeps(o);
    }
  }

  /** Since reset, the clock shows the elapsed ticks in microseconds at every
      tick if and only if the tick rate divides a million. */
  lemma RateMustDivide(rate: u32)
    requires rate > 0
    ensures ALT_US % rate == 0 <==> forall n: u32 :: Quo(n, rate) < 0x7FFF_FFFE ==> TicksExact(n, rate)
  {
    hide TicksExact;
    if ALT_US % rate == 0 {
      forall n: u32 | Quo(n, rate) < 0x7FFF_FFFE
        ensures TicksExact(n, rate)
      {
        DividingRateIsExact(n, rate);
      }
    } else {
      OtherRateIsWrong(rate);
    }
  }
}

module TimeOfDay {
  import opened Division
  import opened Words
  import opened ClockArithmetic

  const ENOSYS := 88
  const ENOTSUP := 134

  datatype TimeZone = TimeZone(minutesWest: int, dstTime: int)

  class Clock {
    const tickRate: u32
    var resetTime: TimeVal
    var timeZone: TimeZone
    var errno: int

    constructor (tickRate: u32)
      ensures this.tickRate == tickRate && resetTime == TimeVal(0, 0) && timeZone == TimeZone(0, 0)
    {
      this.tickRate := tickRate;
      resetTime, timeZone, errno := TimeVal(0, 0), TimeZone(0, 0), 0;
    }

    /** ALT_SETTIMEOFDAY at tick `nticks`. */
    method SetTimeOfDay(t: TimeVal, tz: TimeZone, nticks: u32) returns (rc: int)
      modifies this
      ensures rc == if tickRate == 0 then -1 else 0
      ensures tickRate != 0 ==> resetTime == Stored(t, nticks, tickRate) && timeZone == tz && errno == old(errno)
      ensures tickRate == 0 ==> resetTime == old(resetTime) && timeZone == old(timeZone) && errno == ENOSYS
    {
      if tickRate != 0 {
        var sec := ToLong(t.sec - Quo(nticks, tickRate));
        var product := (nticks * Quo(ALT_US, tickRate)) % WRAP;
        var usec := ToLong(t.usec - product % ALT_US);
        resetTime := TimeVal(sec, usec);
        timeZone := tz;
        return 0;
      }
      errno := ENOSYS;
      return -1;
    }

    /** ALT_GETTIMEOFDAY at tick `nticks`, with its two normalising loops. */
    method GetTimeOfDay(nticks: u32) returns (rc: int, t: TimeVal, tz: TimeZone)
      ensures rc == if tickRate == 0 then -ENOTSUP else 0
      ensures tickRate != 0 ==> t == Shown(resetTime, nticks, tickRate) && tz == timeZone
    {
      t, tz := TimeVal(0, 0), TimeZone(0, 0);
      if tickRate != 0 {
        hide Quo, ToLong;
        var sec: i32 := ToLong(resetTime.sec + Quo(nticks, tickRate));
        var usec: i32 := ToLong(resetTime.usec + (nticks * Quo(ALT_US, tickRate)) % ALT_US);
        ghost var start := TimeVal(sec, usec);
        while usec < 0
          invariant Borrow(TimeVal(sec, usec)) == Borrow(start)
          decreases usec < 0, sec
        {
          if sec <= 0 {
            sec, usec := 0, 0;
            break;
          } else {
            sec := sec - 1;
            usec := usec + ALT_US;
          }
        }
        while usec >= ALT_US
          invariant Carry(TimeVal(sec, usec)) == Carry(Borrow(start))
          decreases usec
        {
          sec := ToLong(sec + 1);
          usec := usec - ALT_US;
        }
        t, tz := TimeVal(sec, usec), timeZone;
        return 0, t, tz;
      }
      return -ENOTSUP, t, tz;
    }
  }
}
