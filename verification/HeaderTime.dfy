/** The microsecond clock and the time stamp of the indication header. */
module HeaderTime {
  import opened Wrappers
  import opened Words
  import opened OctetStrings

  const MILLION: nat := 1_000_000
  const BILLION: nat := 1_000_000_000

  // Seconds may be negative (before 1970); the nanoseconds count forward from the second.
  datatype Timespec = Timespec(sec: int, nsec: nat) {
    function Nanoseconds(): int { sec * BILLION + nsec }
  }

  // The reading in microseconds, rounded half up.
  function RoundedMicros(t: Timespec): int { (t.Nanoseconds() + 500) / 1000 }

  method TimeNowUsClock(reading: Option<Timespec>) returns (micros: nat)
    ensures reading.None? ==> micros == TWO64 - 1
    ensures reading.Some? ==> micros == ToU64(RoundedMicros(reading.value))
  {
    if reading.None? {
      return ToU64(-1);
    }
    var tms := reading.value;
    RoundingSplits(tms);
    AddToWord(tms.sec * MILLION, tms.nsec / 1000);
    AddToWord(tms.sec * MILLION + tms.nsec / 1000, 1);
    micros := ToU64(tms.sec * MILLION);
    micros := ToU64(micros + tms.nsec / 1000);
    if tms.nsec % 1000 >= 500 {
      micros := ToU64(micros + 1);
    }
  }

  lemma AddToWord(x: int, y: int)
    ensures ToU64(ToU64(x) + y) == ToU64(x + y)
  {
    var q := x / TWO64;
    var z := ToU64(x) + y;
    assert x + y == TWO64 * (q + z / TWO64) + z % TWO64;
    DivModUnique(x + y, TWO64, q + z / TWO64, z % TWO64);
  }

  lemma RoundingSplits(t: Timespec)
    ensures RoundedMicros(t) == t.sec * MILLION + t.nsec / 1000 + if t.nsec % 1000 >= 500 then 1 else 0
  {
    var q, r := t.nsec / 1000, t.nsec % 1000;
    var carry := if r >= 500 then 1 else 0;
    DivModUnique(t.Nanoseconds() + 500, 1000, t.sec * MILLION + q + carry, r + 500 - 1000 * carry);
  }

  function Distance(a: int, b: int): nat { if a <= b then b - a else a - b }

  // No whole number of microseconds is nearer to the true time, and the error is at most 500 ns; of two that are
  // equally near, the reading is the later one.
  lemma ClockIsNearest(t: Timespec, other: int)
    ensures Distance(RoundedMicros(t) * 1000, t.Nanoseconds()) <= 500
    ensures Distance(RoundedMicros(t) * 1000, t.Nanoseconds()) <= Distance(other * 1000, t.Nanoseconds())
    ensures other * 1000 == t.Nanoseconds() + 500 ==> RoundedMicros(t) == other
  {
    var n, m := t.Nanoseconds(), RoundedMicros(t);
    assert m * 1000 <= n + 500 < m * 1000 + 1000;
    if other < m {
      assert other * 1000 <= m * 1000 - 1000;
    } else if other > m {
      assert other * 1000 >= m * 1000 + 1000;
    }
  }

  lemma ClockIsMonotone(t: Timespec, u: Timespec)
    requires t.nsec < BILLION && u.nsec < BILLION
    requires t.sec < u.sec || (t.sec == u.sec && t.nsec <= u.nsec)
    ensures RoundedMicros(t) <= RoundedMicros(u)
  {
    assert t.Nanoseconds() <= u.Nanoseconds();
  }

  // Rounding carries into the next second in the last half microsecond, and only there.
  lemma ClockCarry(t: Timespec)
    requires t.nsec < BILLION
    ensures RoundedMicros(t) / MILLION == if t.nsec < 999_999_500 then t.sec else t.sec + 1
  {
    RoundingSplits(t);
    var part := t.nsec / 1000 + if t.nsec % 1000 >= 500 then 1 else 0;
    if t.nsec < 999_999_500 {
      DivModUnique(RoundedMicros(t), MILLION, t.sec, part);
    } else {
      assert part == MILLION;
      DivModUnique(RoundedMicros(t), MILLION, t.sec + 1, 0);
    }
  }

  // ---------- the four octets of colletStartTime ----------

  // duration_cast of the system clock's nanoseconds to microseconds: towards zero.
  function TruncatedMicros(t: Timespec): int {
    var n := t.Nanoseconds();
    if n >= 0 then n / 1000 else -(-n / 1000)
  }

  lemma TruncationIsTowardsZero(t: Timespec)
    ensures t.Nanoseconds() >= 0 ==> 0 <= t.Nanoseconds() - 1000 * TruncatedMicros(t) < 1000
    ensures t.Nanoseconds() < 0 ==> 0 <= 1000 * TruncatedMicros(t) - t.Nanoseconds() < 1000
  {
  }

  // The given time, or the system clock's when it is 0.
  function HostTime(timestamp: nat, now: Timespec): nat {
    if timestamp == 0 then ToU64(TruncatedMicros(now)) else timestamp
  }

  function TimestampOctets(hostMicros: nat): seq<octet> { BigEndian(hostMicros / MILLION, 4) }

  // htobe32 on a little-endian host: the same four octets in the opposite order, read back as a number.
  function HostToBigEndian32(x: nat): nat { LittleEndianValue(Reverse(LittleEndian(x, 4))) }

  method FillCollectStartTime(timestamp: nat, now: Timespec) returns (buf: array<octet>)
    requires timestamp < TWO64
    ensures fresh(buf) && buf[..] == TimestampOctets(HostTime(timestamp, now))
  {
    var hostTime := timestamp;
    if hostTime == 0 {
      hostTime := ToU64(TruncatedMicros(now));
    }
    var ts32 := ToU32(hostTime / MILLION);
    var netTs32 := HostToBigEndian32(ts32);
    buf := new octet[4](_ => 0);
    var bytes := LittleEndian(netTs32, 4);
    forall i | 0 <= i < 4 {
      buf[i] := bytes[i];
    }
    LittleEndianOfValue(Reverse(LittleEndian(ts32, 4)));
    LittleEndianOfWord(hostTime / MILLION);
    assert buf[..] == bytes;
  }

  // Only the low 32 bits reach the four octets.
  lemma LittleEndianOfWord(v: nat)
    ensures LittleEndian(ToU32(v), 4) == LittleEndian(v, 4)
  {
    Pow2Values();
    LittleEndianRoundTrip(v, 4);
    LittleEndianOfValue(LittleEndian(v, 4));
  }

  lemma TimestampDecodes(hostMicros: nat)
    ensures BigEndianValue(TimestampOctets(hostMicros)) == (hostMicros / MILLION) % TWO32
  {
    Pow2Values();
    BigEndianRoundTrip(hostMicros / MILLION, 4);
  }

  // A given time is stamped as its whole seconds modulo 2^32, whatever the clock says.
  lemma GivenSecond(timestamp: nat, now: Timespec)
    requires timestamp != 0
    ensures BigEndianValue(TimestampOctets(HostTime(timestamp, now))) == (timestamp / 1_000_000) % 0x1_0000_0000
  {
    TimestampDecodes(timestamp);
  }

  // Until the 32-bit second counter wraps, comparing the octets as memcmp does compares the times.
  lemma TimestampOrder(a: nat, b: nat)
    requires a / MILLION < TWO32 && b / MILLION < TWO32
    ensures LexAtMost(TimestampOctets(a), TimestampOctets(b)) <==> a / MILLION <= b / MILLION
  {
    TimestampDecodes(a);
    TimestampDecodes(b);
    LexIsNumericOrder(TimestampOctets(a), TimestampOctets(b));
  }

  // What the clock can report: a normalised reading whose nanoseconds fit a signed 64-bit count.
  predicate Reportable(t: Timespec) {
    t.nsec < BILLION && -0x8000_0000_0000_0000 <= t.Nanoseconds() < 0x8000_0000_0000_0000
  }

  // A header without a given time carries the true second modulo 2^32 exactly for readings from 1970 on: the
  // truncation keeps the second, while a negative count wraps to a word of other seconds.
  lemma FallbackSecond(now: Timespec)
    requires Reportable(now)
    ensures BigEndianValue(TimestampOctets(HostTime(0, now))) == now.sec % TWO32 <==> now.sec >= 0
  {
    TimestampDecodes(HostTime(0, now));
    if now.sec >= 0 {
      TruncationKeepsSecond(now);
    } else {
      NegativeSecond(now);
    }
  }

  // One second before 1970 is stamped as another second.
  lemma SecondBeforeEpoch()
    ensures BigEndianValue(TimestampOctets(HostTime(0, Timespec(-1, 0)))) == 4154504684
    ensures 4154504684 != -1 % TWO32
  {
    hide TimestampOctets, BigEndianValue, ToU64;
    TimestampDecodes(HostTime(0, Timespec(-1, 0)));
    NegativeWord(MILLION);
  }

  lemma TruncationKeepsSecond(now: Timespec)
    requires Reportable(now) && now.sec >= 0
    ensures HostTime(0, now) / MILLION == now.sec
  {
    var m := now.sec * MILLION + now.nsec / 1000;
    DivModUnique(now.Nanoseconds(), 1000, m, now.nsec % 1000);
    SmallWord(m);
    DivModUnique(m, MILLION, now.sec, now.nsec / 1000);
  }

  lemma NegativeSecond(now: Timespec)
    requires Reportable(now) && now.sec < 0
    ensures (HostTime(0, now) / MILLION) % TWO32 != now.sec % TWO32
  {
    // 2^64 microseconds are this many whole seconds and a remainder.
    var wrap := TWO64 / MILLION;
    var k := -now.Nanoseconds() / 1000;
    if k == 0 {
      assert now.sec == -1;
    } else {
      NegativeWord(k);
      var d := (TWO64 - k) / MILLION - now.sec;
      assert wrap - 1 <= d <= wrap + 1;
      DifferentSeconds((TWO64 - k) / MILLION, now.sec);
    }
  }

  lemma NegativeWord(k: int)
    requires 0 < k < TWO64
    ensures ToU64(-k) == TWO64 - k
  {
  }

  lemma DifferentSeconds(a: int, b: int)
    requires 0 < a - b && (a - b) % TWO32 != 0
    ensures a % TWO32 != b % TWO32
  {
  }
}
