/** Times as seconds and nanoseconds, and the countdown that bounds reads and writes. */
module Timer {
  import opened Bytes

  const NS_PER_S: int := 1_000_000_000
  const NS_PER_MS: int := 1_000_000

  datatype Timespec = Timespec(sec: int, nsec: int)

  predicate Normalized(t: Timespec)
  {
    0 <= t.nsec < NS_PER_S
  }

  function Nanos(t: Timespec): int
  {
    t.sec * NS_PER_S + t.nsec
  }

  /** The monotonic clock as the system reports it. */
  function AtNanos(n: int): (t: Timespec)
    ensures Normalized(t) && Nanos(t) == n
  {
    Timespec(n / NS_PER_S, n % NS_PER_S)
  }

  /** Integer conversion of the quotient, that is, division rounded towards zero. */
  function Truncate(n: int, d: int): int
    requires d > 0
  {
    if n >= 0 then n / d else -(-n / d)
  }

  /** Milliseconds as a normalized time. */
  function TimespecFromMs(millis: uint32): Timespec
  {
    var sec := millis as int / 1000;
    Timespec(sec, (millis as int - sec * 1000) * NS_PER_MS)
  }

  class MillisecondTimer {
    var expiry: Timespec

    constructor (millis: uint32, now: Timespec)
      requires Normalized(now)
      ensures Normalized(expiry)
      ensures Nanos(expiry) == Nanos(now) + millis as int * NS_PER_MS
    {
      var nsec := now.nsec + millis as int * NS_PER_MS;
      if nsec >= NS_PER_S {
        expiry := Timespec(now.sec + nsec / NS_PER_S, nsec % NS_PER_S);
      } else {
        expiry := Timespec(now.sec, nsec);
      }
    }

    method Remaining(now: Timespec) returns (millis: int)
      requires Normalized(expiry) && Normalized(now)
      ensures millis == RemainingMs(expiry, now)
    {
      millis := (expiry.sec - now.sec) * 1000;
      millis := Truncate(millis * NS_PER_MS + (expiry.nsec - now.nsec), NS_PER_MS);
    }
  }

  /** What a countdown shows: the time to its expiry in whole milliseconds, rounded towards zero. */
  function RemainingMs(expiry: Timespec, now: Timespec): int
  {
    Truncate(Nanos(expiry) - Nanos(now), NS_PER_MS)
  }

  // ---------------------------------------------------------------- properties

  /** The conversion is normalized and loses nothing. */
  lemma FromMsExact(millis: uint32)
    ensures Normalized(TimespecFromMs(millis))
    ensures Nanos(TimespecFromMs(millis)) == millis as int * NS_PER_MS
  {
    var m := millis as int;
    assert m == m / 1000 * 1000 + m % 1000;
  }

  /** Different counts of milliseconds give different times. */
  lemma FromMsInjective(a: uint32, b: uint32)
    requires TimespecFromMs(a) == TimespecFromMs(b)
    ensures a == b
  {
    FromMsExact(a);
    FromMsExact(b);
  }

  lemma TruncateMonotone(m: int, n: int)
    requires m <= n
    ensures Truncate(m, NS_PER_MS) <= Truncate(n, NS_PER_MS)
  {
  }

  /** A countdown started for a number of milliseconds never shows more than that, never grows,
      and has run down exactly when less than a millisecond is left. */
  lemma CountdownExact(millis: uint32, start: Timespec, expiry: Timespec, now: Timespec, later: Timespec)
    requires Nanos(expiry) == Nanos(start) + millis as int * NS_PER_MS
    requires Nanos(start) <= Nanos(now) <= Nanos(later)
    ensures RemainingMs(expiry, later) <= RemainingMs(expiry, now) <= millis as int
    ensures RemainingMs(expiry, start) == millis as int
    ensures RemainingMs(expiry, now) <= 0 <==> Nanos(expiry) - Nanos(now) < NS_PER_MS
  {
    var left := Nanos(expiry) - Nanos(now);
    TruncateMonotone(Nanos(expiry) - Nanos(later), left);
    TruncateMonotone(left, millis as int * NS_PER_MS);
    assert Truncate(millis as int * NS_PER_MS, NS_PER_MS) == millis as int;
  }

  /** What a caller learns from looking at a countdown. */
  lemma CountdownRead(expiry: Timespec, n: int)
    ensures RemainingMs(expiry, AtNanos(n)) > 0 ==> n < Nanos(expiry)
    ensures RemainingMs(expiry, AtNanos(n)) <= 0 ==> Nanos(expiry) < n + NS_PER_MS
  {
  }

  lemma RemainingIs(expiry: Timespec, n: int)
    ensures RemainingMs(expiry, AtNanos(n)) == Truncate(Nanos(expiry) - n, NS_PER_MS)
  {
  }
}
