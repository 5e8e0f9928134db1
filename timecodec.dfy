/** Conversions between the kernel's `{sec, nsec}` clock time and a signed
    nanosecond count (`pctns` and `nspct` in sysoff.c), together with the
    truncating integer division of C that `nspct` and the midpoint of a
    bracket rely on. Dafny's `/` and `%` are Euclidean, so the C operators
    are defined here explicitly. */
module TimeCodec {

  const NsPerSec: int := 1_000_000_000
  const NsPerMsec: int := 1_000_000

  /** A `struct ptp_clock_time`: whole seconds and a nanosecond part. */
  datatype ClockTime = ClockTime(sec: int, nsec: int)

  /** The normal form a device reports: non-negative nanoseconds below one second. */
  predicate Normalized(t: ClockTime) {
    0 <= t.nsec < NsPerSec
  }

  /** The forms `FromNanoseconds` produces: both parts carry the sign of the count. */
  predicate SignConsistent(t: ClockTime) {
    (0 <= t.sec && 0 <= t.nsec < NsPerSec) || (t.sec <= 0 && -NsPerSec < t.nsec <= 0)
  }

  /** C's `a / d` for a positive divisor: the quotient truncated toward zero. */
  function DivTrunc(a: int, d: int): (q: int)
    requires d > 0
    ensures 0 <= a ==> 0 <= q && q * d <= a < q * d + d
    ensures a <= 0 ==> q <= 0 && q * d - d < a <= q * d
  {
    if a >= 0 then a / d else -((-a) / d)
  }

  /** C's `a % d` for a positive divisor: the remainder takes the sign of `a`. */
  function RemTrunc(a: int, d: int): (r: int)
    requires d > 0
    ensures DivTrunc(a, d) * d + r == a
    ensures 0 <= a ==> 0 <= r < d
    ensures a <= 0 ==> -d < r <= 0
  {
    if a >= 0 then a % d else -((-a) % d)
  }

  /** `pctns`: the nanosecond count of a clock time. A normalized time
      counts into the second its `sec` names. */
  function ToNanoseconds(t: ClockTime): (ns: int)
    ensures Normalized(t) ==> t.sec * NsPerSec <= ns < (t.sec + 1) * NsPerSec
  {
    t.sec * NsPerSec + t.nsec
  }

  /** `nspct`: split a nanosecond count into seconds and nanoseconds with C's
      truncating `/` and `%`. Converting back gives the count again, and the
      parts take the sign of the count. */
  function FromNanoseconds(t: int): (pct: ClockTime)
    ensures ToNanoseconds(pct) == t
    ensures SignConsistent(pct)
    ensures 0 <= t ==> 0 <= pct.sec && Normalized(pct)
    ensures t <= 0 ==> pct.sec <= 0 && -NsPerSec < pct.nsec <= 0
  {
    ClockTime(DivTrunc(t, NsPerSec), RemTrunc(t, NsPerSec))
  }

  /** Sign of a product with a positive factor. */
  lemma MulByPositive(k: int, d: int)
    requires d > 0
    ensures k >= 1 ==> k * d >= d
    ensures k <= -1 ==> k * d <= -d
    ensures k >= 0 ==> k * d >= 0
    ensures k <= 0 ==> k * d <= 0
    decreases if k < 0 then -k else k
  {
    if k >= 1 {
      MulByPositive(k - 1, d);
      assert k * d == (k - 1) * d + d;
    } else if k <= -1 {
      MulByPositive(k + 1, d);
      assert k * d == (k + 1) * d - d;
    }
  }

  /** Quotient and remainder of truncating division are determined by the
      sign-consistent decomposition. */
  lemma DivTruncUnique(a: int, d: int, q: int, r: int)
    requires d > 0
    requires a == q * d + r
    requires (0 <= q && 0 <= r < d) || (q <= 0 && -d < r <= 0)
    ensures DivTrunc(a, d) == q && RemTrunc(a, d) == r
  {
    var q', r' := DivTrunc(a, d), RemTrunc(a, d);
    MulByPositive(q, d);
    // r and r' lie on the same side of zero, so they differ by less than d
    assert 0 < a ==> 0 <= r;
    assert a < 0 ==> r <= 0;
    assert a == 0 ==> r == 0;
    assert -d < r - r' < d;
    assert (q' - q) * d == q' * d - q * d;
    MulByPositive(q' - q, d);
  }

  /** Round trip: `nspct(pctns(t)) == t` for every normalized time at or after
      the epoch, and more generally for every sign-consistent time. */
  lemma RoundTrip(t: ClockTime)
    requires SignConsistent(t)
    ensures FromNanoseconds(ToNanoseconds(t)) == t
  {
    DivTruncUnique(ToNanoseconds(t), NsPerSec, t.sec, t.nsec);
  }

  /** The round trip only holds for sign-consistent times: a normalized time
      before the epoch comes back with a negative nanosecond part. */
  lemma RoundTripBeforeEpoch()
    ensures Normalized(ClockTime(-1, 500_000_000))
    ensures FromNanoseconds(ToNanoseconds(ClockTime(-1, 500_000_000))) == ClockTime(0, -500_000_000)
  {
    DivTruncUnique(-500_000_000, NsPerSec, 0, -500_000_000);
  }

  /** The 1 ms period that arms cross-timestamping is sent as `{0, 1000000}`. */
  lemma OneMillisecond()
    ensures FromNanoseconds(1 * NsPerMsec) == ClockTime(0, 1_000_000)
  {
    DivTruncUnique(NsPerMsec, NsPerSec, 0, NsPerMsec);
  }
}
