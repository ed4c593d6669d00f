/**
 Seconds/microseconds time stamps and the arithmetic every timer operation uses (inc/os.h).
 A clock reading is always normalised: its microseconds part lies in 0..999999.
 */
module RelTimes {

  const MICROS_PER_SEC := 1000000

  datatype RelTime = RelTime(sec: int, usec: int)

  predicate Normal(t: RelTime) {
    0 <= t.usec < MICROS_PER_SEC
  }

  /** The instant as a single number of microseconds. */
  function Micros(t: RelTime): int {
    t.sec * MICROS_PER_SEC + t.usec
  }

  /** The normalised stamp of an instant; seconds are floored, so a negative instant has negative seconds. */
  function OfMicros(m: int): (t: RelTime)
    ensures Normal(t) && Micros(t) == m
  {
    RelTime(m / MICROS_PER_SEC, m % MICROS_PER_SEC)
  }

  /** os_reltime_before: compares seconds, then microseconds. */
  predicate Before(a: RelTime, b: RelTime) {
    a.sec < b.sec || (a.sec == b.sec && a.usec < b.usec)
  }

  /** os_reltime_sub: subtracts field by field and borrows at most one second. */
  method Sub(a: RelTime, b: RelTime) returns (res: RelTime)
    ensures Micros(res) == Micros(a) - Micros(b)
    ensures Normal(a) && Normal(b) ==> res == OfMicros(Micros(a) - Micros(b))
  {
    res := RelTime(a.sec - b.sec, a.usec - b.usec);
    if res.usec < 0 {
      res := res.(sec := res.sec - 1);
      res := res.(usec := res.usec + MICROS_PER_SEC);
    }
    if Normal(a) && Normal(b) {
      NormalIsUnique(res, OfMicros(Micros(a) - Micros(b)));
    }
  }

  /** A normalised stamp is determined by the instant it denotes. */
  lemma NormalIsUnique(a: RelTime, b: RelTime)
    requires Normal(a) && Normal(b) && Micros(a) == Micros(b)
    ensures a == b
  {
  }

  /** On a normalised right-hand side and any left-hand side with microseconds at least 0, the
      field-wise test is right unless the left side hides whole seconds in its microseconds. */
  lemma BeforeAgainstNormal(a: RelTime, b: RelTime)
    requires 0 <= a.usec && Normal(b)
    ensures Before(a, b) == (Micros(a) < Micros(b)) <==> !(a.sec < b.sec && Micros(b) <= Micros(a))
    ensures Before(b, a) == (Micros(b) < Micros(a)) <==> !(a.sec < b.sec && Micros(b) < Micros(a))
  {
  }

  lemma BeforeIsLess(a: RelTime, b: RelTime)
    requires Normal(a) && Normal(b)
    ensures Before(a, b) <==> Micros(a) < Micros(b)
  {
  }
}
