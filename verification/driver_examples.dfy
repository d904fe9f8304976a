/** The values the test driver of the Time draft builds and prints, with the
    results its conversions and additions produce.
 */
module DriverExamples {
  import opened CppArith
  import opened Units
  import opened TimeValue
  import opened Normalization
  import opened TimeOps

  /** t1{ 10us, 20ms, 0s, 1min } of type Time<microseconds, minutes>. */
  const T1: Time := Time(Microseconds, Minutes, [10, 20, 0, 1])
  /** t2{ 990us, 980ms, 20s, 10min, 2h }. */
  const T2: Time := Time(Microseconds, Hours, [990, 980, 20, 10, 2])
  /** t3{ 20s, 10min, 14h }. */
  const T3: Time := Time(Seconds, Hours, [20, 10, 14])

  /** Adding two non-negative values of the same bounds gives the canonical
      value of their sum, so any canonical value with that total is the result. */
  lemma AddCanonical(a: Time, b: Time, r: Time)
    requires a.Valid() && b.Valid() && a.low == b.low && a.high == b.high
    requires forall j :: 0 <= j < |a.fields| ==> a.fields[j] >= 0
    requires forall j :: 0 <= j < |b.fields| ==> b.fields[j] >= 0
    requires r.Canonical() && r.low == a.low && r.high == a.high
    requires r.Total() == a.Total() + b.Total()
    ensures Add(a, b) == r
  {
    AddOfNonNegative(a, b);
    CanonicalUnique(Add(a, b), r);
  }

  /** Time<minutes, hours>(t3) drops the seconds. */
  lemma T3Truncated()
    ensures Construct(T3, Minutes, Hours) == Time(Minutes, Hours, [10, 14])
  {
    ConstructCarried(T3, Minutes, Hours, Time(Minutes, Hours, [10, 14]));
  }

  /** Time<seconds, minutes>(t3) folds the 14 hours into the minutes: 850 min. */
  lemma T3Lowered()
    ensures Construct(T3, Seconds, Minutes) == Time(Seconds, Minutes, [20, 850])
  {
    var r := Time(Seconds, Minutes, [20, 850]);
    assert r.At(Minutes) * Size(Minutes) == T3.TotalFrom(Minutes);
    ConstructCarried(T3, Seconds, Minutes, r);
  }

  /** Time<seconds, minutes>(t2) drops the finer units and folds the hours: 20 s, 130 min. */
  lemma T2TruncatedAndLowered()
    ensures Construct(T2, Seconds, Minutes) == Time(Seconds, Minutes, [20, 130])
  {
    var r := Time(Seconds, Minutes, [20, 130]);
    assert r.At(Minutes) * Size(Minutes) == T2.TotalFrom(Minutes);
    ConstructCarried(T2, Seconds, Minutes, r);
  }

  /** t1.get<microseconds>() is 10. */
  lemma T1Microseconds()
    ensures Get(T1, Microseconds) == 10
  {
  }

  /** static_cast<seconds>(t1) is 60: 10 us and 20 ms are cast to 0 s each,
      the minute to 60 s. */
  lemma T1InSeconds()
    ensures CastTo(T1, Seconds) == 60
  {
    SmallDividend(10, 1_000_000);
    SmallDividend(20, 1_000);
    assert CastFrom(T1, Seconds, 5) == 0;
    assert CastFrom(T1, Seconds, 4) == 60;
    assert CastFrom(T1, Seconds, 3) == 60;
  }

  /** t1 widened to [microseconds, hours]: a zero hour field appended. */
  lemma T1Widened()
    ensures Construct(T1, Microseconds, Hours) == Time(Microseconds, Hours, [10, 20, 0, 1, 0])
  {
    ConstructCarried(T1, Microseconds, Hours, Time(Microseconds, Hours, [10, 20, 0, 1, 0]));
  }

  /** r1 = t1 + t2: the 1000 us and 1000 ms carry upward. */
  lemma R1()
    ensures Plus(T1, T2) == Time(Microseconds, Hours, [0, 1, 21, 11, 2])
  {
    T1Widened();
    R1Sum();
    PlusAt(T1, T2, Microseconds, Hours, Time(Microseconds, Hours, [10, 20, 0, 1, 0]), T2);
  }

  lemma R1Sum()
    ensures Add(Time(Microseconds, Hours, [10, 20, 0, 1, 0]), T2) == Time(Microseconds, Hours, [0, 1, 21, 11, 2])
  {
    var w := Time(Microseconds, Hours, [10, 20, 0, 1, 0]);
    var r := Time(Microseconds, Hours, [0, 1, 21, 11, 2]);
    TotalExpanded(w);
    TotalExpanded(T2);
    TotalExpanded(r);
    AddCanonical(w, T2, r);
  }

  /** t3 widened to [microseconds, hours]: zero fields below the seconds. */
  lemma T3Widened()
    ensures Construct(T3, Microseconds, Hours) == Time(Microseconds, Hours, [0, 0, 20, 10, 14])
  {
    var w := Time(Microseconds, Hours, [0, 0, 20, 10, 14]);
    forall u: Unit | Microseconds <= u < Hours
      ensures w.At(u) == T3.At(u)
    {
      if u == Microseconds {
      } else if u == Milliseconds {
      } else if u == Seconds {
      } else {
      }
    }
    ConstructCarried(T3, Microseconds, Hours, w);
  }

  /** r2 = t1 + t3, at [microseconds, hours]. */
  lemma R2()
    ensures Plus(T1, T3) == Time(Microseconds, Hours, [10, 20, 20, 11, 14])
  {
    T1Widened();
    T3Widened();
    R2Sum();
    PlusAt(T1, T3, Microseconds, Hours, Time(Microseconds, Hours, [10, 20, 0, 1, 0]),
           Time(Microseconds, Hours, [0, 0, 20, 10, 14]));
  }

  lemma R2Sum()
    ensures Add(Time(Microseconds, Hours, [10, 20, 0, 1, 0]), Time(Microseconds, Hours, [0, 0, 20, 10, 14]))
            == Time(Microseconds, Hours, [10, 20, 20, 11, 14])
  {
    var w1 := Time(Microseconds, Hours, [10, 20, 0, 1, 0]);
    var w3 := Time(Microseconds, Hours, [0, 0, 20, 10, 14]);
    var r := Time(Microseconds, Hours, [10, 20, 20, 11, 14]);
    TotalExpanded(w1);
    TotalExpanded(w3);
    TotalExpanded(r);
    AddCanonical(w1, w3, r);
  }

  /** Mixed-bound addition of a and b is the addition of what they are
      constructed as at the broader bounds. */
  lemma PlusAt(a: Time, b: Time, lo: Unit, hi: Unit, ca: Time, cb: Time)
    requires a.Valid() && b.Valid()
    requires lo == LowBroader(a.low, b.low) && hi == HighBroader(a.high, b.high)
    requires Construct(a, lo, hi) == ca && Construct(b, lo, hi) == cb
    ensures Plus(a, b) == Add(ca, cb)
  {
  }

  /** r3 = r2 + t2: both already at [microseconds, hours]. */
  lemma R3()
    ensures Plus(Time(Microseconds, Hours, [10, 20, 20, 11, 14]), T2) ==
            Time(Microseconds, Hours, [0, 1, 41, 21, 16])
  {
    var r2 := Time(Microseconds, Hours, [10, 20, 20, 11, 14]);
    var r := Time(Microseconds, Hours, [0, 1, 41, 21, 16]);
    TotalExpanded(r2);
    TotalExpanded(T2);
    TotalExpanded(r);
    AddCanonical(r2, T2, r);
  }
}
