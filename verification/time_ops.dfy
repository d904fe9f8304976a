/** The operations of the main draft (06barannik/Time.h): same-bound `+` and
    `-` with the carry applied inline, the cast to a single duration, the
    converting constructor, and the mixed-bound operators that widen both
    operands to the finer Low and the coarser High first.
 */
module TimeOps {
  import opened CppArith
  import opened Units
  import opened TimeValue
  import opened Normalization

  /** The fields of two values of the same bounds added unit by unit. */
  function FieldSum(a: Time, b: Time): (r: Time)
    requires a.Valid() && b.Valid() && a.low == b.low && a.high == b.high
    ensures r.Valid() && r.low == a.low && r.high == a.high
    ensures forall u: Unit :: r.At(u) == a.At(u) + b.At(u)
  {
    ApplyFrom(a, AddEach(b.fields), 0)
  }

  /** The fields of b subtracted from those of a unit by unit. */
  function FieldDifference(a: Time, b: Time): (r: Time)
    requires a.Valid() && b.Valid() && a.low == b.low && a.high == b.high
    ensures r.Valid() && r.low == a.low && r.high == a.high
    ensures forall u: Unit :: r.At(u) == a.At(u) - b.At(u)
  {
    ApplyFrom(a, SubtractEach(b.fields), 0)
  }

  /** Same-bound operator+: apply_and_normalize with `+= other[idx]`. */
  function Add(a: Time, b: Time): (r: Time)
    requires a.Valid() && b.Valid() && a.low == b.low && a.high == b.high
    ensures r.Carried() && r.low == a.low && r.high == a.high
    ensures r.Total() == a.Total() + b.Total()
  {
    ApplyThenNormalize(a, AddEach(b.fields));
    SumAdditive(a, b, FieldSum(a, b), 0, 6);
    Pass(a, AddEach(b.fields), 0)
  }

  /** Same-bound operator-: apply_and_normalize with `-= other[idx]`. Nothing
      borrows: a negative field keeps the truncated, negative remainder. */
  function Sub(a: Time, b: Time): (r: Time)
    requires a.Valid() && b.Valid() && a.low == b.low && a.high == b.high
    ensures r.Carried() && r.low == a.low && r.high == a.high
    ensures r.Total() == a.Total() - b.Total()
  {
    ApplyThenNormalize(a, SubtractEach(b.fields));
    SumSubtractive(a, b, FieldDifference(a, b), 0, 6);
    Pass(a, SubtractEach(b.fields), 0)
  }

  /** Adding with the inline carry is normalizing the unit-by-unit sum. */
  lemma AddIsNormalizedSum(a: Time, b: Time)
    requires a.Valid() && b.Valid() && a.low == b.low && a.high == b.high
    ensures Add(a, b) == Normalize(FieldSum(a, b))
  {
    ApplyThenNormalize(a, AddEach(b.fields));
  }

  lemma SubIsNormalizedDifference(a: Time, b: Time)
    requires a.Valid() && b.Valid() && a.low == b.low && a.high == b.high
    ensures Sub(a, b) == Normalize(FieldDifference(a, b))
  {
    ApplyThenNormalize(a, SubtractEach(b.fields));
  }

  /** a + b == b + a, field by field. */
  lemma AddCommutes(a: Time, b: Time)
    requires a.Valid() && b.Valid() && a.low == b.low && a.high == b.high
    ensures Add(a, b) == Add(b, a)
  {
    AddIsNormalizedSum(a, b);
    AddIsNormalizedSum(b, a);
    EqualAt(FieldSum(a, b), FieldSum(b, a));
  }

  /** Adding non-negative values gives a canonical, non-negative value. */
  lemma AddOfNonNegative(a: Time, b: Time)
    requires a.Valid() && b.Valid() && a.low == b.low && a.high == b.high
    requires forall j :: 0 <= j < |a.fields| ==> a.fields[j] >= 0
    requires forall j :: 0 <= j < |b.fields| ==> b.fields[j] >= 0
    ensures Add(a, b).Canonical()
    ensures forall j :: 0 <= j < |a.fields| ==> Add(a, b).fields[j] >= 0
  {
    AddIsNormalizedSum(a, b);
    var s := FieldSum(a, b);
    forall j | 0 <= j < |s.fields|
      ensures s.fields[j] >= 0
    {
      assert s.fields[j] == s.At(s.low + j) == a.At(a.low + j) + b.At(a.low + j);
    }
    NormalizeNonNegative(s);
  }

  /** On non-negative values the inline-carry addition is associative. */
  lemma AddAssociativeOnNonNegative(a: Time, b: Time, c: Time)
    requires a.Valid() && b.Valid() && c.Valid()
    requires a.low == b.low == c.low && a.high == b.high == c.high
    requires forall j :: 0 <= j < |a.fields| ==> a.fields[j] >= 0
    requires forall j :: 0 <= j < |b.fields| ==> b.fields[j] >= 0
    requires forall j :: 0 <= j < |c.fields| ==> c.fields[j] >= 0
    ensures Add(Add(a, b), c) == Add(a, Add(b, c))
  {
    AddOfNonNegative(a, b);
    AddOfNonNegative(b, c);
    AddOfNonNegative(Add(a, b), c);
    AddOfNonNegative(a, Add(b, c));
    CanonicalUnique(Add(Add(a, b), c), Add(a, Add(b, c)));
  }

  /** With negative fields it is not: 600 ms + 600 ms - 600 ms, grouped two ways. */
  lemma AddNotAssociative()
    ensures var a := Time(Milliseconds, Seconds, [600, 0]);
            var c := Time(Milliseconds, Seconds, [-600, 0]);
            Add(Add(a, a), c) == Time(Milliseconds, Seconds, [-400, 1]) &&
            Add(a, Add(a, c)) == Time(Milliseconds, Seconds, [600, 0])
  {
    var a := Time(Milliseconds, Seconds, [600, 0]);
    var c := Time(Milliseconds, Seconds, [-600, 0]);
    var aa, ac := Time(Milliseconds, Seconds, [200, 1]), Time(Milliseconds, Seconds, [0, 0]);
    AddTwoFields(a, a, aa);
    AddTwoFields(a, c, ac);
    AddTwoFields(aa, c, Time(Milliseconds, Seconds, [-400, 1]));
    AddTwoFields(a, ac, a);
  }

  /** Add on two-field values at [milliseconds, seconds]: sum the fields,
      then carry once. */
  lemma AddTwoFields(a: Time, b: Time, r: Time)
    requires a.low == b.low == r.low == Milliseconds && a.high == b.high == r.high == Seconds
    requires |a.fields| == |b.fields| == |r.fields| == 2
    requires var v, m := a.fields[0] + b.fields[0], r.fields[0];
             (r.fields[1] - a.fields[1] - b.fields[1]) * 1000 + m == v && Abs(m) < 1000 &&
             (v >= 0 ==> m >= 0) && (v <= 0 ==> m <= 0)
    ensures Add(a, b) == r
  {
    var v := a.fields[0] + b.fields[0];
    TruncUnique(v, 1000, r.fields[1] - a.fields[1] - b.fields[1], r.fields[0]);
    var op := AddEach(b.fields);
    var s := Step(a, op, 0);
    assert Pass(s, op, 2) == s;
    assert Pass(s, op, 1) == Step(s, op, 1);
    assert Step(s, op, 1) == r;
  }

  /** 0 s + 1 min minus 30 s + 0 min: the seconds stay at -30, nothing is borrowed. */
  lemma SubKeepsNegativeRemainder()
    ensures Sub(Time(Seconds, Minutes, [0, 1]), Time(Seconds, Minutes, [30, 0])) == Time(Seconds, Minutes, [-30, 1])
  {
  }

  /** low_broader: of two Low units, the one with the smaller period. */
  function LowBroader(l1: Unit, l2: Unit): (r: Unit)
    ensures r <= l1 && r <= l2 && (r == l1 || r == l2)
  {
    if Size(l1) <= Size(l2) then l1 else l2
  }

  /** high_broader: of two High units, the one with the larger period. */
  function HighBroader(h1: Unit, h2: Unit): (r: Unit)
    ensures r >= h1 && r >= h2 && (r == h1 || r == h2)
  {
    if Size(h1) <= Size(h2) then h2 else h1
  }

  /** std::chrono::duration_cast<d> of `count` ticks of unit u: exact when d
      is not coarser than u, otherwise the count divided by the ratio,
      truncated toward zero. */
  function DurationCast(count: int, u: Unit, d: Unit): (r: int)
    ensures d <= u ==> r * Size(d) == count * Size(u)
    ensures u < d ==> Abs(count * Size(u) - r * Size(d)) <= Size(d) - 1
    ensures u < d ==> Abs(r) * Size(d) <= Abs(count) * Size(u)
    ensures u < d ==> (count >= 0 ==> r >= 0) && (count <= 0 ==> r <= 0)
  {
    if d <= u then
      var k := Scale(d, u);
      assert count * k * Size(d) == count * Size(u);
      count * k
    else
      var k := Scale(u, d);
      CastError(count, k, Size(u), Size(d));
      CastTowardZero(count, k, Size(u), Size(d));
      TDiv(count, k)
  }

  /** The truncated quotient, in the coarser unit, is no larger in magnitude than the count. */
  lemma CastTowardZero(count: int, k: int, su: int, sd: int)
    requires k >= 1 && su >= 1 && sd == su * k
    ensures Abs(TDiv(count, k)) * sd <= Abs(count) * su
  {
    var q := Abs(TDiv(count, k));
    MulMonotone(q * k, Abs(count), su);
    assert q * sd == (q * k) * su;
  }

  /** The contract of DurationCast for a coarser target admits one result
      only, the quotient truncated toward zero: rounding down, which would
      cast -30 s to -1 min, is excluded. */
  lemma CastUnique(count: int, u: Unit, d: Unit, r: int)
    requires u < d
    requires Abs(count * Size(u) - r * Size(d)) <= Size(d) - 1
    requires Abs(r) * Size(d) <= Abs(count) * Size(u)
    requires (count >= 0 ==> r >= 0) && (count <= 0 ==> r <= 0)
    ensures r == DurationCast(count, u, d)
  {
    var k, su, sd := Scale(u, d), Size(u), Size(d);
    var m := count - r * k;
    RemainderExact(count, r, m, k, su, sd);
    ScaledBelow(m, k, su);
    ScaledAtMost(r, count, k, su, sd);
    TruncUnique(count, k, r, m);
  }

  /** Cancelling the unit from |m| * su < k * su. */
  lemma ScaledBelow(m: int, k: int, su: int)
    requires su >= 1 && Abs(m * su) <= k * su - 1
    ensures Abs(m) < k
  {
    assert Abs(m) * su == Abs(m * su);
    if Abs(m) >= k {
      MulMonotone(k, Abs(m), su);
    }
  }

  /** Cancelling the unit from |r| * sd <= |count| * su with sd = su * k. */
  lemma ScaledAtMost(r: int, count: int, k: int, su: int, sd: int)
    requires su >= 1 && sd == su * k
    requires Abs(r) * sd <= Abs(count) * su
    ensures Abs(r) * k <= Abs(count)
  {
    var a, b := Abs(r) * k, Abs(count);
    assert Abs(r) * sd == a * su;
    if a > b {
      MulMonotone(b + 1, a, su);
      Distribute(b, 1, su);
    }
  }

  /** -30 s cast to minutes is 0 min, as duration_cast gives. */
  lemma CastOfNegativeSeconds()
    ensures DurationCast(-30, Seconds, Minutes) == 0
  {
  }

  lemma CastError(count: int, k: int, su: int, sd: int)
    requires k >= 1 && su >= 1 && sd == su * k
    ensures Abs(count * su - TDiv(count, k) * sd) <= sd - 1
  {
    RemainderScaled(count, TDiv(count, k), TMod(count, k), k, su, sd);
  }

  /** What truncation leaves over, |m| < k ticks of su, is less than one sd = su * k. */
  lemma RemainderScaled(count: int, q: int, m: int, k: int, su: int, sd: int)
    requires k >= 1 && su >= 1 && sd == su * k
    requires q * k + m == count && Abs(m) <= k - 1
    ensures Abs(count * su - q * sd) <= sd - 1
  {
    RemainderExact(count, q, m, k, su, sd);
    RemainderBound(m, k, su, sd);
  }

  lemma RemainderExact(count: int, q: int, m: int, k: int, su: int, sd: int)
    requires sd == su * k && q * k + m == count
    ensures count * su - q * sd == m * su
  {
    Distribute(q * k, m, su);
    assert q * sd == (q * k) * su;
  }

  lemma RemainderBound(m: int, k: int, su: int, sd: int)
    requires k >= 1 && su >= 1 && sd == su * k && Abs(m) <= k - 1
    ensures Abs(m * su) <= sd - su
  {
    var a := Abs(m);
    MulMonotone(a, k - 1, su);
    Distribute(k, 1, su);
    assert a * su == Abs(m * su);
  }

  /** The cast of the units a and coarser. Units outside the value's range
      hold 0 and cast to 0, so summing over all of them is summing over the
      fields, as the for_each in the source does. */
  function CastFrom(t: Time, d: Unit, a: nat): int
    requires a <= 6
    decreases 6 - a
  {
    if a == 6 then 0 else DurationCast(t.At(a), a, d) + CastFrom(t, d, a + 1)
  }

  lemma CastAccumulates(x: int, c: int, s: int, rest: int, size: int)
    ensures (x + s) - (c + rest) * size == (x - c * size) + (s - rest * size)
  {
  }

  /** No unit from a up to d holds anything: the cast is exact. */
  lemma {:induction false} CastFromExact(t: Time, d: Unit, a: nat)
    requires a <= 6
    requires forall u: Unit :: a <= u < d ==> t.At(u) == 0
    ensures CastFrom(t, d, a) * Size(d) == t.Sum(a, 6)
    decreases 6 - a
  {
    if a < 6 {
      CastFromExact(t, d, a + 1);
      CastAccumulates(t.At(a) * Size(a), DurationCast(t.At(a), a, d), t.Sum(a + 1, 6), CastFrom(t, d, a + 1), Size(d));
    }
  }

  /** The most a cast to d can lose on the units a and coarser: less than
      one d for each of them that is finer than d. */
  function Slack(a: nat, d: Unit): int
    decreases 6 - a
  {
    if a >= d then 0 else (Size(d) - 1) + Slack(a + 1, d)
  }

  lemma {:induction false} SlackClosed(a: nat, d: Unit)
    requires a <= d
    ensures Slack(a, d) == (d - a) * (Size(d) - 1)
    decreases d - a
  {
    if a < d {
      SlackClosed(a + 1, d);
      var n, e := d - (a + 1), Size(d) - 1;
      Distribute(n, 1, e);
    }
  }

  /** Each unit finer than d loses less than one d. */
  lemma {:induction false} CastFromError(t: Time, d: Unit, a: nat)
    requires a <= 6
    ensures Abs(t.Sum(a, 6) - CastFrom(t, d, a) * Size(d)) <= Slack(a, d)
    decreases 6 - a
  {
    if a < 6 {
      CastFromError(t, d, a + 1);
      var x, c := t.At(a) * Size(a), DurationCast(t.At(a), a, d);
      var s, rest, size := t.Sum(a + 1, 6), CastFrom(t, d, a + 1), Size(d);
      assert t.Sum(a, 6) == x + s;
      assert CastFrom(t, d, a) == c + rest;
      var here, slack := if a < d then size - 1 else 0, Slack(a + 1, d);
      ErrorStep(x, c, s, rest, size, here, slack);
    }
  }

  lemma ErrorStep(x: int, c: int, s: int, rest: int, size: int, here: int, slack: int)
    requires Abs(x - c * size) <= here
    requires Abs(s - rest * size) <= slack
    ensures Abs((x + s) - (c + rest) * size) <= here + slack
  {
    CastAccumulates(x, c, s, rest, size);
  }

  /** `static_cast<Duration>(time)`: each field converted with duration_cast
      and the results summed. Exact when no field is finer than the target,
      in particular when the target is Low. */
  function CastTo(t: Time, d: Unit): (r: int)
    requires t.Valid()
    ensures d <= t.low ==> r * Size(d) == t.Total()
  {
    if d <= t.low then
      CastFromExact(t, d, 0);
      CastFrom(t, d, 0)
    else
      CastFrom(t, d, 0)
  }

  /** Casting to a coarser unit than Low loses, for each finer field on its
      own, less than one target unit. */
  lemma CastToError(t: Time, d: Unit)
    requires t.Valid()
    ensures Abs(t.Total() - CastTo(t, d) * Size(d)) <= d * (Size(d) - 1)
  {
    CastFromError(t, d, 0);
    SlackClosed(0, d);
  }

  /** Each field is truncated on its own: 1500 ms + 59 s is 60.5 s, but
      neither field reaches a minute, so the cast to minutes is 0. */
  lemma CastTruncatesEachField()
    ensures CastTo(Time(Milliseconds, Seconds, [1500, 59]), Minutes) == 0
    ensures Time(Milliseconds, Seconds, [1500, 59]).Total() >= Size(Minutes)
  {
  }

  /** Whether Time<lo, hi>(src) is a narrowing conversion: hi finer than
      src's High or lo coarser than src's Low. */
  function Narrowing(src: Time, lo: Unit, hi: Unit): (b: bool)
    ensures b <==> hi < src.high || lo > src.low
  {
    SizeOrder(hi, src.high);
    SizeOrder(src.low, lo);
    Size(hi) < Size(src.high) || Size(lo) > Size(src.low)
  }

  /** `Time<lo, hi>(src)` as C++ overload resolution picks it: the implicit
      copy when the bounds are src's own, the converting constructor
      otherwise. */
  function Construct(src: Time, lo: Unit, hi: Unit): (r: Time)
    requires src.Valid() && lo <= hi
    ensures r.Valid() && r.low == lo && r.high == hi
    ensures r.Total() == src.TotalFrom(lo)
    ensures (lo != src.low || hi != src.high) ==> r.Carried()
    decreases if hi < src.high then 1 else 0, 3
  {
    if lo == src.low && hi == src.high then
      TotalFromBelowLow(src, lo);
      src
    else Convert(src, lo, hi)
  }

  /** `static_cast<high_t>(other_truncated)` with other_truncated of type
      Time<hi, src's High>: src's fields from hi upward, in units of hi. */
  function FoldHigh(src: Time, hi: Unit): (folded: int)
    requires src.Valid() && hi < src.high
    ensures folded * Size(hi) == src.TotalFrom(hi)
    decreases 1, 0
  {
    CastTo(Construct(src, hi, src.high), hi)
  }

  /** The converting constructor before its final normalize: the fields of
      the shared units copied, and when hi is finer than src's High, the
      field hi overwritten with src's fields from hi upward, cast to hi. */
  function Assemble(src: Time, lo: Unit, hi: Unit): (r: Time)
    requires src.Valid() && lo <= hi
    ensures r.Valid() && r.low == lo && r.high == hi
    ensures forall u: Unit :: lo <= u < hi ==> r.At(u) == src.At(u)
    ensures hi < src.high ==> r.At(hi) * Size(hi) == src.TotalFrom(hi)
    ensures src.high <= hi ==> r.At(hi) == src.At(hi)
    decreases if hi < src.high then 1 else 0, 1
  {
    var copied := CopyByUnit(Zero(lo, hi), src);
    CopyIntoZero(src, lo, hi);
    if Narrowing(src, lo, hi) && hi < src.high then
      WithHigh(copied, FoldHigh(src, hi))
    else
      copied
  }

  /** `std::get<high_t>(fields) = x`: the coarsest field overwritten,
      nothing else changed. */
  function WithHigh(t: Time, x: int): (r: Time)
    requires t.Valid()
    ensures r.Valid() && r.low == t.low && r.high == t.high
    ensures forall u: Unit :: r.At(u) == if u == t.high then x else t.At(u)
  {
    var r := t.(fields := t.fields[t.high - t.low := x]);
    assert forall j :: 0 <= j < |t.fields| - 1 ==> r.fields[j] == t.fields[j];
    r
  }

  /** The converting constructor Time<lo, hi>(src) for bounds other than
      src's own: it keeps exactly the part of src's value at lo and coarser,
      and leaves the result carried. */
  function Convert(src: Time, lo: Unit, hi: Unit): (r: Time)
    requires src.Valid() && lo <= hi
    ensures r.Carried() && r.low == lo && r.high == hi
    ensures r.Total() == src.TotalFrom(lo)
    decreases if hi < src.high then 1 else 0, 2
  {
    var assembled := Assemble(src, lo, hi);
    AssembledTotal(src, assembled, lo, hi);
    Normalize(assembled)
  }

  /** The value of the assembled fields is src's value from lo upward. */
  lemma AssembledTotal(src: Time, t: Time, lo: Unit, hi: Unit)
    requires src.Valid() && t.Valid() && t.low == lo && t.high == hi
    requires forall u: Unit :: lo <= u < hi ==> t.At(u) == src.At(u)
    requires hi < src.high ==> t.At(hi) * Size(hi) == src.TotalFrom(hi)
    requires src.high <= hi ==> t.At(hi) == src.At(hi)
    ensures t.Total() == src.TotalFrom(lo)
  {
    SumSplit(t, 0, lo, 6);
    SumOfZeros(t, 0, lo);
    SumSplit(t, lo, hi, 6);
    SumSplit(src, lo, hi, 6);
    SumPointwise(t, src, lo, hi);
    SumSplit(t, hi, hi + 1, 6);
    SumOfZeros(t, hi + 1, 6);
    if src.high <= hi {
      SumSplit(src, hi, hi + 1, 6);
      SumOfZeros(src, hi + 1, 6);
    }
  }

  /** Mixed-bound operator+: both operands constructed as Time<finer Low,
      coarser High>, then added. Two values of the same bounds use the
      same-bound operator directly. */
  function Plus(a: Time, b: Time): (r: Time)
    requires a.Valid() && b.Valid()
    ensures r.Carried()
    ensures r.low == LowBroader(a.low, b.low) && r.high == HighBroader(a.high, b.high)
    ensures r.Total() == a.Total() + b.Total()
  {
    if a.low == b.low && a.high == b.high then Add(a, b)
    else
      var lo := LowBroader(a.low, b.low);
      var hi := HighBroader(a.high, b.high);
      TotalFromBelowLow(a, lo);
      TotalFromBelowLow(b, lo);
      Add(Construct(a, lo, hi), Construct(b, lo, hi))
  }

  /** Mixed-bound operator-, likewise. */
  function Minus(a: Time, b: Time): (r: Time)
    requires a.Valid() && b.Valid()
    ensures r.Carried()
    ensures r.low == LowBroader(a.low, b.low) && r.high == HighBroader(a.high, b.high)
    ensures r.Total() == a.Total() - b.Total()
  {
    if a.low == b.low && a.high == b.high then Sub(a, b)
    else
      var lo := LowBroader(a.low, b.low);
      var hi := HighBroader(a.high, b.high);
      TotalFromBelowLow(a, lo);
      TotalFromBelowLow(b, lo);
      Sub(Construct(a, lo, hi), Construct(b, lo, hi))
  }

  lemma PlusCommutes(a: Time, b: Time)
    requires a.Valid() && b.Valid()
    ensures Plus(a, b) == Plus(b, a)
  {
    var lo := LowBroader(a.low, b.low);
    var hi := HighBroader(a.high, b.high);
    assert lo == LowBroader(b.low, a.low) && hi == HighBroader(b.high, a.high);
    if a.low == b.low && a.high == b.high {
      AddCommutes(a, b);
    } else {
      AddCommutes(Construct(a, lo, hi), Construct(b, lo, hi));
    }
  }

  /** Widening a carried value and constructing its own bounds back gives
      the value back unchanged: widening only appends zero fields (and
      carries the old coarsest field upward), narrowing folds them back. */
  lemma WidenThenNarrow(src: Time, lo: Unit, hi: Unit)
    requires src.Carried() && lo <= src.low && src.high <= hi
    ensures Construct(Construct(src, lo, hi), src.low, src.high) == src
  {
    if lo == src.low && hi == src.high {
      NormalizeKeepsCarried(src);
    } else {
      var w := Construct(src, lo, hi);
      WidenedAgrees(src, lo, hi);
      var b := Assemble(w, src.low, src.high);
      forall u: Unit
        ensures b.At(u) == src.At(u)
      {
        if src.low <= u < src.high {
          assert b.At(u) == w.At(u);
        } else if u == src.high {
          var top, size := src.high, Size(src.high);
          TotalFromHigh(src);
          if top < hi {
            assert b.At(top) * size == w.TotalFrom(top);
          } else {
            TotalFromHigh(w);
            assert b.At(top) == w.At(top);
          }
          MulCancel(b.At(top), src.At(top), size);
        }
      }
      EqualAt(b, src);
      NormalizeKeepsCarried(src);
    }
  }

  /** A widened carried value holds the original's fields below its High,
      and the original's value from High upward. */
  lemma WidenedAgrees(src: Time, lo: Unit, hi: Unit)
    requires src.Carried() && lo <= src.low && src.high <= hi
    requires lo != src.low || hi != src.high
    ensures forall u: Unit :: u < src.high ==> Convert(src, lo, hi).At(u) == src.At(u)
    ensures Convert(src, lo, hi).TotalFrom(src.high) == src.TotalFrom(src.high)
  {
    var a := Assemble(src, lo, hi);
    var w := Convert(src, lo, hi);
    assert w == Normalize(a);
    var k := src.high - lo;
    CarriedPrefixOf(a, src, k);
    NormalizeKeepsCarriedPrefix(a, k);
    forall u: Unit | u < src.high
      ensures w.At(u) == src.At(u)
    {
      assert w.At(u) == a.At(u);
      if u < lo {
        assert src.At(u) == 0;
      }
    }
    TotalFromBelowLow(src, lo);
    TotalFromAgrees(w, src, src.high);
  }

  /** Fields that agree with a carried value below its High are within the ratio. */
  lemma CarriedPrefixOf(a: Time, src: Time, k: nat)
    requires a.Valid() && src.Carried() && a.low <= src.low && a.low + k == src.high && k < |a.fields|
    requires forall u: Unit :: a.low <= u < src.high ==> a.At(u) == src.At(u)
    ensures forall j :: 0 <= j < k ==> Abs(a.fields[j]) < Ratio(a.low + j)
  {
    forall j | 0 <= j < k
      ensures Abs(a.fields[j]) < Ratio(a.low + j)
    {
      var u: Unit := a.low + j;
      assert a.At(u) == a.fields[j];
      if src.low <= u {
        assert src.At(u) == src.fields[u - src.low];
      }
    }
  }

  /** The converting constructor characterised: when the fields it
      assembles (src's shared fields, and src's value from hi upward folded
      into hi) are already carried, they are the result. */
  lemma ConstructCarried(src: Time, lo: Unit, hi: Unit, r: Time)
    requires src.Valid() && r.Carried() && r.low == lo && r.high == hi
    requires lo != src.low || hi != src.high
    requires forall u: Unit :: lo <= u < hi ==> r.At(u) == src.At(u)
    requires hi < src.high ==> r.At(hi) * Size(hi) == src.TotalFrom(hi)
    requires src.high <= hi ==> r.At(hi) == src.At(hi)
    ensures Construct(src, lo, hi) == r
  {
    var a := Assemble(src, lo, hi);
    forall u: Unit
      ensures a.At(u) == r.At(u)
    {
      if u == hi && hi < src.high {
        var x, y, size := a.At(hi), r.At(hi), Size(hi);
        assert x * size == y * size;
        MulCancel(x, y, size);
      }
    }
    EqualAt(a, r);
    NormalizeKeepsCarried(r);
  }
}
