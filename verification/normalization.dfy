/** apply_and_normalize and normalize (Time.h and TrueTime.h): one pass over
    the fields, finest first; at each field an operation is applied and then,
    unless the field is the coarsest, the truncated quotient by the ratio to
    the next unit is carried into the next field and the field keeps the
    truncated remainder.
 */
module Normalization {
  import opened CppArith
  import opened Units
  import opened TimeValue

  /** The callable given to apply_and_normalize: nothing (normalize),
      `+= other[idx]` (operator+) or `-= other[idx]` (operator-). */
  datatype Apply = Keep | AddEach(other: seq<int>) | SubtractEach(other: seq<int>)
  {
    predicate Fits(n: nat) {
      Keep? || |other| == n
    }

    function On(v: int, i: nat): int
      requires Keep? || i < |other|
    {
      match this
      case Keep => v
      case AddEach(o) => v + o[i]
      case SubtractEach(o) => v - o[i]
    }
  }

  /** Each of the callables shifts its argument by a constant, so a carry
      added before or after it gives the same field. */
  lemma OnShift(op: Apply, v: int, c: int, i: nat)
    requires op.Keep? || i < |op.other|
    ensures op.On(v + c, i) == op.On(v, i) + c
  {
  }

  /** The body of apply_and_normalize's lambda for index i. */
  function Step(t: Time, op: Apply, i: nat): (r: Time)
    requires t.Valid() && op.Fits(|t.fields|) && i < |t.fields|
    ensures r.Valid() && r.low == t.low && r.high == t.high
  {
    var v := op.On(t.fields[i], i);
    if i + 1 < |t.fields| then
      var ratio := Ratio(t.low + i);
      var carried := t.fields[i + 1 := t.fields[i + 1] + TDiv(v, ratio)];
      t.(fields := carried[i := TMod(v, ratio)])
    else
      t.(fields := t.fields[i := v])
  }

  /** The two updates of a carry step cancel out: the next field goes from
      next to next + q, worth q of the next unit, and the current field goes
      from v to m = v - q * ratio. */
  lemma CarryKeepsValue(before: int, middle: int, after: int, next: int, carried: int, v: int,
                        q: int, m: int, size: int, nextSize: int, ratio: int)
    requires nextSize == size * ratio && q * ratio + m == v && carried == next + q
    requires middle == before + (carried - next) * nextSize
    requires after == middle + (m - v) * size
    ensures after == before
  {
    assert (carried - next) * nextSize == (q * ratio) * size;
    Distribute(q * ratio, v, size);
  }

  /** Moving q of the next unit out of field i, leaving m, keeps the value
      represented when q of the next unit are worth v - m of unit i. */
  lemma CarryFields(t: Time, i: nat, q: int, m: int)
    requires t.Valid() && i + 1 < |t.fields|
    requires q * Ratio(t.low + i) + m == t.fields[i]
    ensures t.(fields := t.fields[i + 1 := t.fields[i + 1] + q][i := m]).Total() == t.Total()
  {
    var v, next := t.fields[i], t.fields[i + 1];
    var ratio := Ratio(t.low + i);
    var carried := next + q;
    var t1 := t.(fields := t.fields[i + 1 := carried]);
    var t2 := t1.(fields := t1.fields[i := m]);
    assert t2 == t.(fields := t.fields[i + 1 := t.fields[i + 1] + q][i := m]);
    var size := Size(t.low + i);
    var nextSize := Size(t.low + i + 1);
    TotalUpdate(t, i + 1, carried, next, nextSize);
    TotalUpdate(t1, i, m, v, size);
    RatioScales(t.low + i);
    var before, middle, after := t.Total(), t1.Total(), t2.Total();
    CarryKeepsValue(before, middle, after, next, carried, v, q, m, size, nextSize, ratio);
  }

  /** Carrying out of a field keeps the value represented. */
  lemma StepKeepsTotal(t: Time, i: nat)
    requires t.Valid() && i < |t.fields|
    ensures Step(t, Keep, i).Total() == t.Total()
  {
    var v := t.fields[i];
    assert Keep.On(v, i) == v;
    if i + 1 < |t.fields| {
      var ratio := Ratio(t.low + i);
      var q, m := TDiv(v, ratio), TMod(v, ratio);
      assert Step(t, Keep, i) == t.(fields := t.fields[i + 1 := t.fields[i + 1] + q][i := m]);
      CarryFields(t, i, q, m);
    } else {
      assert t.fields[i := v] == t.fields;
    }
  }

  /** apply_and_normalize from index i on. */
  function Pass(t: Time, op: Apply, i: nat): (r: Time)
    requires t.Valid() && op.Fits(|t.fields|) && i <= |t.fields|
    ensures r.Valid() && r.low == t.low && r.high == t.high
    ensures forall j :: 0 <= j < i ==> r.fields[j] == t.fields[j]
    ensures forall j :: i <= j < |t.fields| - 1 ==> Abs(r.fields[j]) < Ratio(t.low + j)
    ensures op.Keep? ==> r.Total() == t.Total()
    decreases |t.fields| - i
  {
    if i == |t.fields| then t
    else
      var s := Step(t, op, i);
      if op.Keep? then StepKeepsTotal(t, i); Pass(s, op, i + 1)
      else Pass(s, op, i + 1)
  }

  /** normalize: the carry pass with nothing applied. It keeps the value and
      leaves every field but the coarsest smaller in magnitude than the ratio
      to the next unit. */
  function Normalize(t: Time): (r: Time)
    requires t.Valid()
    ensures r.Carried() && r.low == t.low && r.high == t.high
    ensures r.Total() == t.Total()
  {
    Pass(t, Keep, 0)
  }

  /** The fields with the callable applied from index i on. */
  function ApplyFrom(t: Time, op: Apply, i: nat): (r: Time)
    requires t.Valid() && op.Fits(|t.fields|)
    ensures r.Valid() && r.low == t.low && r.high == t.high
  {
    t.(fields := seq(|t.fields|, j requires 0 <= j < |t.fields| =>
                       if j >= i then op.On(t.fields[j], j) else t.fields[j]))
  }

  /** One step with the callable, then the callable on the fields after it,
      is the callable on every field from i, then one plain step. */
  lemma StepThenApply(t: Time, op: Apply, i: nat)
    requires t.Valid() && op.Fits(|t.fields|) && i < |t.fields|
    ensures ApplyFrom(Step(t, op, i), op, i + 1) == Step(ApplyFrom(t, op, i), Keep, i)
  {
    var left := ApplyFrom(Step(t, op, i), op, i + 1).fields;
    var applied := ApplyFrom(t, op, i);
    var right := Step(applied, Keep, i).fields;
    assert applied.fields[i] == op.On(t.fields[i], i);
    if i + 1 < |t.fields| {
      var c := TDiv(op.On(t.fields[i], i), Ratio(t.low + i));
      OnShift(op, t.fields[i + 1], c, i + 1);
      assert applied.fields[i + 1] == op.On(t.fields[i + 1], i + 1);
      assert left[i + 1] == right[i + 1];
    }
    forall j | 0 <= j < |left|
      ensures left[j] == right[j]
    {
      if j != i && j != i + 1 {
        assert left[j] == applied.fields[j];
      }
    }
    assert left == right;
  }

  lemma {:induction false} PassAppliesFirst(t: Time, op: Apply, i: nat)
    requires t.Valid() && op.Fits(|t.fields|) && i <= |t.fields|
    ensures Pass(t, op, i) == Pass(ApplyFrom(t, op, i), Keep, i)
    decreases |t.fields| - i
  {
    if i == |t.fields| {
      assert ApplyFrom(t, op, i).fields == t.fields;
    } else {
      PassAppliesFirst(Step(t, op, i), op, i + 1);
      StepThenApply(t, op, i);
    }
  }

  /** Applying the callable inside the pass is the same as applying it to
      every field first and normalizing afterwards. */
  lemma ApplyThenNormalize(t: Time, op: Apply)
    requires t.Valid() && op.Fits(|t.fields|)
    ensures Pass(t, op, 0) == Normalize(ApplyFrom(t, op, 0))
  {
    PassAppliesFirst(t, op, 0);
  }

  /** Fields already within the ratio carry nothing: the pass over them is a no-op. */
  lemma {:induction false} PassSkipsCarried(t: Time, i: nat, k: nat)
    requires t.Valid() && i <= k < |t.fields|
    requires forall j :: i <= j < k ==> Abs(t.fields[j]) < Ratio(t.low + j)
    ensures Pass(t, Keep, i) == Pass(t, Keep, k)
    decreases k - i
  {
    if i < k {
      SmallDividend(t.fields[i], Ratio(t.low + i));
      assert Step(t, Keep, i).fields == t.fields;
      PassSkipsCarried(t, i + 1, k);
    }
  }

  /** The last step has nothing to carry into. */
  lemma PassLast(t: Time)
    requires t.Valid()
    ensures Pass(t, Keep, |t.fields| - 1) == t
  {
    var i := |t.fields| - 1;
    assert Step(t, Keep, i).fields == t.fields;
  }

  /** normalize leaves an already carried value untouched. */
  lemma NormalizeKeepsCarried(t: Time)
    requires t.Carried()
    ensures Normalize(t) == t
  {
    PassSkipsCarried(t, 0, |t.fields| - 1);
    PassLast(t);
  }

  /** Fields below an index that are already within the ratio come out of
      normalize unchanged: a carry only ever moves upward. */
  lemma NormalizeKeepsCarriedPrefix(t: Time, k: nat)
    requires t.Valid() && k < |t.fields|
    requires forall j :: 0 <= j < k ==> Abs(t.fields[j]) < Ratio(t.low + j)
    ensures forall u: Unit :: u < t.low + k ==> Normalize(t).At(u) == t.At(u)
  {
    PassSkipsCarried(t, 0, k);
    var r := Normalize(t);
    assert forall j :: 0 <= j < k ==> r.fields[j] == t.fields[j];
    forall u: Unit | u < t.low + k
      ensures r.At(u) == t.At(u)
    {
      if t.low <= u {
        FieldAt(r, u - t.low);
        FieldAt(t, u - t.low);
      }
    }
  }

  /** Hence normalize is idempotent. */
  lemma NormalizeIdempotent(t: Time)
    requires t.Valid()
    ensures Normalize(Normalize(t)) == Normalize(t)
  {
    NormalizeKeepsCarried(Normalize(t));
  }

  /** A plain step keeps non-negative fields non-negative. */
  lemma StepOfNonNegative(t: Time, i: nat)
    requires t.Valid() && i < |t.fields|
    requires forall j :: i <= j < |t.fields| ==> t.fields[j] >= 0
    ensures forall j :: i <= j < |t.fields| ==> Step(t, Keep, i).fields[j] >= 0
  {
  }

  /** From non-negative fields the pass produces a canonical value: every
      field but the coarsest in [0, ratio), the coarsest non-negative. */
  lemma {:induction false} PassOfNonNegative(t: Time, i: nat)
    requires t.Valid() && i <= |t.fields|
    requires forall j :: i <= j < |t.fields| ==> t.fields[j] >= 0
    ensures forall j :: i <= j < |t.fields| ==> Pass(t, Keep, i).fields[j] >= 0
    decreases |t.fields| - i
  {
    if i < |t.fields| {
      var s := Step(t, Keep, i);
      StepOfNonNegative(t, i);
      PassOfNonNegative(s, i + 1);
      var r := Pass(s, Keep, i + 1);
      assert Pass(t, Keep, i) == r;
      assert r.fields[i] == s.fields[i];
    }
  }

  lemma NormalizeNonNegative(t: Time)
    requires t.Valid()
    requires forall j :: 0 <= j < |t.fields| ==> t.fields[j] >= 0
    ensures Normalize(t).Canonical()
    ensures forall j :: 0 <= j < |t.fields| ==> Normalize(t).fields[j] >= 0
  {
    PassOfNonNegative(t, 0);
  }

  lemma DigitBound(lower: int, f: int, size: int, ratio: int)
    requires 0 <= lower < size && 0 <= f < ratio
    ensures 0 <= lower + f * size < size * ratio
  {
    assert f * size <= (ratio - 1) * size;
  }

  /** Below a unit k of its range, the fields of a canonical value are worth
      less than one k. */
  lemma {:induction false} CanonicalBelow(t: Time, k: Unit)
    requires t.Canonical() && t.low <= k <= t.high
    ensures 0 <= t.Sum(0, k) < Size(k)
    decreases k - t.low
  {
    if k == t.low {
      SumOfZeros(t, 0, k);
    } else {
      var below: Unit := k - 1;
      CanonicalBelow(t, below);
      SumSplit(t, 0, below, k);
      var f := t.At(below);
      assert 0 <= f < Ratio(below) by {
        assert f == t.fields[below - t.low];
      }
      DigitBound(t.Sum(0, below), f, Size(below), Ratio(below));
      RatioScales(below);
    }
  }

  /** Remainder and quotient of a division are unique. */
  lemma DivUnique(x1: int, a1: int, x2: int, a2: int, size: int)
    requires 0 <= x1 < size && 0 <= x2 < size
    requires x1 + a1 * size == x2 + a2 * size
    ensures a1 == a2
  {
    if a1 < a2 {
      assert (a2 - a1) * size == x1 - x2;
      MulAtLeast(a2 - a1, size);
    } else if a2 < a1 {
      assert (a1 - a2) * size == x2 - x1;
      MulAtLeast(a1 - a2, size);
    }
  }

  /** Two canonical values that agree on the units up to k agree on the
      digit k and on everything below it. */
  lemma TopDigitEqual(s: Time, t: Time, k: Unit)
    requires s.Canonical() && t.Canonical() && s.low == t.low && s.high == t.high
    requires s.low <= k <= s.high
    requires s.Sum(0, k + 1) == t.Sum(0, k + 1)
    ensures s.At(k) == t.At(k) && s.Sum(0, k) == t.Sum(0, k)
  {
    SumSplit(s, 0, k, k + 1);
    SumSplit(t, 0, k, k + 1);
    SumOne(s, k);
    SumOne(t, k);
    CanonicalBelow(s, k);
    CanonicalBelow(t, k);
    var xs, xt, size := s.Sum(0, k), t.Sum(0, k), Size(k);
    var ds, dt := s.At(k), t.At(k);
    assert xs + ds * size == xt + dt * size;
    DivUnique(xs, ds, xt, dt, size);
  }

  lemma {:induction false} CanonicalPrefix(s: Time, t: Time, k: Unit)
    requires s.Canonical() && t.Canonical() && s.low == t.low && s.high == t.high
    requires s.low <= k <= s.high
    requires s.Sum(0, k + 1) == t.Sum(0, k + 1)
    ensures forall u: Unit :: u <= k ==> s.At(u) == t.At(u)
    decreases k
  {
    TopDigitEqual(s, t, k);
    if k > s.low {
      CanonicalPrefix(s, t, k - 1);
    }
    forall u: Unit | u <= k
      ensures s.At(u) == t.At(u)
    {
      if u < s.low {
        assert s.At(u) == 0 && t.At(u) == 0;
      }
    }
  }

  /** A canonical value is determined by its bounds and total: the mixed-radix
      representation with digits in [0, ratio) is unique. */
  lemma CanonicalUnique(s: Time, t: Time)
    requires s.Canonical() && t.Canonical() && s.low == t.low && s.high == t.high
    requires s.Total() == t.Total()
    ensures s == t
  {
    TotalUpToHigh(s, s.high);
    TotalUpToHigh(t, t.high);
    CanonicalPrefix(s, t, s.high);
    EqualAt(s, t);
  }

  /** Hence normalize maps non-negative values of equal total to the same value. */
  lemma NormalizeDeterminedByTotal(s: Time, t: Time)
    requires s.Valid() && t.Valid() && s.low == t.low && s.high == t.high
    requires forall j :: 0 <= j < |s.fields| ==> s.fields[j] >= 0
    requires forall j :: 0 <= j < |t.fields| ==> t.fields[j] >= 0
    requires s.Total() == t.Total()
    ensures Normalize(s) == Normalize(t)
  {
    NormalizeNonNegative(s);
    NormalizeNonNegative(t);
    CanonicalUnique(Normalize(s), Normalize(t));
  }

  /** The value with every count negated. */
  function Negate(t: Time): (r: Time)
    ensures r.low == t.low && r.high == t.high && |r.fields| == |t.fields|
    ensures forall j :: 0 <= j < |t.fields| ==> r.fields[j] == -t.fields[j]
  {
    Time(t.low, t.high, seq(|t.fields|, j requires 0 <= j < |t.fields| => -t.fields[j]))
  }

  lemma NegateTwice(t: Time)
    ensures Negate(Negate(t)) == t
  {
    assert Negate(Negate(t)).fields == t.fields;
  }

  /** Negating every count negates the value of any run of units. */
  lemma {:induction false} NegateSum(t: Time, a: nat, b: nat)
    requires t.Valid() && a <= b <= 6
    ensures Negate(t).Sum(a, b) == -t.Sum(a, b)
    decreases b - a
  {
    if a < b {
      var n := Negate(t);
      NegateSum(t, a + 1, b);
      assert n.At(a) == -t.At(a);
      assert n.At(a) * Size(a) == -(t.At(a) * Size(a));
      assert n.Sum(a, b) == n.At(a) * Size(a) + n.Sum(a + 1, b);
    }
  }

  /** One carry step commutes with negation, because C++ division truncates. */
  lemma StepNegate(t: Time, i: nat)
    requires t.Valid() && i < |t.fields|
    ensures Step(Negate(t), Keep, i) == Negate(Step(t, Keep, i))
  {
    var n := Negate(t);
    assert Keep.On(t.fields[i], i) == t.fields[i];
    assert Keep.On(n.fields[i], i) == n.fields[i];
    if i + 1 < |t.fields| {
      TruncNegate(t.fields[i], Ratio(t.low + i));
    }
    assert Step(n, Keep, i).fields == Negate(Step(t, Keep, i)).fields;
  }

  lemma PassUnfold(t: Time, i: nat)
    requires t.Valid() && i < |t.fields|
    ensures Pass(t, Keep, i) == Pass(Step(t, Keep, i), Keep, i + 1)
  {
  }

  lemma {:induction false} PassNegate(t: Time, i: nat)
    requires t.Valid() && i <= |t.fields|
    ensures Pass(Negate(t), Keep, i) == Negate(Pass(t, Keep, i))
    decreases |t.fields| - i
  {
    if i < |t.fields| {
      PassNegate(Step(t, Keep, i), i + 1);
      PassNegateStep(t, i);
    } else {
      PassAtEnd(t);
    }
  }

  lemma PassAtEnd(t: Time)
    requires t.Valid()
    ensures Pass(Negate(t), Keep, |t.fields|) == Negate(Pass(t, Keep, |t.fields|))
  {
    assert Negate(t).Valid();
  }

  /** The inductive step of PassNegate: from the step onward, then the step. */
  lemma PassNegateStep(t: Time, i: nat)
    requires t.Valid() && i < |t.fields|
    requires Pass(Negate(Step(t, Keep, i)), Keep, i + 1) == Negate(Pass(Step(t, Keep, i), Keep, i + 1))
    ensures Pass(Negate(t), Keep, i) == Negate(Pass(t, Keep, i))
  {
    var n := Negate(t);
    assert n.Valid();
    StepNegate(t, i);
    PassUnfold(n, i);
    PassUnfold(t, i);
  }

  /** normalize commutes with negation: a negative surplus is carried as a
      negative count and the field keeps a non-positive remainder, the mirror
      image of the non-negative case. */
  lemma NormalizeNegate(t: Time)
    requires t.Valid()
    ensures Normalize(Negate(t)) == Negate(Normalize(t))
  {
    PassNegate(t, 0);
  }

  /** From non-positive fields normalize produces the mirror of the canonical
      form: every field but the coarsest in (-ratio, 0], the coarsest
      non-positive. */
  lemma NormalizeNonPositive(t: Time)
    requires t.Valid()
    requires forall j :: 0 <= j < |t.fields| ==> t.fields[j] <= 0
    ensures Negate(Normalize(t)).Canonical()
    ensures forall j :: 0 <= j < |t.fields| ==> Normalize(t).fields[j] <= 0
    ensures forall j :: 0 <= j < |t.fields| - 1 ==> -(Ratio(t.low + j) as int) < Normalize(t).fields[j]
  {
    var n := Negate(t);
    NormalizeNonNegative(n);
    NormalizeNegate(n);
    NegateTwice(t);
    assert Negate(Normalize(t)) == Normalize(n) by {
      NegateTwice(Normalize(n));
    }
  }

  /** Non-positive values of one type with equal totals normalize to the same value. */
  lemma NormalizeNonPositiveDeterminedByTotal(s: Time, t: Time)
    requires s.Valid() && t.Valid() && s.low == t.low && s.high == t.high
    requires forall j :: 0 <= j < |s.fields| ==> s.fields[j] <= 0
    requires forall j :: 0 <= j < |t.fields| ==> t.fields[j] <= 0
    requires s.Total() == t.Total()
    ensures Normalize(s) == Normalize(t)
  {
    NormalizeNonPositive(s);
    NormalizeNonPositive(t);
    var ns, nt := Negate(Normalize(s)), Negate(Normalize(t));
    NegateSum(Normalize(s), 0, 6);
    NegateSum(Normalize(t), 0, 6);
    CanonicalUnique(ns, nt);
    NegateTwice(Normalize(s));
    NegateTwice(Normalize(t));
  }

  /** With negative fields a carried value is not canonical, and equal totals
      no longer force equal fields: -500 ms + 1 s is left as it is. */
  lemma CarriedNotUnique()
    ensures Normalize(Time(Milliseconds, Seconds, [-500, 1])) == Time(Milliseconds, Seconds, [-500, 1])
    ensures Normalize(Time(Milliseconds, Seconds, [500, 0])) == Time(Milliseconds, Seconds, [500, 0])
    ensures Time(Milliseconds, Seconds, [-500, 1]).Total() == Time(Milliseconds, Seconds, [500, 0]).Total()
  {
    var below, above := Time(Milliseconds, Seconds, [-500, 1]), Time(Milliseconds, Seconds, [500, 0]);
    assert below.Carried() && above.Carried();
    NormalizeKeepsCarried(below);
    NormalizeKeepsCarried(above);
  }

  /** 1500 milliseconds at [milliseconds, seconds] become 500 ms and 1 s;
      -1500 ms become -500 ms and -1 s, not the floor's 500 ms and -2 s. */
  lemma CarryExample()
    ensures Normalize(Time(Milliseconds, Seconds, [1500, 0])) == Time(Milliseconds, Seconds, [500, 1])
    ensures Normalize(Time(Milliseconds, Seconds, [-1500, 0])) == Time(Milliseconds, Seconds, [-500, -1])
  {
    var t := Time(Milliseconds, Seconds, [1500, 0]);
    NormalizeNegate(t);
    assert Negate(t) == Time(Milliseconds, Seconds, [-1500, 0]);
    assert Negate(Time(Milliseconds, Seconds, [500, 1])) == Time(Milliseconds, Seconds, [-500, -1]);
  }

  /** Carries propagate through several units in the one pass:
      1500 us + 999 ms at [microseconds, seconds] become 500 us, 0 ms, 1 s. */
  lemma CarryChainExample()
    ensures Normalize(Time(Microseconds, Seconds, [1500, 999, 0])) == Time(Microseconds, Seconds, [500, 0, 1])
  {
  }
}
