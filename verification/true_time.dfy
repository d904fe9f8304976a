/** The consteval draft of Time (06barannik/TrueTime.h). It shares the value
    and the carry with the main draft but differs in three places: its
    converting constructor only widens and copies by unit without
    normalizing, it can be built from a single count of its Low unit, and
    its same-bound operator+ spells the carry out in its own loop.
 */
module TrueTime {
  import opened CppArith
  import opened Units
  import opened TimeValue
  import opened Normalization
  import TimeOps

  /** The converting constructor: narrowing is rejected at compile time, so
      lo is not coarser and hi not finer than src's bounds. Each field of src
      is copied into the field of the same unit; the others stay 0, and
      nothing is carried. */
  function Widen(src: Time, lo: Unit, hi: Unit): (r: Time)
    requires src.Valid() && lo <= src.low && src.high <= hi
    ensures r.Valid() && r.low == lo && r.high == hi
    ensures forall u: Unit :: r.At(u) == src.At(u)
    ensures r.Total() == src.Total()
  {
    var r := CopyByUnit(Zero(lo, hi), src);
    CopyIntoZero(src, lo, hi);
    assert forall u: Unit :: r.At(u) == src.At(u);
    SumPointwise(r, src, 0, 6);
    r
  }

  /** `set<D>(value)`: the field of unit u overwritten, then normalized. */
  function Set(t: Time, u: Unit, x: int): (r: Time)
    requires t.Valid() && t.low <= u <= t.high
    ensures r.Carried() && r.low == t.low && r.high == t.high
    ensures r.Total() == t.Total() + (x - t.At(u)) * Size(u)
  {
    AssignTotal(t, u, x);
    var updated := t.(fields := t.fields[u - t.low := x]);
    Normalize(updated)
  }

  /** `Time(const Low& duration)`: a count of the Low unit, spread over the
      fields by normalizing. */
  function FromLow(lo: Unit, hi: Unit, x: int): (r: Time)
    requires lo <= hi
    ensures r.Carried() && r.low == lo && r.high == hi
    ensures r.Total() == x * Size(lo)
  {
    var z := Zero(lo, hi);
    SumOfZeros(z, 0, 6);
    assert z.At(lo) == 0;
    Set(z, lo, x)
  }

  /** Time<seconds, hours>(3700s) holds 40 s, 1 min, 1 h. */
  lemma FromLowExample()
    ensures FromLow(Seconds, Hours, 3700) == Time(Seconds, Hours, [40, 1, 1])
  {
    var r := Time(Seconds, Hours, [40, 1, 1]);
    var n := FromLow(Seconds, Hours, 3700);
    TotalExpanded(r);
    TotalExpanded(n);
    assert n.Total() == r.Total();
    var z := Time(Seconds, Hours, [3700, 0, 0]);
    assert z == Zero(Seconds, Hours).(fields := Zero(Seconds, Hours).fields[0 := 3700]);
    NormalizeNonNegative(z);
    CanonicalUnique(n, r);
  }

  /** Same-bound operator+, with its loop over the fields: add the other
      operand's field, then move the surplus into the next field. It computes
      the same value as the main draft's apply_and_normalize. */
  method AddInline(a: Time, b: Time) returns (r: Time)
    requires a.Valid() && b.Valid() && a.low == b.low && a.high == b.high
    ensures r == TimeOps.Add(a, b)
    ensures r.Carried() && r.Total() == a.Total() + b.Total()
  {
    var op := AddEach(b.fields);
    var n := |a.fields|;
    r := a;
    var i := 0;
    while i < n
      invariant 0 <= i <= n
      invariant r.Valid() && r.low == a.low && r.high == a.high
      invariant Pass(r, op, i) == Pass(a, op, 0)
    {
      var f := r.fields[i] + b.fields[i];
      var next := r;
      if i + 1 < n {
        var ratio := Ratio(a.low + i);
        next := r.(fields := r.fields[i + 1 := r.fields[i + 1] + TDiv(f, ratio)][i := TMod(f, ratio)]);
      } else {
        next := r.(fields := r.fields[i := f]);
      }
      assert next == Step(r, op, i);
      r := next;
      i := i + 1;
    }
  }

  /** Mixed-bound operator+: both operands widened, without normalizing, to
      the finer Low and the coarser High, then added. */
  function Plus(a: Time, b: Time): (r: Time)
    requires a.Valid() && b.Valid()
    ensures r.Carried()
    ensures r.low == TimeOps.LowBroader(a.low, b.low) && r.high == TimeOps.HighBroader(a.high, b.high)
    ensures r.Total() == a.Total() + b.Total()
  {
    var lo := TimeOps.LowBroader(a.low, b.low);
    var hi := TimeOps.HighBroader(a.high, b.high);
    TimeOps.Add(Widen(a, lo, hi), Widen(b, lo, hi))
  }

  /** The main draft's converting constructor, used to widen, is this
      draft's plain copy followed by normalize. */
  lemma ConstructIsNormalizedWiden(src: Time, lo: Unit, hi: Unit)
    requires src.Valid() && lo <= src.low && src.high <= hi
    requires lo != src.low || hi != src.high
    ensures TimeOps.Construct(src, lo, hi) == Normalize(Widen(src, lo, hi))
  {
    var a := TimeOps.Assemble(src, lo, hi);
    var w := Widen(src, lo, hi);
    EqualAt(a, w);
  }

  /** The two drafts' mixed-bound sums can differ when fields are negative
      (widening with or without a carry first), but agree on non-negative
      operands. */
  lemma PlusAgreesOnNonNegative(a: Time, b: Time)
    requires a.Valid() && b.Valid()
    requires forall j :: 0 <= j < |a.fields| ==> a.fields[j] >= 0
    requires forall j :: 0 <= j < |b.fields| ==> b.fields[j] >= 0
    ensures Plus(a, b) == TimeOps.Plus(a, b)
  {
    var lo := TimeOps.LowBroader(a.low, b.low);
    var hi := TimeOps.HighBroader(a.high, b.high);
    var wa, wb := Widen(a, lo, hi), Widen(b, lo, hi);
    if a.low == b.low && a.high == b.high {
      EqualAt(wa, a);
      EqualAt(wb, b);
    } else {
      var ca, cb := TimeOps.Construct(a, lo, hi), TimeOps.Construct(b, lo, hi);
      assert TimeOps.Plus(a, b) == TimeOps.Add(ca, cb);
      WidenNonNegative(a, lo, hi);
      WidenNonNegative(b, lo, hi);
      ConstructNonNegative(a, lo, hi);
      ConstructNonNegative(b, lo, hi);
      TotalFromBelowLow(a, lo);
      TotalFromBelowLow(b, lo);
      SumsAgree(wa, wb, ca, cb);
    }
  }

  /** Two pairs of non-negative operands with the same sum add to the same
      value: both results are canonical. */
  lemma SumsAgree(a: Time, b: Time, c: Time, d: Time)
    requires a.Valid() && b.Valid() && c.Valid() && d.Valid()
    requires b.low == c.low == d.low == a.low && b.high == c.high == d.high == a.high
    requires forall j :: 0 <= j < |a.fields| ==> a.fields[j] >= 0
    requires forall j :: 0 <= j < |b.fields| ==> b.fields[j] >= 0
    requires forall j :: 0 <= j < |c.fields| ==> c.fields[j] >= 0
    requires forall j :: 0 <= j < |d.fields| ==> d.fields[j] >= 0
    requires a.Total() + b.Total() == c.Total() + d.Total()
    ensures TimeOps.Add(a, b) == TimeOps.Add(c, d)
  {
    TimeOps.AddOfNonNegative(a, b);
    TimeOps.AddOfNonNegative(c, d);
    CanonicalUnique(TimeOps.Add(a, b), TimeOps.Add(c, d));
  }

  lemma WidenNonNegative(src: Time, lo: Unit, hi: Unit)
    requires src.Valid() && lo <= src.low && src.high <= hi
    requires forall j :: 0 <= j < |src.fields| ==> src.fields[j] >= 0
    ensures forall j :: 0 <= j < hi - lo + 1 ==> Widen(src, lo, hi).fields[j] >= 0
  {
    NonNegativeByUnit(Widen(src, lo, hi), src);
  }

  /** Widening a non-negative value with the main draft's constructor keeps
      it non-negative. */
  lemma ConstructNonNegative(src: Time, lo: Unit, hi: Unit)
    requires src.Valid() && lo <= src.low && src.high <= hi
    requires forall j :: 0 <= j < |src.fields| ==> src.fields[j] >= 0
    ensures forall j :: 0 <= j < hi - lo + 1 ==> TimeOps.Construct(src, lo, hi).fields[j] >= 0
  {
    if lo != src.low || hi != src.high {
      ConstructIsNormalizedWiden(src, lo, hi);
      WidenNonNegative(src, lo, hi);
      NormalizeNonNegative(Widen(src, lo, hi));
    }
  }
}
