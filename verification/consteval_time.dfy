/** The self-contained consteval draft (consteval/main.cpp). Its Low must be
    strictly finer than its High, its converting constructor places the
    other value's fields by position, at the offset of the other Low among
    its own units, and its operator+ is the inline carry loop of the
    TrueTime draft.
 */
module ConstevalTime {
  import opened TypeLists
  import opened Units
  import opened TimeValue
  import Normalization
  import TimeOps
  import TrueTime

  /** The static_assert of the draft: Low strictly finer than High. */
  predicate Strict(t: Time) {
    t.Valid() && t.low < t.high
  }

  /** The lambda of the converting constructor: `std::get<idx + offset>(fields) = f`. */
  function PlaceAt(offset: nat): (seq<int>, int, nat) -> seq<int> {
    (acc: seq<int>, x: int, k: nat) => if k + offset < |acc| then acc[k + offset := x] else acc
  }

  /** for_each_idx over the other value's fields with that lambda: field k of
      src lands at position k + offset, every other position is untouched. */
  lemma {:induction false} PlaceFrom(acc: seq<int>, src: seq<int>, offset: nat, i: nat)
    requires i <= |src| && offset + |src| <= |acc|
    ensures |ForEachIdxFrom(PlaceAt(offset), acc, src, i)| == |acc|
    ensures forall j :: 0 <= j < |acc| ==>
              ForEachIdxFrom(PlaceAt(offset), acc, src, i)[j] ==
              if offset + i <= j < offset + |src| then src[j - offset] else acc[j]
    decreases |src| - i
  {
    if i < |src| {
      var next := PlaceAt(offset)(acc, src[i], i);
      assert next == acc[i + offset := src[i]];
      PlaceFrom(next, src, offset, i + 1);
    }
  }

  /** The converting constructor: every unit of src must be one of [lo, hi]
      (two static_asserts), and Low strictly finer than High. The fields are
      default-constructed, then src's fields are placed starting at the
      index of src's Low among [lo, hi]. */
  function Widen(src: Time, lo: Unit, hi: Unit): (r: Time)
    requires Strict(src) && lo <= src.low && src.high <= hi
    ensures Strict(r) && r.low == lo && r.high == hi
    ensures forall u: Unit :: r.At(u) == src.At(u)
  {
    IndexInRange(lo, hi, src.low);
    var offset := IndexOf(src.low, FieldUnits(lo, hi));
    var zero: seq<int> := seq(hi - lo + 1, _ => 0);
    var placed := ForEachIdx(PlaceAt(offset), zero, src.fields);
    assert placed == ForEachIdxFrom(PlaceAt(offset), zero, src.fields, 0);
    PlaceFrom(zero, src.fields, offset, 0);
    assert offset == src.low - lo;
    var r := Time(lo, hi, placed);
    PlacedAt(src, r, offset, zero);
    r
  }

  /** Fields holding src's fields from src's Low on, and 0 elsewhere, hold
      what src holds at every unit. */
  lemma PlacedAt(src: Time, r: Time, offset: nat, acc: seq<int>)
    requires src.Valid() && r.Valid() && r.low <= src.low && src.high <= r.high
    requires offset == src.low - r.low && |acc| == |r.fields|
    requires forall j :: 0 <= j < |acc| ==> acc[j] == 0
    requires forall j :: 0 <= j < |acc| ==>
               r.fields[j] == if offset + 0 <= j < offset + |src.fields| then src.fields[j - offset] else acc[j]
    ensures forall u: Unit :: r.At(u) == src.At(u)
  {
    forall u: Unit
      ensures r.At(u) == src.At(u)
    {
      if r.low <= u <= r.high {
        FieldAt(r, u - r.low);
      }
    }
  }

  /** Placing by position at the Low's offset is copying by type, as the
      TrueTime draft's constructor does. */
  lemma WidenCopiesByUnit(src: Time, lo: Unit, hi: Unit)
    requires Strict(src) && lo <= src.low && src.high <= hi
    ensures Widen(src, lo, hi) == TrueTime.Widen(src, lo, hi)
  {
    EqualAt(Widen(src, lo, hi), TrueTime.Widen(src, lo, hi));
  }

  /** Mixed-bound operator+: both operands widened to the finer Low and the
      coarser High, then added with the carry. */
  function Plus(a: Time, b: Time): (r: Time)
    requires Strict(a) && Strict(b)
    ensures r.Carried()
    ensures r.low == TimeOps.LowBroader(a.low, b.low) && r.high == TimeOps.HighBroader(a.high, b.high)
    ensures r.Total() == a.Total() + b.Total()
  {
    var lo := TimeOps.LowBroader(a.low, b.low);
    var hi := TimeOps.HighBroader(a.high, b.high);
    var wa, wb := Widen(a, lo, hi), Widen(b, lo, hi);
    SumPointwise(wa, a, 0, 6);
    SumPointwise(wb, b, 0, 6);
    TimeOps.Add(wa, wb)
  }

  /** Hence this draft's mixed sum is the TrueTime draft's. */
  lemma PlusMatchesTrueTime(a: Time, b: Time)
    requires Strict(a) && Strict(b)
    ensures Plus(a, b) == TrueTime.Plus(a, b)
  {
    var lo := TimeOps.LowBroader(a.low, b.low);
    var hi := TimeOps.HighBroader(a.high, b.high);
    WidenCopiesByUnit(a, lo, hi);
    WidenCopiesByUnit(b, lo, hi);
  }

  /** The draft's own driver: { 10us, 30ms, 0s, 5min } + { 980ms, 5s } holds
      6 s, as its commented-out static_assert expects. */
  lemma DriverSum()
    ensures Plus(Time(Microseconds, Minutes, [10, 30, 0, 5]), Time(Milliseconds, Seconds, [980, 5]))
            == Time(Microseconds, Minutes, [10, 10, 6, 5])
  {
    var a := Time(Microseconds, Minutes, [10, 30, 0, 5]);
    var b := Time(Milliseconds, Seconds, [980, 5]);
    var wb := Time(Microseconds, Minutes, [0, 980, 5, 0]);
    WidenedDriverOperand();
    DriverOperandSum();
    EqualAt(Widen(a, Microseconds, Minutes), a);
    assert Plus(a, b) == TimeOps.Add(a, wb);
  }

  lemma WidenedDriverOperand()
    ensures Widen(Time(Milliseconds, Seconds, [980, 5]), Microseconds, Minutes) == Time(Microseconds, Minutes, [0, 980, 5, 0])
  {
    var b := Time(Milliseconds, Seconds, [980, 5]);
    var wb := Time(Microseconds, Minutes, [0, 980, 5, 0]);
    var w := Widen(b, Microseconds, Minutes);
    forall u: Unit
      ensures w.At(u) == wb.At(u)
    {
      if u == Microseconds {
      } else if u == Milliseconds {
      } else if u == Seconds {
      } else if u == Minutes {
      }
    }
    EqualAt(w, wb);
  }

  lemma DriverOperandSum()
    ensures TimeOps.Add(Time(Microseconds, Minutes, [10, 30, 0, 5]), Time(Microseconds, Minutes, [0, 980, 5, 0]))
            == Time(Microseconds, Minutes, [10, 10, 6, 5])
  {
    var a := Time(Microseconds, Minutes, [10, 30, 0, 5]);
    var wb := Time(Microseconds, Minutes, [0, 980, 5, 0]);
    var r := Time(Microseconds, Minutes, [10, 10, 6, 5]);
    TotalExpanded(a);
    TotalExpanded(wb);
    TotalExpanded(r);
    TimeOps.AddOfNonNegative(a, wb);
    Normalization.CanonicalUnique(TimeOps.Add(a, wb), r);
  }
}
