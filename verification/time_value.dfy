/** The value held by every draft of `Time<Low, High>`: one count per
    duration unit from Low to High inclusive, finest first (the filtered
    `durations` tuple), together with the operations that only read or copy
    those fields.
 */
module TimeValue {
  import opened CppArith
  import opened TypeLists
  import opened Units

  datatype Time = Time(low: Unit, high: Unit, fields: seq<int>)
  {
    /** Low is not coarser than High and there is one field per unit in [low, high]. */
    predicate Valid() {
      low <= high && |fields| == high - low + 1
    }

    /** The count held for unit u; a unit outside [low, high] holds nothing. */
    function At(u: Unit): int {
      if low <= u && u - low < |fields| then fields[u - low] else 0
    }

    /** The value of the units a..b-1, in nanoseconds. */
    function Sum(a: nat, b: nat): int
      requires a <= b <= 6
      decreases b - a
    {
      if a == b then 0 else At(a) * Size(a) + Sum(a + 1, b)
    }

    /** The value represented: the sum of field times unit length, in nanoseconds. */
    function Total(): int {
      Sum(0, 6)
    }

    /** The value of the fields whose unit is u or coarser. */
    function TotalFrom(u: Unit): int {
      Sum(u, 6)
    }

    /** Every field but the coarsest is smaller in magnitude than the ratio to the
        next unit: what one carry pass guarantees. */
    predicate Carried() {
      Valid() && forall j :: 0 <= j < |fields| - 1 ==> Abs(fields[j]) < Ratio(low + j)
    }

    /** Every field but the coarsest lies in [0, ratio to the next unit). */
    predicate Canonical() {
      Valid() && forall j :: 0 <= j < |fields| - 1 ==> 0 <= fields[j] < Ratio(low + j)
    }
  }

  /** A default-constructed Time<lo, hi>: every field zero. */
  function Zero(lo: Unit, hi: Unit): (r: Time)
    requires lo <= hi
    ensures r.Valid() && r.low == lo && r.high == hi
    ensures forall u: Unit :: r.At(u) == 0
  {
    Time(lo, hi, seq(hi - lo + 1, _ => 0))
  }

  /** std::get<D>: the field whose type is D, looked up by type in durations_t. */
  function Get(t: Time, u: Unit): (r: int)
    requires t.Valid() && t.low <= u <= t.high
    ensures r == t.At(u)
  {
    var units := FieldUnits(t.low, t.high);
    IndexInRange(t.low, t.high, u);
    var i := IndexOf(u, units);
    assert i == u - t.low;
    t.fields[i]
  }

  /** The variadic (and, in the consteval drafts, tuple) constructor: the
      counts are the fields, finest unit first. Supplying the wrong number of
      counts does not compile. */
  function Make(lo: Unit, hi: Unit, counts: seq<int>): (r: Time)
    requires lo <= hi && |counts| == hi - lo + 1
    ensures r.Valid() && r.low == lo && r.high == hi
  {
    Time(lo, hi, counts)
  }

  /** Reading back what was constructed: std::get of the i-th unit of
      [lo, hi], lo + i, is the i-th count given. */
  lemma MakeThenGet(lo: Unit, hi: Unit, counts: seq<int>, u: Unit)
    requires lo <= u <= hi && |counts| == hi - lo + 1
    ensures Get(Make(lo, hi, counts), u) == counts[u - lo]
  {
    var r := Make(lo, hi, counts);
    assert r.At(u) == counts[u - lo];
    assert Get(r, u) == r.At(u);
  }

  /** Whether dst and src both have unit u. */
  predicate Shared(dst: Time, src: Time, u: Unit) {
    dst.low <= u <= dst.high && src.low <= u <= src.high
  }

  function SharedLow(dst: Time, src: Time): Unit {
    if dst.low < src.low then src.low else dst.low
  }

  function SharedHigh(dst: Time, src: Time): Unit {
    if dst.high < src.high then dst.high else src.high
  }

  /** copy_tuple_by_types applied to the units the two values share: each
      field of `src` whose unit `dst` also has overwrites that field of `dst`;
      every other field of `dst` is left alone. */
  function CopyByUnit(dst: Time, src: Time): (r: Time)
    requires dst.Valid() && src.Valid()
    ensures r.Valid() && r.low == dst.low && r.high == dst.high
    ensures forall u: Unit :: r.At(u) == if Shared(dst, src, u) then src.At(u) else dst.At(u)
  {
    var a := SharedLow(dst, src);
    var b := SharedHigh(dst, src);
    if b < a then dst
    else
      var keys := FieldUnits(a, b);
      var vals := src.fields[a - src.low .. b - src.low + 1];
      var slots := FieldUnits(dst.low, dst.high);
      CopyPreconditions(a, b, dst.low, dst.high);
      var copied := CopyByKeys(keys, vals, slots, dst.fields);
      CopiedAt(dst, src, a, b, keys, vals, slots, copied);
      Time(dst.low, dst.high, copied)
  }

  /** Copying into a default-constructed value: the result holds src's count
      at each of its units and nothing elsewhere. */
  lemma CopyIntoZero(src: Time, lo: Unit, hi: Unit)
    requires src.Valid() && lo <= hi
    ensures forall u: Unit :: CopyByUnit(Zero(lo, hi), src).At(u) == if lo <= u <= hi then src.At(u) else 0
  {
  }

  lemma CopyPreconditions(a: Unit, b: Unit, lo: Unit, hi: Unit)
    requires lo <= a <= b <= hi
    ensures Distinct(FieldUnits(a, b)) && Distinct(FieldUnits(lo, hi))
    ensures forall k :: k in FieldUnits(a, b) ==> k in FieldUnits(lo, hi)
  {
    RangeDistinct(a, b);
    RangeDistinct(lo, hi);
    forall k | k in FieldUnits(a, b)
      ensures k in FieldUnits(lo, hi)
    {
      RangeMembership(a, b, k);
      RangeMembership(lo, hi, k);
    }
  }

  lemma CopiedAt(dst: Time, src: Time, a: Unit, b: Unit,
                 keys: seq<Unit>, vals: seq<int>, slots: seq<Unit>, copied: seq<int>)
    requires dst.Valid() && src.Valid()
    requires a == SharedLow(dst, src) && b == SharedHigh(dst, src) && a <= b
    requires |keys| == b - a + 1 && forall i :: 0 <= i < |keys| ==> keys[i] == a + i
    requires |slots| == |dst.fields| && forall j :: 0 <= j < |slots| ==> slots[j] == dst.low + j
    requires vals == src.fields[a - src.low .. b - src.low + 1]
    requires |copied| == |dst.fields|
    requires forall i, j :: 0 <= i < |keys| && 0 <= j < |slots| && slots[j] == keys[i] ==> copied[j] == vals[i]
    requires forall j :: 0 <= j < |slots| && slots[j] !in keys ==> copied[j] == dst.fields[j]
    ensures forall u: Unit :: Time(dst.low, dst.high, copied).At(u) ==
              if Shared(dst, src, u) then src.At(u) else dst.At(u)
  {
    var t := Time(dst.low, dst.high, copied);
    forall u: Unit
      ensures t.At(u) == if Shared(dst, src, u) then src.At(u) else dst.At(u)
    {
      if Shared(dst, src, u) {
        assert slots[u - dst.low] == keys[u - a];
      } else if dst.low <= u <= dst.high {
        assert slots[u - dst.low] == u;
      }
    }
  }

  /** Field j holds the count of unit low + j. */
  lemma FieldAt(t: Time, j: nat)
    requires t.Valid() && j < |t.fields|
    ensures t.low + j < 6 && t.At(t.low + j) == t.fields[j]
  {
  }

  /** A value that holds what a non-negative value holds, unit by unit, is
      non-negative too, whatever its bounds. */
  lemma NonNegativeByUnit(s: Time, t: Time)
    requires s.Valid() && t.Valid()
    requires forall u: Unit :: s.At(u) == t.At(u)
    requires forall j :: 0 <= j < |t.fields| ==> t.fields[j] >= 0
    ensures forall j :: 0 <= j < |s.fields| ==> s.fields[j] >= 0
  {
    forall j | 0 <= j < |s.fields|
      ensures s.fields[j] >= 0
    {
      FieldAt(s, j);
      var u: Unit := s.low + j;
      if t.low <= u <= t.high {
        FieldAt(t, u - t.low);
      }
    }
  }

  /** A value is determined by its bounds and what it holds at each unit. */
  lemma EqualAt(s: Time, t: Time)
    requires s.Valid() && t.Valid() && s.low == t.low && s.high == t.high
    requires forall u: Unit :: s.At(u) == t.At(u)
    ensures s == t
  {
    forall j | 0 <= j < |s.fields|
      ensures s.fields[j] == t.fields[j]
    {
      assert s.At(s.low + j) == t.At(s.low + j);
    }
  }

  lemma SumSplit(t: Time, a: nat, m: nat, b: nat)
    requires a <= m <= b <= 6
    ensures t.Sum(a, b) == t.Sum(a, m) + t.Sum(m, b)
    decreases m - a
  {
    if a < m {
      SumSplit(t, a + 1, m, b);
    }
  }

  /** Two values that agree on every unit of a..b-1 have the same value there. */
  lemma SumPointwise(s: Time, t: Time, a: nat, b: nat)
    requires a <= b <= 6
    requires forall u: Unit :: a <= u < b ==> s.At(u) == t.At(u)
    ensures s.Sum(a, b) == t.Sum(a, b)
    decreases b - a
  {
    if a < b {
      SumPointwise(s, t, a + 1, b);
    }
  }

  lemma SumOfZeros(t: Time, a: nat, b: nat)
    requires a <= b <= 6
    requires forall u: Unit :: a <= u < b ==> t.At(u) == 0
    ensures t.Sum(a, b) == 0
    decreases b - a
  {
    if a < b {
      SumOfZeros(t, a + 1, b);
    }
  }

  lemma SumOne(t: Time, a: Unit)
    ensures t.Sum(a, a + 1) == t.At(a) * Size(a)
  {
  }

  /** The units finer than Low hold nothing, so they add nothing. */
  lemma TotalFromBelowLow(t: Time, lo: Unit)
    requires t.Valid() && lo <= t.low
    ensures t.TotalFrom(lo) == t.Total()
  {
    SumSplit(t, 0, lo, 6);
    SumOfZeros(t, 0, lo);
  }

  /** Neither do the units coarser than High. */
  lemma TotalUpToHigh(t: Time, hi: Unit)
    requires t.Valid() && t.high <= hi
    ensures t.Sum(0, hi + 1) == t.Total()
  {
    SumSplit(t, 0, hi + 1, 6);
    SumOfZeros(t, hi + 1, 6);
  }

  /** The value in nanoseconds written out unit by unit. */
  lemma TotalExpanded(t: Time)
    ensures t.Total() == t.At(0) + t.At(1) * 1_000 + t.At(2) * 1_000_000 + t.At(3) * 1_000_000_000
                         + t.At(4) * 60_000_000_000 + t.At(5) * 3_600_000_000_000
  {
    assert t.Sum(5, 6) == t.At(5) * 3_600_000_000_000;
    assert t.Sum(4, 6) == t.At(4) * 60_000_000_000 + t.Sum(5, 6);
    assert t.Sum(3, 6) == t.At(3) * 1_000_000_000 + t.Sum(4, 6);
    assert t.Sum(2, 6) == t.At(2) * 1_000_000 + t.Sum(3, 6);
    assert t.Sum(1, 6) == t.At(1) * 1_000 + t.Sum(2, 6);
  }

  /** Two values of equal value that agree on the units finer than k also
      agree on the value of the units k and coarser. */
  lemma TotalFromAgrees(s: Time, t: Time, k: Unit)
    requires s.Total() == t.Total()
    requires forall u: Unit :: u < k ==> s.At(u) == t.At(u)
    ensures s.TotalFrom(k) == t.TotalFrom(k)
  {
    SumPointwise(s, t, 0, k);
    SumSplit(s, 0, k, 6);
    SumSplit(t, 0, k, 6);
  }

  /** Above its High a value holds nothing, so its value from High upward is
      its coarsest field. */
  lemma TotalFromHigh(t: Time)
    requires t.Valid()
    ensures t.TotalFrom(t.high) == t.At(t.high) * Size(t.high)
  {
    SumSplit(t, t.high, t.high + 1, 6);
    SumOfZeros(t, t.high + 1, 6);
  }

  /** Changing field i from prev to x changes the value of the units a..b-1
      by the difference times the unit length, when i's unit is among them. */
  lemma {:induction false} SumUpdate(t: Time, i: nat, x: int, prev: int, size: int, a: nat, b: nat)
    requires t.Valid() && i < |t.fields| && a <= b <= 6
    requires prev == t.fields[i] && size == Size(t.low + i)
    ensures t.(fields := t.fields[i := x]).Sum(a, b) ==
            t.Sum(a, b) + (if a <= t.low + i < b then (x - prev) * size else 0)
    decreases b - a
  {
    var s := t.(fields := t.fields[i := x]);
    if a < b {
      SumUpdate(t, i, x, prev, size, a + 1, b);
      if a == t.low + i {
        assert s.At(a) == x && t.At(a) == prev;
        Distribute(x, prev, size);
      } else {
        assert s.At(a) == t.At(a);
      }
    }
  }

  lemma TotalUpdate(t: Time, i: nat, x: int, prev: int, size: int)
    requires t.Valid() && i < |t.fields|
    requires prev == t.fields[i] && size == Size(t.low + i)
    ensures t.(fields := t.fields[i := x]).Total() == t.Total() + (x - prev) * size
  {
    SumUpdate(t, i, x, prev, size, 0, 6);
  }

  /** Overwriting the field of unit u with x changes the value by the
      difference in counts times the length of u. */
  lemma AssignTotal(t: Time, u: Unit, x: int)
    requires t.Valid() && t.low <= u <= t.high
    ensures t.(fields := t.fields[u - t.low := x]).Total() == t.Total() + (x - t.At(u)) * Size(u)
  {
    var i := u - t.low;
    var prev, size := t.fields[i], Size(u);
    var s := t.(fields := t.fields[i := x]);
    assert s == t.(fields := t.fields[u - t.low := x]);
    assert prev == t.At(u);
    TotalUpdate(t, i, x, prev, size);
    var before, after := t.Total(), s.Total();
    assert after == before + (x - prev) * size;
  }

  /** Values that add unit by unit add in total. */
  lemma SumAdditive(s: Time, t: Time, c: Time, a: nat, b: nat)
    requires a <= b <= 6
    requires forall u: Unit :: a <= u < b ==> c.At(u) == s.At(u) + t.At(u)
    ensures c.Sum(a, b) == s.Sum(a, b) + t.Sum(a, b)
    decreases b - a
  {
    if a < b {
      SumAdditive(s, t, c, a + 1, b);
      assert c.At(a) * Size(a) == s.At(a) * Size(a) + t.At(a) * Size(a) by {
        assert c.At(a) == s.At(a) + t.At(a);
      }
    }
  }

  /** Values that subtract unit by unit subtract in total. */
  lemma SumSubtractive(s: Time, t: Time, c: Time, a: nat, b: nat)
    requires a <= b <= 6
    requires forall u: Unit :: a <= u < b ==> c.At(u) == s.At(u) - t.At(u)
    ensures c.Sum(a, b) == s.Sum(a, b) - t.Sum(a, b)
    decreases b - a
  {
    if a < b {
      SumSubtractive(s, t, c, a + 1, b);
      assert c.At(a) * Size(a) == s.At(a) * Size(a) - t.At(a) * Size(a) by {
        assert c.At(a) == s.At(a) - t.At(a);
      }
    }
  }
}
