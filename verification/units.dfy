/** The `durations` tuple shared by the Time drafts: std::chrono nanoseconds,
    microseconds, milliseconds, seconds, minutes and hours, finest first.
    A duration type is identified by its index in that tuple; its std::ratio
    period is represented by its length in nanoseconds.
 */
module Units {
  import opened TypeLists

  type Unit = u: nat | u < 6

  const Nanoseconds: Unit := 0
  const Microseconds: Unit := 1
  const Milliseconds: Unit := 2
  const Seconds: Unit := 3
  const Minutes: Unit := 4
  const Hours: Unit := 5

  /** The `durations` tuple itself. */
  const Durations: seq<Unit> := [Nanoseconds, Microseconds, Milliseconds, Seconds, Minutes, Hours]

  /** The period of a unit, in nanoseconds (std::nano, std::micro, std::milli,
      1, 60 and 3600 seconds). */
  function Size(u: Unit): (s: nat)
    ensures s >= 1
  {
    if u == Nanoseconds then 1
    else if u == Microseconds then 1_000
    else if u == Milliseconds then 1_000_000
    else if u == Seconds then 1_000_000_000
    else if u == Minutes then 60_000_000_000
    else 3_600_000_000_000
  }

  /** `next_dur_t(1)` counted in unit u: how many of u make one of the next
      coarser unit. */
  function Ratio(u: Unit): (r: nat)
    requires u < Hours
    ensures r >= 2
  {
    if u < Seconds then 1_000 else 60
  }

  /** The next unit is exactly Ratio(u) of unit u. */
  lemma RatioScales(u: Unit)
    requires u < Hours
    ensures Size(u + 1) == Size(u) * Ratio(u)
  {
  }

  /** Comparing periods (std::ratio_less) is comparing positions in the tuple. */
  lemma SizeOrder(u: Unit, v: Unit)
    ensures u < v <==> Size(u) < Size(v)
    ensures u <= v <==> Size(u) <= Size(v)
  {
  }

  /** How many of unit d make one of unit u, for u not finer than d. */
  function Scale(d: Unit, u: Unit): (k: nat)
    requires d <= u
    ensures k >= 1
    ensures Size(u) == Size(d) * k
    decreases u - d
  {
    if u == d then 1
    else
      var k := Scale(d, u - 1);
      assert Size(u) == Size(d) * k * Ratio(u - 1) by {
        RatioScales(u - 1);
      }
      k * Ratio(u - 1)
  }

  /** duration_name: the unit names printed by operator<<, one word each. */
  function Name(u: Unit): (s: string)
    ensures |s| >= 1 && forall i :: 0 <= i < |s| ==> s[i] != ' '
  {
    if u == Nanoseconds then "nanoseconds"
    else if u == Microseconds then "microseconds"
    else if u == Milliseconds then "milliseconds"
    else if u == Seconds then "seconds"
    else if u == Minutes then "minutes"
    else "hours"
  }

  /** No two units share a name, so a printed name tells its unit. */
  lemma NameInjective(u: Unit, v: Unit)
    requires Name(u) == Name(v)
    ensures u == v
  {
    assert Name(u)[2] == Name(v)[2];
    assert Name(u)[0] == Name(v)[0];
  }

  /** is_within_current_range: the period of u lies between those of lo and hi. */
  function Within(lo: Unit, hi: Unit, u: Unit): (b: bool)
    ensures b <==> lo <= u <= hi
  {
    SizeOrder(lo, u);
    SizeOrder(u, hi);
    Size(lo) <= Size(u) && Size(u) <= Size(hi)
  }

  function WithinRange(lo: Unit, hi: Unit): Unit -> bool {
    (u: Unit) => Within(lo, hi, u)
  }

  /** The units a..b in ascending order (empty when b < a). */
  function Range(a: nat, b: Unit): (r: seq<Unit>)
    ensures |r| == if b < a then 0 else b - a + 1
    ensures forall i :: 0 <= i < |r| ==> r[i] == a + i
    decreases b + 1 - a
  {
    if b < a then [] else [a as Unit] + Range(a + 1, b)
  }

  lemma RangeMembership(a: nat, b: Unit, u: Unit)
    ensures u in Range(a, b) <==> a <= u <= b
  {
    if a <= u <= b {
      assert Range(a, b)[u - a] == u;
    }
  }

  lemma RangeDistinct(a: nat, b: Unit)
    ensures Distinct(Range(a, b))
  {
  }

  /** The position of unit u in the range a..b is u - a. */
  lemma IndexInRange(a: nat, b: Unit, u: Unit)
    requires a <= u <= b
    ensures u in Range(a, b) && IndexOf(u, Range(a, b)) == u - a
  {
    RangeMembership(a, b, u);
    RangeDistinct(a, b);
    IndexOfDistinct(Range(a, b), u - a);
  }

  lemma RangeCons(a: Unit, b: Unit)
    requires a <= b
    ensures Range(a, b) == [a] + Range(a + 1, b)
  {
  }

  lemma {:induction false} FilterDurationsFrom(lo: Unit, hi: Unit, k: nat)
    requires k <= 6
    ensures Filter(WithinRange(lo, hi), Durations[k..]) == Range(if k < lo then lo else k, hi)
    decreases 6 - k
  {
    if k == 6 {
      assert Durations[k..] == [];
    } else {
      var p := WithinRange(lo, hi);
      var rest := Durations[k + 1..];
      assert Durations[k..] == [k as Unit] + rest;
      assert ([k as Unit] + rest)[1..] == rest;
      FilterDurationsFrom(lo, hi, k + 1);
      SizeOrder(lo, k);
      SizeOrder(k, hi);
      if lo <= k <= hi {
        assert p(k);
        RangeCons(k, hi);
      } else {
        assert !p(k);
      }
    }
  }

  /** durations_t of Time<lo, hi>: filtering the `durations` tuple by
      is_within_current_range keeps exactly the units lo..hi, finest first. */
  function FieldUnits(lo: Unit, hi: Unit): (r: seq<Unit>)
    ensures r == Range(lo, hi)
  {
    FilterDurationsFrom(lo, hi, 0);
    assert Durations[0..] == Durations;
    Filter(WithinRange(lo, hi), Durations)
  }
}
