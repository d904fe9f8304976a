/** operator<< of the Time drafts: "[ ", then "<count> <unit name>; " for
    each field, finest first, then "]". The count is written the way an
    ostream writes an integer: decimal digits, with a leading '-' when
    negative.
 */
module TimeText {
  import opened TypeLists
  import opened Units
  import opened TimeValue

  predicate IsDigit(c: char) {
    '0' <= c <= '9'
  }

  predicate AllDigits(s: string) {
    forall i :: 0 <= i < |s| ==> IsDigit(s[i])
  }

  function DigitChar(d: nat): (c: char)
    requires d < 10
    ensures IsDigit(c) && c as int - '0' as int == d
  {
    ('0' as int + d) as char
  }

  /** The decimal digits of n, without leading zeros. */
  function NatToString(n: nat): (s: string)
    ensures |s| >= 1 && AllDigits(s)
    ensures |s| > 1 ==> s[0] != '0'
    decreases n
  {
    if n < 10 then [DigitChar(n)] else NatToString(n / 10) + [DigitChar(n % 10)]
  }

  /** How an ostream writes a count. */
  function IntToString(x: int): (s: string)
    ensures |s| >= 1 && (x < 0 <==> s[0] == '-')
    ensures forall i :: 0 <= i < |s| ==> s[i] != ' '
  {
    if x < 0 then "-" + NatToString(-x) else NatToString(x)
  }

  /** The value a string of decimal digits denotes. */
  function ParseNat(s: string): (n: nat)
    requires AllDigits(s)
    decreases |s|
  {
    if |s| == 0 then 0 else ParseNat(s[..|s| - 1]) * 10 + (s[|s| - 1] as int - '0' as int)
  }

  /** Reading back what an ostream writes for an integer. */
  function ParseInt(s: string): (x: int)
    requires |s| >= 1
    requires s[0] == '-' ==> AllDigits(s[1..])
    requires s[0] != '-' ==> AllDigits(s)
  {
    if s[0] == '-' then -(ParseNat(s[1..]) as int) else ParseNat(s)
  }

  lemma {:induction false} ParseNatToString(n: nat)
    ensures ParseNat(NatToString(n)) == n
    decreases n
  {
    if n >= 10 {
      var s := NatToString(n);
      var head := NatToString(n / 10);
      assert s[..|s| - 1] == head;
      ParseNatToString(n / 10);
    }
  }

  /** The written count reads back as the count: no two counts print alike. */
  lemma ParseIntToString(x: int)
    ensures ParseInt(IntToString(x)) == x
  {
    if x < 0 {
      assert IntToString(x)[1..] == NatToString(-x);
      ParseNatToString(-x);
    } else {
      ParseNatToString(x);
    }
  }

  /** `f.count() << ' ' << duration_name_v<decltype(f)> << "; "` */
  function Entry(count: int, u: Unit): (s: string)
    ensures var c := IntToString(count); |s| > |c| && s[..|c|] == c && s[|c|] == ' '
    ensures s[|s| - 2..] == "; "
  {
    IntToString(count) + " " + Name(u) + "; "
  }

  function EntryOf(d: (int, Unit)): (s: string) {
    Entry(d.0, d.1)
  }

  /** The durations of a value: each count with its unit, finest first. */
  function Counted(t: Time): (d: seq<(int, Unit)>)
    requires t.Valid()
    ensures |d| == |t.fields|
    ensures forall k :: 0 <= k < |d| ==> d[k].0 == t.fields[k] && d[k].1 == t.low + k
  {
    seq(|t.fields|, k requires 0 <= k < |t.fields| => (t.fields[k], t.low + k))
  }

  /** A for_each lambda that streams the text g gives each element. */
  function Appender<T>(g: T -> string): (string, T) -> string {
    (acc: string, x: T) => acc + g(x)
  }

  /** operator<<, as for_each over the durations. */
  function Show(t: Time): (s: string)
    requires t.Valid()
    ensures |s| >= 3 && s[..2] == "[ " && s[|s| - 1] == ']'
  {
    "[ " + ForEach(Appender(EntryOf), "", Counted(t)) + "]"
  }

  /** The texts g gives the elements, one after another. */
  function Joined<T>(g: T -> string, xs: seq<T>): (s: string)
    decreases |xs|
  {
    if |xs| == 0 then "" else g(xs[0]) + Joined(g, xs[1..])
  }

  lemma {:induction false} ForEachJoins<T>(g: T -> string, acc: string, xs: seq<T>)
    ensures ForEach(Appender(g), acc, xs) == acc + Joined(g, xs)
    decreases |xs|
  {
    if |xs| > 0 {
      var e := g(xs[0]);
      var rest := Joined(g, xs[1..]);
      assert Appender(g)(acc, xs[0]) == acc + e;
      ForEachJoins(g, acc + e, xs[1..]);
      assert (acc + e) + rest == acc + (e + rest);
    }
  }

  /** The text is the bracketed entries of the fields, finest first. */
  lemma ShowIsBracketed(t: Time)
    requires t.Valid()
    ensures Show(t) == "[ " + Joined(EntryOf, Counted(t)) + "]"
  {
    ForEachJoins(EntryOf, "", Counted(t));
  }

  /** Two texts that agree up to the first space agree on what precedes it. */
  lemma SplitAtSpace(p: string, q: string, r1: string, r2: string)
    requires forall i :: 0 <= i < |p| ==> p[i] != ' '
    requires forall i :: 0 <= i < |q| ==> q[i] != ' '
    requires p + " " + r1 == q + " " + r2
    ensures p == q && r1 == r2
  {
    var s := p + " " + r1;
    SpaceAfter(p, r1);
    SpaceAfter(q, r2);
    assert |p| == |q|;
    assert p == s[..|p|];
    assert r1 == s[|p| + 1..];
  }

  lemma SpaceAfter(p: string, r: string)
    ensures (p + " " + r)[|p|] == ' '
    ensures forall i :: 0 <= i < |p| ==> (p + " " + r)[i] == p[i]
  {
  }

  /** An entry followed by more text: the count, a space, then the rest. */
  lemma EntryThen(x: int, u: Unit, r: string)
    ensures Entry(x, u) + r == IntToString(x) + " " + ((Name(u) + "; ") + r)
  {
    var c, n := IntToString(x), Name(u);
    assert Entry(x, u) == c + " " + n + "; ";
  }

  /** Dropping a common prefix. */
  lemma DropPrefix(p: string, r1: string, r2: string)
    requires p + r1 == p + r2
    ensures r1 == r2
  {
    assert r1 == (p + r1)[|p|..];
  }

  /** Entries of one unit followed by anything are told apart by their counts. */
  lemma EntryCancel(x: int, y: int, u: Unit, r1: string, r2: string)
    requires Entry(x, u) + r1 == Entry(y, u) + r2
    ensures x == y && r1 == r2
  {
    var tail := Name(u) + "; ";
    EntryThen(x, u, r1);
    EntryThen(y, u, r2);
    SplitAtSpace(IntToString(x), IntToString(y), tail + r1, tail + r2);
    ParseIntToString(x);
    ParseIntToString(y);
    DropPrefix(tail, r1, r2);
  }

  lemma {:induction false} JoinedInjective(da: seq<(int, Unit)>, db: seq<(int, Unit)>)
    requires |da| == |db|
    requires forall k :: 0 <= k < |da| ==> da[k].1 == db[k].1
    requires Joined(EntryOf, da) == Joined(EntryOf, db)
    ensures da == db
    decreases |da|
  {
    if |da| > 0 {
      EntryCancel(da[0].0, db[0].0, da[0].1, Joined(EntryOf, da[1..]), Joined(EntryOf, db[1..]));
      JoinedInjective(da[1..], db[1..]);
      assert da == [da[0]] + da[1..];
      assert db == [db[0]] + db[1..];
    }
  }

  /** The printed text of a value determines it among values of its type. */
  lemma ShowInjective(a: Time, b: Time)
    requires a.Valid() && b.Valid() && a.low == b.low && a.high == b.high
    requires Show(a) == Show(b)
    ensures a == b
  {
    ShowIsBracketed(a);
    ShowIsBracketed(b);
    var ja, jb := Joined(EntryOf, Counted(a)), Joined(EntryOf, Counted(b));
    assert ja == Show(a)[2..|Show(a)| - 1];
    assert jb == Show(b)[2..|Show(b)| - 1];
    JoinedInjective(Counted(a), Counted(b));
    assert a.fields == b.fields by {
      forall k | 0 <= k < |a.fields|
        ensures a.fields[k] == b.fields[k]
      {
        assert Counted(a)[k] == Counted(b)[k];
      }
    }
  }

  /** t1 of the test driver prints as "[ 10 microseconds; 20 milliseconds; 0 seconds; 1 minutes; ]". */
  lemma ShowExample()
    ensures Show(Time(Microseconds, Minutes, [10, 20, 0, 1]))
            == "[ " + ("10 microseconds; " + ("20 milliseconds; " + ("0 seconds; " + "1 minutes; "))) + "]"
  {
    var t := Time(Microseconds, Minutes, [10, 20, 0, 1]);
    ShowIsBracketed(t);
    ExampleCounted();
    ExampleJoined();
  }

  lemma ExampleCounted()
    ensures Counted(Time(Microseconds, Minutes, [10, 20, 0, 1]))
            == [(10, Microseconds), (20, Milliseconds), (0, Seconds), (1, Minutes)]
  {
  }

  lemma ExampleJoined()
    ensures Joined(EntryOf, [(10, Microseconds), (20, Milliseconds), (0, Seconds), (1, Minutes)])
            == "10 microseconds; " + ("20 milliseconds; " + ("0 seconds; " + "1 minutes; "))
  {
    var d: seq<(int, Unit)> := [(10, Microseconds), (20, Milliseconds), (0, Seconds), (1, Minutes)];
    ExampleEntries();
    assert d[1..] == [(20, Milliseconds), (0, Seconds), (1, Minutes)];
    assert d[1..][1..] == [(0, Seconds), (1, Minutes)];
    assert d[1..][1..][1..] == [(1, Minutes)];
    assert d[1..][1..][1..][1..] == [];
    assert Joined(EntryOf, d[1..][1..][1..]) == "1 minutes; " + "";
    assert Joined(EntryOf, d[1..][1..]) == "0 seconds; " + "1 minutes; ";
    assert Joined(EntryOf, d[1..]) == "20 milliseconds; " + ("0 seconds; " + "1 minutes; ");
  }

  lemma ExampleEntries()
    ensures EntryOf((10, Microseconds)) == "10 microseconds; "
    ensures EntryOf((20, Milliseconds)) == "20 milliseconds; "
    ensures EntryOf((0, Seconds)) == "0 seconds; "
    ensures EntryOf((1, Minutes)) == "1 minutes; "
  {
    assert IntToString(10) == "10" && IntToString(20) == "20";
    assert IntToString(0) == "0" && IntToString(1) == "1";
  }
}
