# vartime `Time` in Dafny

This project models the core of vartime, a header-only C++ library, and proves properties of that model.

At the heart of the library is `Time<Low, High>`. It holds one integer count per std::chrono duration unit from `Low` to `High` inclusive, finest first. The units are nanoseconds, microseconds, milliseconds, seconds, minutes and hours. The value is normalised by a finest-to-coarsest carry pass.

The repository holds three drafts of the type:
- the main draft, `06barannik/Time.h`;
- the consteval draft, `06barannik/TrueTime.h`;
- a self-contained draft, `consteval/main.cpp`.

Alongside them are two smaller groups of helpers:
- the type-list helpers that select a value's fields (`06barannik/Algorithm.h`, `consteval/main.cpp`);
- the integer-width calculators of `06barannik/BitUtils.h`.

Modules, in dependency order:

| module | file | contents |
|---|---|---|
| `CppArith` | cpp_arith.dfy | C++ `/` and `%`, which truncate toward zero (Dafny's are Euclidean) |
| `TypeLists` | type_lists.dfy | tuple_prepend, filter_args/filtered_tuple, has_type, index_of, copy_tuple_by_types, for_each, for_each_idx, all over sequences |
| `Units` | units.dfy | the `durations` tuple as unit indices 0..5, unit lengths in ns, neighbour ratios, names, the field selection |
| `TimeValue` | time_value.dfy | the `Time` datatype, its total in ns, the verbatim constructors, `get`, copy-by-unit |
| `Normalization` | normalization.dfy | `apply_and_normalize` and `normalize`, the carry invariants, the uniqueness of canonical values |
| `TimeOps` | time_ops.dfy | the main draft: same- and mixed-bound `+`/`-`, the converting constructor, the cast to one duration |
| `DriverExamples` | driver_examples.dfy | the values the test driver builds and the results it prints |
| `TrueTime` | true_time.dfy | the consteval draft: non-normalizing widening, `set`, the single-count constructor, inline-carry `+` |
| `ConstevalTime` | consteval_time.dfy | the self-contained draft: strict bounds, offset-based widening, its `+` and driver |
| `TimeText` | time_text.dfy | `operator<<` and how a count is written |
| `BitUtils` | bit_utils.dfy | bitcount, bits_to_bytes, bytecount, min_suitable_uint_type |

Encoding:
- A type-level tuple of duration types is a `seq<Unit>`. A `Time<Low, High>` is `Time(low, high, fields)` with `|fields| == high - low + 1`.
- `At(u)` reads the count of unit u. A unit outside the bounds reads as 0.
- `Total()` is the represented value in nanoseconds.
- A compile-time rejection (a `static_assert`, or a narrowing conversion refused by the consteval drafts) becomes a `requires` clause.
- The callable passed to `apply_and_normalize` becomes the datatype `Apply`: do nothing, add the other operand's fields, or subtract them. These are the only callables the drafts pass.

Where the comments and the code disagree, the model follows the code:
- When the converting constructor of `06barannik/Time.h` lowers the High, it ASSIGNS the folded coarser units to the new High field (`Time.h:185`). The comment at `Time.h:183` describes adding them instead. The folded count already includes the count at the new High, so adding would count it twice. With assignment, `TimeOps.Construct` provably keeps the value of the units from the new Low upward.
- The constructor calls helpers that `06barannik/Algorithm.h` does not define (`Time.h:158`, `Time.h:190`). The model implements what the comments at `Time.h:137-156` describe: a copy by unit of the units the two values share.
- In the same draft, `is_within_current_range` names its flag `value` (`Time.h:46`). `filter_args` reads a member called `result` (`Algorithm.h:59`), so `durations_t` (`Time.h:59`) does not instantiate as written. The consteval draft names the flag `result` (`TrueTime.h:46`). The model gives both drafts the intended field selection: the units from Low to High (`Units.Within`, `Units.FilterDurationsFrom`).

## Model

| member | source | states |
|---|---|---|
| CppArith.TDiv | 06barannik/Time.h:104 | the quotient of a duration by the next unit truncates toward zero: its magnitude is the largest whose multiple does not exceed the dividend, with the dividend's sign |
| CppArith.TMod | 06barannik/Time.h:107 | the remainder left in a field rebuilds the dividend with the quotient, is smaller than the divisor in magnitude and takes the dividend's sign |
| CppArith.TruncNegate | 06barannik/Time.h:104-107 | negating the dividend negates both the quotient and the remainder, as truncation (unlike floor division) is symmetric about zero |
| CppArith.TruncUnique | 06barannik/Time.h:104-107 | any quotient and remainder of that shape are the ones C++ produces |
| CppArith.AgreesWithEuclidOnNonNegative | 06barannik/Time.h:104-107 | on non-negative counts the C++ division is the mathematical floor division |
| CppArith.DiffersFromEuclidOnNegative | 06barannik/Time.h:104-107 | on -30 s over 60 the C++ remainder is -30 where floor division gives 30, so negative fields stay negative |
| TypeLists.Prepend | 06barannik/Algorithm.h:37-47 | the new element is first and the rest is the old list unchanged |
| TypeLists.Filter | 06barannik/Algorithm.h:51-82 | the result keeps no more than the input, only elements satisfying the predicate, and every such element |
| TypeLists.FilterConcat | 06barannik/Algorithm.h:54-63 | filtering a concatenation filters each part in order, so the original order is kept |
| TypeLists.FilterSingleton | consteval/main.cpp:41-51 | one element is kept exactly when the predicate holds, and the empty list filters to empty |
| TypeLists.Has | 06barannik/Algorithm.h:165-176 | has_type holds exactly when the type occurs in the list, so it is false for the empty tuple |
| TypeLists.IndexOf | consteval/main.cpp:64-75 | index_of is a position holding the element, and no earlier position holds it |
| TypeLists.IndexOfDistinct | consteval/main.cpp:64-75 | in a list without repeats, the element at position k has index k |
| TypeLists.CopyByKeys | 06barannik/Algorithm.h:178-189 | each source value lands in the target slot of the same type, and every other slot keeps its value |
| TypeLists.ForEach | 06barannik/Algorithm.h:86-116 | for_each as a fold of the callable's state over the elements; it has no contract of its own, and what it visits and in which order is stated by ForEachVisitsInOrder and ForEachConcat |
| TypeLists.ForEachIdxFrom | 06barannik/Algorithm.h:119-135 | for_each_arg_idx from index i on; no contract of its own, its visiting order is stated by ForEachIdxVisitsInOrder and ConstevalTime.PlaceFrom |
| TypeLists.ForEachIdx | 06barannik/Algorithm.h:137-151 | for_each_idx over the whole tuple from index 0; no contract of its own, see ForEachIdxVisitsInOrder |
| TypeLists.ForEachConcat | 06barannik/Algorithm.h:86-116 | iterating over a concatenation visits the first part, then the second |
| TypeLists.ForEachVisitsInOrder | 06barannik/Algorithm.h:86-116 | for_each hands the callable every element exactly once, in order |
| TypeLists.ForEachIdxVisitsInOrder | 06barannik/Algorithm.h:119-151 | for_each_idx hands the callable element i together with index i, for ascending i |
| Units.Size | 06barannik/Time.h:7-15 | every chrono period is at least one nanosecond; how neighbouring periods relate is stated by RatioScales and SizeOrder |
| Units.Name | 06barannik/Time.h:20-25 | each duration_name is a non-empty word with no space in it |
| Units.NameInjective | 06barannik/Time.h:20-25 | no two units share a name |
| Units.Within | 06barannik/Time.h:43-57 | the period test of is_within_current_range holds exactly when u lies between Low and High by position in the durations tuple |
| Units.Range | 06barannik/Time.h:59 | the units a..b in ascending order: b - a + 1 of them, entry i being a + i, empty when b < a |
| Units.Ratio | 06barannik/Time.h:98-107 | each unit but hours fits at least twice into the next one |
| Units.RatioScales | 06barannik/Time.h:7-15 | the next unit is Ratio(u) times the current one, so the carry ratio is the chrono periods' quotient |
| Units.SizeOrder | 06barannik/Time.h:43-56 | comparing periods is comparing unit indices, in both directions |
| Units.Scale | 06barannik/Time.h:197-204 | a coarser unit is a whole multiple of a finer one |
| Units.RangeMembership | 06barannik/Time.h:43-59 | a unit is among the fields exactly when it lies between Low and High |
| Units.IndexInRange | consteval/main.cpp:107 | a unit's position among the fields is its distance from Low |
| Units.FilterDurationsFrom | 06barannik/Time.h:59 | filtering the durations tuple by is_within_current_range gives the units from Low to High |
| Units.FieldUnits | 06barannik/TrueTime.h:43-59 | the fields of a Time are exactly the units from Low to High, finest first |
| TimeValue.Zero | 06barannik/TrueTime.h:125 | a default-constructed value has the given bounds and every count zero |
| TimeValue.Get | 06barannik/Time.h:206-210 | get<D>() reads the count of unit D |
| TimeValue.Make | 06barannik/Time.h:126-127 | the variadic constructor gives a valid value with the given bounds, one count per unit |
| TimeValue.MakeThenGet | 06barannik/TrueTime.h:138-140 | the constructors store the counts verbatim, one per unit, with no carry |
| TimeValue.CopyByUnit | 06barannik/Time.h:137-158 | copying by type sets each shared unit to the source's count and leaves every other unit as it was |
| TimeValue.CopyIntoZero | 06barannik/TrueTime.h:60-61 | copying into a default-constructed value keeps the source's count at each of its units and zero elsewhere |
| TimeValue.EqualAt | 06barannik/Time.h:43-60 | two values of one type with the same count at every unit are equal |
| TimeValue.AssignTotal | 06barannik/TrueTime.h:154 | overwriting one field changes the total by the change of that count times its unit |
| TimeValue.TotalExpanded | 06barannik/Time.h:7-15 | the total is the sum of each count times its unit length in ns |
| Normalization.Step | 06barannik/Time.h:92-108 | one carry step keeps the bounds and the shape of the value; that it keeps the total is StepKeepsTotal |
| Normalization.StepKeepsTotal | 06barannik/Time.h:98-107 | moving a field's surplus into the next field keeps the total |
| Normalization.Pass | 06barannik/Time.h:82-110 | apply_and_normalize keeps the bounds and the fields before the start, leaves every non-coarsest field below its ratio in magnitude, and keeps the total when it only carries |
| Normalization.Normalize | 06barannik/Time.h:112-116 | normalize keeps the total and leaves every non-coarsest field below its ratio in magnitude |
| Normalization.ApplyThenNormalize | 06barannik/Time.h:82-110 | interleaving the callable with the carry equals applying it to every field first and then normalizing |
| Normalization.NormalizeKeepsCarried | 06barannik/Time.h:112-116 | a value whose fields are already below their ratios is left unchanged |
| Normalization.NormalizeKeepsCarriedPrefix | 06barannik/Time.h:92-108 | fields before the first one at or above its ratio are left unchanged |
| Normalization.NormalizeIdempotent | 06barannik/Time.h:112-116 | normalizing twice is normalizing once |
| Normalization.NormalizeNonNegative | 06barannik/Time.h:112-116 | a non-negative value normalizes to the canonical form: each non-coarsest field in [0, ratio) |
| Normalization.NegateSum | 06barannik/Time.h:7-15 | negating every count negates the value of any run of units |
| Normalization.StepNegate | 06barannik/Time.h:92-108 | one carry step on the negated value is the negation of the step: a negative surplus is carried as a negative count |
| Normalization.PassNegate | 06barannik/Time.h:82-110 | the carry pass commutes with negation from any start index |
| Normalization.NormalizeNegate | 06barannik/Time.h:112-116 | normalize commutes with negation, so where a negative value's fields end up is the mirror of the non-negative case |
| Normalization.NormalizeNonPositive | 06barannik/Time.h:104-107 | a value with no positive field normalizes to the mirror of the canonical form: every field but the coarsest in (-ratio, 0], the coarsest non-positive |
| Normalization.NormalizeNonPositiveDeterminedByTotal | 06barannik/Time.h:112-116 | non-positive values of one type with equal totals normalize to the same value |
| Normalization.CanonicalUnique | 06barannik/Time.h:112-116 | two canonical values of one type with equal totals are equal |
| Normalization.NormalizeDeterminedByTotal | 06barannik/Time.h:112-116 | non-negative values of one type with equal totals normalize to the same value |
| Normalization.CarriedNotUnique | 06barannik/Time.h:104-107 | with truncating division, two different normalized values can have the same total |
| Normalization.CarryExample | 06barannik/Time.h:98-107 | 1500 ms normalizes to 500 ms and 1 s, and -1500 ms to -500 ms and -1 s rather than the floor's 500 ms and -2 s |
| Normalization.CarryChainExample | 06barannik/Time.h:85-109 | a carry out of one field can ripple through the next |
| TimeOps.FieldSum | 06barannik/Time.h:217-218 | the applied callable adds the other operand's count at every unit |
| TimeOps.FieldDifference | 06barannik/Time.h:234-235 | the applied callable subtracts the other operand's count at every unit |
| TimeOps.Add | 06barannik/Time.h:214-220 | same-bound operator+ keeps the type, carries every non-coarsest field below its ratio and adds the totals |
| TimeOps.Sub | 06barannik/Time.h:231-237 | same-bound operator- keeps the type, carries, and subtracts the totals |
| TimeOps.AddIsNormalizedSum | 06barannik/Time.h:214-220 | the sum is the normalized field-by-field sum |
| TimeOps.SubIsNormalizedDifference | 06barannik/Time.h:231-237 | the difference is the normalized field-by-field difference |
| TimeOps.AddCommutes | 06barannik/Time.h:214-220 | a + b == b + a |
| TimeOps.AddOfNonNegative | 06barannik/Time.h:214-220 | the sum of non-negative values is canonical and non-negative |
| TimeOps.AddAssociativeOnNonNegative | 06barannik/Time.h:214-220 | on non-negative values the sum is associative |
| TimeOps.AddNotAssociative | 06barannik/Time.h:214-220 | with negative fields it is not: the grouping changes the fields of the result |
| TimeOps.SubKeepsNegativeRemainder | 06barannik/Time.h:231-237 | 1 min - 30 s gives -30 s and 1 min: the difference does no borrowing |
| TimeOps.LowBroader | 06barannik/Time.h:62-67 | low_broader picks the finer of the two Lows |
| TimeOps.HighBroader | 06barannik/Time.h:69-74 | high_broader picks the coarser of the two Highs |
| TimeOps.DurationCast | 06barannik/Time.h:201-202 | duration_cast is exact toward a finer unit; toward a coarser one it truncates toward zero: off by less than one target unit, no larger in magnitude than the count, and of the count's sign |
| TimeOps.CastUnique | 06barannik/Time.h:201-202 | toward a coarser unit only one result meets that contract, the truncated quotient, so rounding down (-30 s to -1 min) is excluded |
| TimeOps.CastOfNegativeSeconds | 06barannik/Time.h:201-202 | -30 s cast to minutes is 0 min |
| TimeOps.CastFrom | 06barannik/Time.h:197-204 | the for_each summing the casts of the fields; no contract of its own, its exactness and error bound are CastFromExact and CastFromError |
| TimeOps.CastFromExact | 06barannik/Time.h:197-204 | summing the casts of the fields is exact when no field is finer than the target |
| TimeOps.CastFromError | 06barannik/Time.h:197-204 | each field finer than the target adds less than one target unit of error |
| TimeOps.CastTo | 06barannik/Time.h:197-204 | the cast to a unit no coarser than Low is the exact total in that unit |
| TimeOps.CastToError | 06barannik/Time.h:197-204 | the cast to any unit is off by less than one target unit per finer unit |
| TimeOps.CastTruncatesEachField | 06barannik/Time.h:201-202 | each field is truncated on its own: 1500 ms and 59 s cast to 0 min though they exceed a minute |
| TimeOps.Narrowing | 06barannik/Time.h:134-135 | the period test picks the converting branch exactly when the new High is finer than the old one or the new Low coarser than the old one |
| TimeOps.WithHigh | 06barannik/Time.h:185 | assigning the coarsest field overwrites the count at High and leaves every other unit's count as it was |
| TimeOps.FoldHigh | 06barannik/Time.h:184-185 | the folded count is the value of the units from the new High upward, in that unit |
| TimeOps.Assemble | 06barannik/Time.h:131-191 | before the carry, the constructor holds the source's count at each unit below the new High; at the High it holds the folded count when the High is lowered, and the source's count otherwise |
| TimeOps.Construct | 06barannik/Time.h:131-195 | the constructor gives the target bounds, a carried value unless it is the copy, and the source's value from the new Low upward |
| TimeOps.Convert | 06barannik/Time.h:131-195 | the converting constructor normalizes and keeps the value of the units from the new Low upward |
| TimeOps.Plus | 06barannik/Time.h:222-227 | mixed-bound operator+ yields the finer Low and the coarser High, carried, with the totals added |
| TimeOps.Minus | 06barannik/Time.h:239-244 | mixed-bound operator- yields the broader bounds, carried, with the totals subtracted |
| TimeOps.PlusCommutes | 06barannik/Time.h:222-227 | the mixed-bound sum does not depend on the order of its operands |
| TimeOps.WidenThenNarrow | 06barannik/Time.h:131-195 | widening a carried value and converting it back gives the original |
| TimeOps.WidenedAgrees | 06barannik/Time.h:131-195 | widening a carried value keeps each of its counts below its High, and the value from its High upward |
| TimeOps.ConstructCarried | 06barannik/Time.h:131-195 | a carried value holding what the constructor assembles is the constructed value |
| DriverExamples.T3Truncated | 06barannik/main.cpp:29 | Time<minutes, hours>(t3) is [10 min, 14 h] |
| DriverExamples.T3Lowered | 06barannik/main.cpp:30 | Time<seconds, minutes>(t3) is [20 s, 850 min] |
| DriverExamples.T2TruncatedAndLowered | 06barannik/main.cpp:31 | Time<seconds, minutes>(t2) is [20 s, 130 min] |
| DriverExamples.T1InSeconds | 06barannik/main.cpp:49 | static_cast<seconds>(t1) is 60 s |
| DriverExamples.T1Widened | 06barannik/main.cpp:56 | t1 widened to [us, h] gains a zero hour field |
| DriverExamples.R1 | 06barannik/main.cpp:56 | t1 + t2 is [0 us, 1 ms, 21 s, 11 min, 2 h] |
| DriverExamples.R2 | 06barannik/main.cpp:57 | t1 + t3 is [10 us, 20 ms, 20 s, 11 min, 14 h] |
| DriverExamples.R3 | 06barannik/main.cpp:58 | r2 + t2 is [0 us, 1 ms, 41 s, 21 min, 16 h] |
| TrueTime.Widen | 06barannik/TrueTime.h:126-135 | the converting constructor keeps every unit's count, with zeros at the new units and no carry, and so keeps the total |
| TrueTime.Set | 06barannik/TrueTime.h:151-156 | set<D> gives a carried value whose total changed by the new count minus the old, times the unit |
| TrueTime.FromLow | 06barannik/TrueTime.h:141 | a single count of Low gives a carried value worth that many Low units |
| TrueTime.FromLowExample | 06barannik/TrueTime.h:141 | 3700 s as Time<seconds, hours> is 40 s, 1 min, 1 h |
| TrueTime.AddInline | 06barannik/TrueTime.h:168-184 | the inline carry loop computes the main draft's sum: carried, with the totals added |
| TrueTime.Plus | 06barannik/TrueTime.h:186-191 | mixed-bound operator+ yields the broader bounds, carried, with the totals added |
| TrueTime.ConstructIsNormalizedWiden | 06barannik/TrueTime.h:126-135 | the main draft's widening constructor is this draft's copy followed by normalize |
| TrueTime.PlusAgreesOnNonNegative | 06barannik/TrueTime.h:186-191 | on non-negative operands this draft's mixed sum equals the main draft's |
| ConstevalTime.Strict | consteval/main.cpp:80 | the static_assert that Low is strictly finer than High; a predicate used as a precondition of the draft's operations |
| ConstevalTime.PlaceAt | consteval/main.cpp:109-112 | the placing lambda, `get<idx + offset>(fields) = f`; no contract of its own, what the iteration with it does is PlaceFrom |
| ConstevalTime.PlaceFrom | consteval/main.cpp:109-112 | for_each_idx with the placing lambda puts source field k at position k + offset and leaves the rest |
| ConstevalTime.Widen | consteval/main.cpp:101-113 | the offset-placing constructor gives the target bounds and keeps every unit's count |
| ConstevalTime.WidenCopiesByUnit | consteval/main.cpp:101-113 | placing at the offset of the source's Low is the consteval draft's copy by type |
| ConstevalTime.Plus | consteval/main.cpp:133-140 | mixed-bound operator+ yields the finer Low and the coarser High, carried, with the totals added |
| ConstevalTime.PlusMatchesTrueTime | consteval/main.cpp:115-140 | this draft's mixed sum is the consteval draft's |
| ConstevalTime.DriverSum | consteval/main.cpp:181-189 | {10 us, 30 ms, 0 s, 5 min} + {980 ms, 5 s} is [10 us, 10 ms, 6 s, 5 min], so seconds == 6 s as the commented-out check expects |
| TimeText.NatToString | 06barannik/Time.h:249 | a count is written as decimal digits without leading zeros |
| TimeText.IntToString | 06barannik/Time.h:249 | a count's text is non-empty, starts with '-' exactly when the count is negative, and holds no space |
| TimeText.ParseIntToString | 06barannik/Time.h:249 | reading the written count back gives the count |
| TimeText.Entry | 06barannik/Time.h:249 | one entry starts with the count's text followed by a space, and ends with "; " |
| TimeText.Show | 06barannik/Time.h:246-252 | the text opens with "[ " and closes with "]"; its content is ShowIsBracketed, and ShowInjective states that it determines the value |
| TimeText.Counted | 06barannik/TrueTime.h:146 | the durations are each field with its unit, finest first |
| TimeText.ShowIsBracketed | 06barannik/Time.h:246-252 | the text is "[ ", then "count name; " per field finest first, then "]" |
| TimeText.EntryCancel | 06barannik/Time.h:249 | entries of one unit with different counts never print alike, whatever follows them |
| TimeText.ShowInjective | 06barannik/TrueTime.h:195-202 | the printed text of a value determines the value among values of its type |
| TimeText.ShowExample | 06barannik/Time.h:20-25 | t1 prints as "[ 10 microseconds; 20 milliseconds; 0 seconds; 1 minutes; ]" |
| BitUtils.BitCount | 06barannik/BitUtils.h:8-15 | bitcount of 0 and 1 is 1; for n >= 1 it is the b with 2^(b-1) <= n < 2^b |
| BitUtils.BitCountUnique | 06barannik/BitUtils.h:8-15 | only one width b satisfies 2^(b-1) <= n < 2^b, so bitcount is the number of binary digits |
| BitUtils.BitsToBytes | 06barannik/BitUtils.h:17-20 | for a non-negative bit count b the result r satisfies 8(r-1) < b <= 8r |
| BitUtils.BitsToBytesLeast | 06barannik/BitUtils.h:17-20 | no smaller byte count holds that many bits |
| BitUtils.ByteCount | 06barannik/BitUtils.h:22-23 | bytecount is at least one byte; its exact value, the least number of bytes that holds n, is stated by ByteCountTight |
| BitUtils.ByteCountTight | 06barannik/BitUtils.h:22-23 | n < 2^(8 bytecount(n)), and with two or more bytes, n does not fit in one byte fewer |
| BitUtils.MinSuitableUInt | 06barannik/BitUtils.h:26-39 | for 1 to 4 bytes the type is the narrowest unsigned type with at least that many bits; for any other count it is intmax_t |
| BitUtils.ByteCountFits | 06barannik/BitUtils.h:22-39 | every non-negative intmax_t fits in the type its byte count selects |
| BitUtils.ByteCountExamples | 06barannik/BitUtils.h:22-39 | 255 needs 1 byte and uint8_t, 256 needs 2 bytes and uint16_t, 70000 needs 3 bytes and uint32_t |

## Left out

- `now()` (06barannik/Time.h:257-268) reads the wall clock and the local time zone. This is operating-system I/O.
- `06barannik/Timer.h` and `06barannik/Watch.h` are about detached threads and sleeping.
- `type_name` (06barannik/Algorithm.h:7-32) relies on RTTI and the ABI demangler, which are foreign calls.
- The test drivers (`06barannik/main.cpp`, `main` in `consteval/main.cpp`) print to `cout`. Their values appear only as lemmas in `DriverExamples`, `ConstevalTime` and `TimeText`.
- The deduction guides (06barannik/Time.h:271-278) only choose template arguments. The model always names the bounds.
- Overflow of the duration representations and of `intmax_t` is not modelled. Counts are unbounded integers, and `bits_to_bytes` does not model `bits + 7` overflowing.
- The `const` on `set` (06barannik/TrueTime.h:152) and the rvalue-only `normalize` (06barannik/TrueTime.h:118) make `set` ill-formed as written. `TrueTime.Set` models the evident intent: assign the field, then normalize.
- A default-constructed std::tuple of durations value-initializes every count. So the fields that the consteval converting constructors do not write are 0 in the model.
- The non-const `get` returning a mutable reference (06barannik/Time.h:209-210) is not modelled separately. A write through it is `TrueTime.Set` without the normalize.
- TimeValue.Make: its contract gives only the bounds. That the counts are stored verbatim is stated by `TimeValue.MakeThenGet`.
- BitUtils.BitCount: requires n >= 0. For a negative n the shift never reaches 0 or 1, so the template recursion does not terminate and the instantiation does not compile.
- BitUtils.MinSuitableUInt: intmax_t is taken to be 64 bits wide, as on the targets the library is written for.
