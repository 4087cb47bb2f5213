# Travel-expense calculator: the calculation pass

The calculator reads a monthly expense report, fills in each business-trip
day, and writes the report back out. For each entry, in order, it:

- inserts the default times "00:00" and "24:00" where they are missing;
- resolves the "HH:MM" start and end times to two instants on one fixed
  calendar day, so the end "24:00" (any end hour of 24 or more) is the
  next midnight;
- takes the whole hours between them;
- derives the catering allowance, which is nothing up to 8 hours, the small
  amount above 8 hours and the big amount from 24 hours;
- derives the travel money, which is the kilometres times the
  cent-per-kilometre rate;
- overwrites the entry's `calculated` record.

The report's `totals` are then the sums of the per-entry values. Any
`calculated` or `totals` record already in the input is never read. An entry
whose times cannot be resolved stops the run.

The model has four modules:

- `Wrappers` (`wrappers.dfy`): `Option`, `Result` and `Outcome`.
- `TimeSpan` (`time_span.dfy`), in pure functional style:
  - `str::split_once`;
  - the `u32` parse, with Rust's rules (an optional '+', then at least one
    ASCII digit, at most 4294967295);
  - `and_hms_opt` on the fixed day, with instants as minutes since its
    midnight;
  - `num_hours().unsigned_abs()`, which divides the signed difference
    toward zero and then takes the magnitude.
- `Allowance` (`allowance.dfy`): the catering step function and the travel
  product.
- `Calculator` (`calculator.dfy`):
  - the report records;
  - the per-entry update as a function, `Updated`;
  - the sums;
  - the report as a class, `Details`. Its entry list is an array that the
    method `Calculate` updates in place, entry by entry, in a loop with the
    four running sums of the source. `Calculate` is proved against the
    specification functions `Updated`, `Totals` and `FirstFailure`.

Two consequences of how the code is written:

- The defaults are inserted inside the loop (main.rs:81-82), before the
  times are parsed. They are therefore written to the output, and an entry
  that stops the run has already received them. `Calculate` states both
  facts.
- The code fails in three ways:
  - a missing ':' (an `expect` panic);
  - a number that does not parse (an error return);
  - a start or end clock time that does not exist (an `unwrap` panic).

  `TimeError` keeps these kinds apart, in the order the code checks them.

## Model

| member | source | states |
|---|---|---|
| TimeSpan.SplitOnce | travel-expense/calculator/src/main.rs:85-86 | no split exactly when the separator is absent; otherwise the two parts with the separator between them rebuild the text, and the first part holds no separator |
| TimeSpan.SplitOnceAt | travel-expense/calculator/src/main.rs:85-86 | the split is at the first ':' — everything after it, further colons included, is the second part |
| TimeSpan.ParseU32 | travel-expense/calculator/src/main.rs:87-88 | a digit string parses to its decimal value when that fits in a `u32` and is rejected when it does not; a single leading '+' is accepted; the empty text, a '+' alone, a '-' and any other non-digit are rejected |
| TimeSpan.ParseDecimal | travel-expense/calculator/src/main.rs:87-88 | round trip: the decimal text of every `u32` value parses back to that value, with or without a leading '+' |
| TimeSpan.ParsePad2 | travel-expense/calculator/src/main.rs:87-88 | the zero-padded two-digit form used in "HH:MM" ("08") parses back to its value |
| TimeSpan.ClockMinutes | travel-expense/calculator/src/main.rs:93-94 | a clock time exists on the day exactly when hour < 24 and minute < 60; its instant is within the day and gives back hour and minute by division by 60 |
| TimeSpan.Instants | travel-expense/calculator/src/main.rs:93-101 | success exactly when the start is a clock time and the end hour is 24 or more or the end is a clock time; the start instant, the end instant (midnight of the next day for an end hour of 24 or more, whatever the minutes), and which of the two unwraps fails |
| TimeSpan.Resolve | travel-expense/calculator/src/main.rs:84-101 | a resolved start lies within the day and the end at most at the next midnight; a start without ':' fails first, then an end without ':', then any of the four parts that is not a `u32` fails with the invalid-number error |
| TimeSpan.ResolveClockTexts | travel-expense/calculator/src/main.rs:84-101 | every well-formed "HH:MM" pair resolves to the instants it names, and an end hour of 24 or more to the next midnight |
| TimeSpan.ResolveFromParts | travel-expense/calculator/src/main.rs:85-101 | once both texts split and their parts parse, the result depends only on the four numbers |
| TimeSpan.ValidInstants | travel-expense/calculator/src/main.rs:93-101 | valid numbers give exactly the instants they name |
| TimeSpan.ClockTextParts | travel-expense/calculator/src/main.rs:85-88 | "HH:MM" splits at its ':' into parts that parse back to the hour and the minute |
| TimeSpan.TimeWithSecondsFails | travel-expense/calculator/src/main.rs:85-88 | a start time with seconds ("HH:MM:SS") fails as an invalid number |
| TimeSpan.NegativeHourFails | travel-expense/calculator/src/main.rs:85-88 | a negative hour such as "-5:00" is not a `u32` and fails as an invalid number, instead of being read as 05:00 |
| TimeSpan.DefaultTimesSpanWholeDay | travel-expense/calculator/src/main.rs:81-101 | the default times "00:00" and "24:00" span the whole day, from 0 to 1440 minutes |
| TimeSpan.TruncDiv | travel-expense/calculator/src/main.rs:102 | Rust's signed division: the magnitude of the quotient is the largest number of whole divisors in the magnitude of the dividend, and the quotient has the sign of the dividend (rounding toward zero) |
| TimeSpan.WholeHours | travel-expense/calculator/src/main.rs:102 | the hours are the number of whole hours in the absolute difference: hours·60 ≤ abs(end − start) < (hours+1)·60 |
| TimeSpan.WholeHoursIsAbsDifference | travel-expense/calculator/src/main.rs:102 | the hours equal abs(end − start) divided by 60, rounded down: sub-hour remainders are dropped, never rounded up |
| TimeSpan.WholeHoursSymmetric | travel-expense/calculator/src/main.rs:102 | an end before the start gives the same hours as the swapped pair |
| TimeSpan.WholeHoursWithinDay | travel-expense/calculator/src/main.rs:93-102 | any resolved span is at most 24 hours, and exactly 24 only from "00:00" to the next midnight |
| Allowance.CateringMoney | travel-expense/calculator/src/main.rs:105-111 | the allowance is always nothing, the small amount or the big amount |
| Allowance.TravelMoney | travel-expense/calculator/src/main.rs:113 | the travel money is zero exactly when the distance or the rate is zero |
| Allowance.CateringBands | travel-expense/calculator/src/main.rs:105-111 | up to 8 hours nothing, 9 to 23 hours the small amount, 24 or more the big amount |
| Allowance.CateringBoundaries | travel-expense/calculator/src/main.rs:105-111 | exactly 8 hours earn nothing, 9 and 23 the small amount, exactly 24 the big amount |
| Allowance.CateringMonotone | travel-expense/calculator/src/main.rs:105-111 | when the big amount is at least the small one, more hours never earn less |
| Allowance.TravelMoneyLinear | travel-expense/calculator/src/main.rs:113 | no distance, no money; the money for two distances is the money for their sum |
| Calculator.WithDefaults | travel-expense/calculator/src/main.rs:81-82 | a missing start becomes "00:00", a missing end "24:00", present times are kept, and every other field is unchanged |
| Calculator.WithDefaultsIdempotent | travel-expense/calculator/src/main.rs:81-82 | inserting the defaults twice is inserting them once |
| Calculator.EntryValues | travel-expense/calculator/src/main.rs:84-113 | fails exactly when the times do not resolve, with their error; otherwise the whole hours of the span (at most 24, and exactly 24 only for the whole day), the catering allowance for those hours, and distance times rate |
| Calculator.Updated | travel-expense/calculator/src/main.rs:79-124 | an entry fails exactly when its defaulted times do not resolve; on success it is the defaulted entry with only `calculated` replaced, its hours are at most 24, and its travel money is distance times rate |
| Calculator.UpdatedBySpan | travel-expense/calculator/src/main.rs:102-124 | the updated entry carries the whole hours of its span, the catering allowance for them and the travel money |
| Calculator.UpdatedFails | travel-expense/calculator/src/main.rs:84-101 | an entry whose times do not resolve fails with the resolution's error |
| Calculator.FullDayByDefault | travel-expense/calculator/src/main.rs:81-111 | an entry without times gets "00:00" and "24:00", 24 hours and the big allowance |
| Calculator.CalculatedNeverRead | travel-expense/calculator/src/main.rs:120-124 | a `calculated` record present in the input has no influence on the update |
| Calculator.UpdatedIdempotent | travel-expense/calculator/src/main.rs:79-124 | updating an already updated entry reproduces it |
| Calculator.StartWithoutColonFails | travel-expense/calculator/src/main.rs:85 | a start time without ':' (such as "930") fails the entry with the missing-colon error |
| Calculator.WorkedExample | travel-expense/calculator/src/main.rs:79-124 | at 30 cents per km and allowances 1400/2800, a 100 km entry from "08:00" to "17:00" gets 9 hours, 1400 catering money and 3000 travel money |
| Calculator.WorkedExampleTotals | travel-expense/calculator/src/main.rs:115-132 | that entry alone totals 100 km, 3000 travel money, 1400 catering money and 4400 money |
| Calculator.MoneySplits | travel-expense/calculator/src/main.rs:115-118 | summing travel-plus-catering per entry equals the sum of the travel money plus the sum of the catering money |
| Calculator.Totals | travel-expense/calculator/src/main.rs:127-132 | the total money is the total travel money plus the total catering money |
| Calculator.SumsAppend | travel-expense/calculator/src/main.rs:115-118 | one more entry adds its distance, travel money, catering money and their sum to the four running sums |
| Calculator.ProcessedIdempotent | travel-expense/calculator/src/main.rs:79-124 | running the pass over its own output reproduces that output |
| Calculator.ProcessedIsTravelPriced | travel-expense/calculator/src/main.rs:113-117 | after the pass every entry keeps its distance and carries distance times rate as travel money |
| Calculator.TravelPricedTotals | travel-expense/calculator/src/main.rs:113-117 | summed distances are unchanged, and the summed travel money is the summed distance times the rate |
| Calculator.ProcessedTotals | travel-expense/calculator/src/main.rs:113-132 | after the pass the total distance is the input's total distance, and the total travel money is that distance times the rate |
| Calculator.FirstFailure | travel-expense/calculator/src/main.rs:79-101 | the index at which the run stops: every entry before it is updated, and the entry at it (if any) fails |
| Calculator.FirstFailureFromUpdates | travel-expense/calculator/src/main.rs:79-101 | every entry the search passes over is updated |
| Calculator.FirstFailureAt | travel-expense/calculator/src/main.rs:79-101 | the run stops at `k` when the entries before `k` are updated and the one at `k` fails, and runs to the end when all are updated |
| Calculator.Advanced | travel-expense/calculator/src/main.rs:79-125 | one more updated entry extends the processed prefix, and the array holds the updated prefix followed by the untouched rest |
| Calculator.Stopped | travel-expense/calculator/src/main.rs:79-101 | stopping at an entry leaves the updated prefix, that entry with only its defaults inserted, and the untouched rest |
| Calculator.StoppedAtFirstFailure | travel-expense/calculator/src/main.rs:79-101 | when the entry after the updated prefix fails, that index is the first failure, the array is in its stopped state, and the failing entry's error is the run's error |
| Calculator.Details.constructor | travel-expense/calculator/src/main.rs:10-27 | the report holds the given fields, with its entries in a fresh array |
| Calculator.Details.UpdateEntry | travel-expense/calculator/src/main.rs:80-124 | entry `i` alone changes: on success into its update, whose `calculated` record is returned; on failure into the entry with its defaults inserted, with the failing entry's error |
| Calculator.Details.Calculate | travel-expense/calculator/src/main.rs:74-132 | succeeds exactly when no entry fails. On success every entry is replaced by its update, and the totals are the sums over the updated entries (old totals unread). On failure the run stops at the first failing entry with that entry's error: the entries before it are updated, it has its defaults inserted, those after it are untouched, and the totals are not written |

## Left out

- The command line (`Arguments`, main.rs:61-66), reading the report from YAML and writing it back (main.rs:71-72, 134-135): these are file I/O and serde. The model starts from the loaded report and ends with the updated one. On failure the program writes nothing; the model still states what the in-memory report holds at that point.
- The calendar arithmetic of chrono is replaced by minutes since midnight of one fixed day. The day is free of daylight-saving shifts, so whole seconds, minutes and hours agree with chrono's results on it.
- The messages of the panics and errors are not modelled. The failure is the kind of `TimeError` and the entry at which the run stops. The difference between a panic and an error return is also left out, since both end the run.
- `document_date`, `month`, `author`, `company` and `signature_image` are carried as constant fields; the calculation never reads them.
- Calculator.Details.Calculate: does not model `usize` overflow of the travel money or of the running sums, because all amounts are unbounded naturals. Rust panics in debug builds and wraps in release builds.
- Allowance.TravelMoney: does not model `usize` overflow of the product of distance and rate, for the same reason.
- Calculator.Details.Calculate: its postcondition gives the totals as `Totals` of the updated entries. The consequences about the total distance, the total travel money and the money split are stated once, by Calculator.ProcessedTotals and Calculator.Totals, and not repeated in the method's contract.
