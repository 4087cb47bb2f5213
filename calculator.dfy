/** The expense report and the calculation pass over it: every entry gets
    its default times filled in and its calculated values written, in order,
    and the report's totals are the sums over all entries.  The pass either
    completes or stops at the first entry whose times cannot be resolved. */
module Calculator {
  import opened Wrappers
  import opened TimeSpan
  import opened Allowance

  /** The document date; the calculation never reads it. */
  datatype Date = Date(year: int, month: nat, day: nat)

  /** Values derived for one entry. */
  datatype CalculatedValues = CalculatedValues(hours: nat, cateringMoney: nat, travelMoney: nat)

  /** The default of a missing `calculated` record. */
  const NoValues := CalculatedValues(0, 0, 0)

  /** Values derived for the whole report. */
  datatype TotalValues = TotalValues(travelDistanceKm: nat, travelMoney: nat, cateringMoney: nat, money: nat)

  /** The default of a missing `totals` record. */
  const NoTotals := TotalValues(0, 0, 0, 0)

  /** One business-trip day.  A missing distance loads as 0, a missing
      `calculated` as `NoValues`. */
  datatype Entry = Entry(
    day: nat,
    subject: string,
    startTime: Option<string>,
    endTime: Option<string>,
    traveledKm: nat,
    calculated: CalculatedValues)

  /** The report's three reimbursement constants. */
  datatype Rates = Rates(centPerKm: nat, smallCateringMoney: nat, bigCateringMoney: nat)

  const DefaultStartTime: string := "00:00"
  const DefaultEndTime: string := "24:00"

  /** The entry with a missing start time set to "00:00" and a missing end
      time set to "24:00"; times that are present are kept. */
  function WithDefaults(e: Entry): (r: Entry)
    ensures r.startTime == (if e.startTime.Some? then e.startTime else Some(DefaultStartTime))
    ensures r.endTime == (if e.endTime.Some? then e.endTime else Some(DefaultEndTime))
    ensures r.day == e.day && r.subject == e.subject && r.traveledKm == e.traveledKm
    ensures r.calculated == e.calculated
  {
    e.(startTime := Some(e.startTime.GetOr(DefaultStartTime)),
       endTime := Some(e.endTime.GetOr(DefaultEndTime)))
  }

  /** Filling in the defaults a second time changes nothing. */
  lemma WithDefaultsIdempotent(e: Entry)
    ensures WithDefaults(WithDefaults(e)) == WithDefaults(e)
  {
  }

  /** The calculated values for an entry whose times are `startText` and
      `endText`: the whole hours of the span, the catering allowance for them
      and the travel money.  Fails exactly when the times do not resolve. */
  function EntryValues(startText: string, endText: string, traveledKm: nat, rates: Rates): (r: Result<CalculatedValues, TimeError>)
    ensures r.Failure? <==> Resolve(startText, endText).Failure?
    ensures r.Failure? ==> r.error == Resolve(startText, endText).error
    ensures r.Success? ==> r.value.hours == WholeHours(Resolve(startText, endText).value)
    ensures r.Success? ==> r.value.hours <= 24
    ensures r.Success? ==> (r.value.hours == 24 <==> Resolve(startText, endText).value == Span(0, MinutesPerDay))
    ensures r.Success? ==> r.value.cateringMoney == CateringMoney(r.value.hours, rates.smallCateringMoney, rates.bigCateringMoney)
    ensures r.Success? ==> r.value.travelMoney == traveledKm * rates.centPerKm
  {
    match Resolve(startText, endText)
    case Failure(err) => Failure(err)
    case Success(span) =>
      WholeHoursWithinDay(span);
      var hours := WholeHours(span);
      Success(CalculatedValues(
        hours,
        CateringMoney(hours, rates.smallCateringMoney, rates.bigCateringMoney),
        TravelMoney(traveledKm, rates.centPerKm)))
  }

  /** The entry as the calculation pass leaves it: defaults filled in and the
      calculated values replaced; day, subject and distance are unchanged. */
  function Updated(e: Entry, rates: Rates): (r: Result<Entry, TimeError>)
    ensures var d := WithDefaults(e);
      r.Failure? <==> Resolve(d.startTime.value, d.endTime.value).Failure?
    ensures r.Success? ==> r.value == WithDefaults(e).(calculated := r.value.calculated)
    ensures r.Success? ==> r.value.calculated.hours <= 24
    ensures r.Success? ==> r.value.calculated.travelMoney == e.traveledKm * rates.centPerKm
  {
    var d := WithDefaults(e);
    match EntryValues(d.startTime.value, d.endTime.value, d.traveledKm, rates)
    case Failure(err) => Failure(err)
    case Success(values) => Success(d.(calculated := values))
  }

  /** The update of an entry whose times resolve to `span`. */
  lemma UpdatedBySpan(e: Entry, rates: Rates, span: Span)
    requires var d := WithDefaults(e); Resolve(d.startTime.value, d.endTime.value) == Success(span)
    ensures var hours := WholeHours(span);
      Updated(e, rates) == Success(WithDefaults(e).(calculated := CalculatedValues(
        hours,
        CateringMoney(hours, rates.smallCateringMoney, rates.bigCateringMoney),
        TravelMoney(e.traveledKm, rates.centPerKm))))
  {
  }

  /** An entry whose times do not resolve fails with the same error. */
  lemma UpdatedFails(e: Entry, rates: Rates)
    requires var d := WithDefaults(e); Resolve(d.startTime.value, d.endTime.value).Failure?
    ensures var d := WithDefaults(e); Updated(e, rates) == Failure(Resolve(d.startTime.value, d.endTime.value).error)
  {
  }

  /** An entry without times is a full day: 24 hours and the big allowance. */
  lemma FullDayByDefault(e: Entry, rates: Rates)
    requires e.startTime.None? && e.endTime.None?
    ensures Updated(e, rates) == Success(e.(
      startTime := Some("00:00"),
      endTime := Some("24:00"),
      calculated := CalculatedValues(24, rates.bigCateringMoney, e.traveledKm * rates.centPerKm)))
  {
    DefaultTimesSpanWholeDay();
  }

  /** A `calculated` record present in the input is never read. */
  lemma CalculatedNeverRead(e: Entry, stale: CalculatedValues, rates: Rates)
    ensures Updated(e.(calculated := stale), rates) == Updated(e, rates)
  {
  }

  /** Updating an updated entry changes nothing: its times are already
      filled in and its old calculated values are not read. */
  lemma UpdatedIdempotent(e: Entry, rates: Rates)
    requires Updated(e, rates).Success?
    ensures Updated(Updated(e, rates).value, rates) == Updated(e, rates)
  {
    var u := Updated(e, rates).value;
    CalculatedNeverRead(WithDefaults(e), u.calculated, rates);
    WithDefaultsIdempotent(e);
    assert u == WithDefaults(e).(calculated := u.calculated);
  }

  /** A start time without ':' stops the pass at that entry. */
  lemma StartWithoutColonFails(e: Entry, rates: Rates)
    requires e.startTime.Some? && ':' !in e.startTime.value
    ensures Updated(e, rates) == Failure(NoColonInStart)
  {
  }

  /** The worked example: 30 cents per km, allowances 1400 and 2800, one entry
      of 100 km from "08:00" to "17:00". */
  lemma WorkedExample(e: Entry)
    requires e.startTime == Some("08:00") && e.endTime == Some("17:00") && e.traveledKm == 100
    ensures Updated(e, Rates(30, 1400, 2800)) == Success(e.(calculated := CalculatedValues(9, 1400, 3000)))
  {
    WorkedExampleSpan();
    WorkedExampleValues();
    assert WithDefaults(e) == e;
    UpdatedBySpan(e, Rates(30, 1400, 2800), Span(480, 1020));
  }

  lemma WorkedExampleValues()
    ensures WholeHours(Span(480, 1020)) == 9
    ensures CateringMoney(9, 1400, 2800) == 1400
    ensures TravelMoney(100, 30) == 3000
  {
  }

  /** The totals of the worked example. */
  lemma WorkedExampleTotals(e: Entry)
    requires e.traveledKm == 100 && e.calculated == CalculatedValues(9, 1400, 3000)
    ensures Totals([e]) == TotalValues(100, 3000, 1400, 4400)
  {
    SumsAppend([], e);
    assert [] + [e] == [e];
  }

  lemma WorkedExampleSpan()
    ensures Resolve("08:00", "17:00") == Success(Span(480, 1020))
  {
    WorkedExampleTimes();
    ResolveFromParts("08:00", "17:00", 8, 0, 17, 0);
    ValidInstants(8, 0, 17, 0);
  }

  lemma WorkedExampleTimes()
    ensures SplitOnce("08:00", ':') == Some(("08", "00"))
    ensures SplitOnce("17:00", ':') == Some(("17", "00"))
    ensures ParseParts("08", "00") == Some((8, 0))
    ensures ParseParts("17", "00") == Some((17, 0))
  {
    assert "08:00" == "08" + [':'] + "00";
    assert "17:00" == "17" + [':'] + "00";
    SplitOnceAt("08", "00", ':');
    SplitOnceAt("17", "00", ':');
    ParseDefaultNumbers();
    WorkedExampleNumbers();
  }

  lemma WorkedExampleNumbers()
    ensures ParseU32("08") == Some(8)
    ensures ParseU32("17") == Some(17)
  {
    assert "0"[..0] == [] && "08"[..1] == "0";
    assert DigitsValue("08") == 8;
    assert "1"[..0] == [] && "17"[..1] == "1";
    assert DigitsValue("17") == 17;
  }

  // ----- sums over the entries -----

  function SumKm(es: seq<Entry>): nat
    decreases |es|
  {
    if es == [] then 0 else SumKm(es[..|es| - 1]) + es[|es| - 1].traveledKm
  }

  function SumTravelMoney(es: seq<Entry>): nat
    decreases |es|
  {
    if es == [] then 0 else SumTravelMoney(es[..|es| - 1]) + es[|es| - 1].calculated.travelMoney
  }

  function SumCateringMoney(es: seq<Entry>): nat
    decreases |es|
  {
    if es == [] then 0 else SumCateringMoney(es[..|es| - 1]) + es[|es| - 1].calculated.cateringMoney
  }

  /** Sum of each entry's travel money plus catering money. */
  function SumMoney(es: seq<Entry>): nat
    decreases |es|
  {
    if es == [] then 0
    else SumMoney(es[..|es| - 1]) + (es[|es| - 1].calculated.travelMoney + es[|es| - 1].calculated.cateringMoney)
  }

  /** Summing per-entry totals is summing the two kinds of money apart. */
  lemma {:induction false} MoneySplits(es: seq<Entry>)
    ensures SumMoney(es) == SumTravelMoney(es) + SumCateringMoney(es)
    decreases |es|
  {
    if es != [] {
      MoneySplits(es[..|es| - 1]);
    }
  }

  /** The report totals of a list of processed entries. */
  function Totals(es: seq<Entry>): (t: TotalValues)
    ensures t.money == t.travelMoney + t.cateringMoney
  {
    MoneySplits(es);
    TotalValues(SumKm(es), SumTravelMoney(es), SumCateringMoney(es), SumMoney(es))
  }

  /** Appending one entry adds its share to every sum. */
  lemma SumsAppend(es: seq<Entry>, e: Entry)
    ensures SumKm(es + [e]) == SumKm(es) + e.traveledKm
    ensures SumTravelMoney(es + [e]) == SumTravelMoney(es) + e.calculated.travelMoney
    ensures SumCateringMoney(es + [e]) == SumCateringMoney(es) + e.calculated.cateringMoney
    ensures SumMoney(es + [e]) == SumMoney(es) + (e.calculated.travelMoney + e.calculated.cateringMoney)
  {
    assert (es + [e])[..|es|] == es;
  }

  /** `after` is `before` with every entry updated by the calculation pass. */
  ghost predicate Processed(before: seq<Entry>, after: seq<Entry>, rates: Rates) {
    |before| == |after| &&
    forall i {:trigger Updated(before[i], rates)} :: 0 <= i < |before| ==> Updated(before[i], rates) == Success(after[i])
  }

  /** Running the pass over its own output reproduces that output. */
  lemma ProcessedIdempotent(before: seq<Entry>, after: seq<Entry>, rates: Rates)
    requires Processed(before, after, rates)
    ensures Processed(after, after, rates)
  {
    forall i | 0 <= i < |after|
      ensures Updated(after[i], rates) == Success(after[i])
    {
      assert Updated(before[i], rates) == Success(after[i]);
      UpdatedIdempotent(before[i], rates);
    }
  }

  /** Distances are kept and each travel money is distance times rate. */
  ghost predicate TravelPriced(before: seq<Entry>, after: seq<Entry>, centPerKm: nat) {
    |before| == |after| &&
    forall i :: 0 <= i < |before| ==>
      after[i].traveledKm == before[i].traveledKm &&
      after[i].calculated.travelMoney == before[i].traveledKm * centPerKm
  }

  lemma ProcessedIsTravelPriced(before: seq<Entry>, after: seq<Entry>, rates: Rates)
    requires Processed(before, after, rates)
    ensures TravelPriced(before, after, rates.centPerKm)
  {
    forall i | 0 <= i < |before|
      ensures after[i].traveledKm == before[i].traveledKm
      ensures after[i].calculated.travelMoney == before[i].traveledKm * rates.centPerKm
    {
      assert Updated(before[i], rates) == Success(after[i]);
    }
  }

  /** Summing travel money that is priced per entry is pricing the summed
      distance. */
  lemma {:induction false} TravelPricedTotals(before: seq<Entry>, after: seq<Entry>, centPerKm: nat)
    requires TravelPriced(before, after, centPerKm)
    ensures SumKm(after) == SumKm(before)
    ensures SumTravelMoney(after) == SumKm(before) * centPerKm
    decreases |before|
  {
    if before != [] {
      var n := |before| - 1;
      assert TravelPriced(before[..n], after[..n], centPerKm);
      TravelPricedTotals(before[..n], after[..n], centPerKm);
      assert SumKm(before) == SumKm(before[..n]) + before[n].traveledKm;
      Distribute(SumKm(before[..n]), before[n].traveledKm, centPerKm);
    }
  }

  lemma Distribute(a: nat, b: nat, c: nat)
    ensures (a + b) * c == a * c + b * c
  {
  }

  /** After the pass the total distance is the input's total distance, and
      the total travel money is that distance times the rate. */
  lemma ProcessedTotals(before: seq<Entry>, after: seq<Entry>, rates: Rates)
    requires Processed(before, after, rates)
    ensures Totals(after).travelDistanceKm == SumKm(before)
    ensures Totals(after).travelMoney == SumKm(before) * rates.centPerKm
  {
    ProcessedIsTravelPriced(before, after, rates);
    TravelPricedTotals(before, after, rates.centPerKm);
  }

  /** Index of the first entry the pass cannot update, or the number of
      entries when there is none. */
  function FirstFailure(es: seq<Entry>, rates: Rates): (k: nat)
    ensures k <= |es|
    ensures forall i {:trigger Updated(es[i], rates)} :: 0 <= i < k ==> Updated(es[i], rates).Success?
    ensures k < |es| ==> Updated(es[k], rates).Failure?
  {
    FirstFailureFromUpdates(es, 0, rates);
    FirstFailureFrom(es, 0, rates)
  }

  /** The search for the first failure, from index `from` on. */
  function FirstFailureFrom(es: seq<Entry>, from: nat, rates: Rates): (k: nat)
    requires from <= |es|
    ensures from <= k <= |es|
    ensures k < |es| ==> Updated(es[k], rates).Failure?
    decreases |es| - from
  {
    if from == |es| then from
    else if Updated(es[from], rates).Failure? then from
    else FirstFailureFrom(es, from + 1, rates)
  }

  /** Every entry the search passes over is updated. */
  lemma {:induction false} FirstFailureFromUpdates(es: seq<Entry>, from: nat, rates: Rates)
    requires from <= |es|
    ensures forall i {:trigger Updated(es[i], rates)} :: from <= i < FirstFailureFrom(es, from, rates) ==> Updated(es[i], rates).Success?
    decreases |es| - from
  {
    var k := FirstFailureFrom(es, from, rates);
    if from < |es| && Updated(es[from], rates).Success? {
      assert k == FirstFailureFrom(es, from + 1, rates);
      FirstFailureFromUpdates(es, from + 1, rates);
      forall i | from <= i < k
        ensures Updated(es[i], rates).Success?
      {
        if i == from {
          assert Updated(es[from], rates).Success?;
        } else {
          assert from + 1 <= i < FirstFailureFrom(es, from + 1, rates);
        }
      }
    } else {
      assert k == from;
    }
  }

  /** The first failure is at `k` when every entry before `k` is updated and
      the one at `k` is not; there is none when every entry is updated. */
  lemma FirstFailureAt(es: seq<Entry>, k: nat, done: seq<Entry>, rates: Rates)
    requires k <= |es| && Processed(es[..k], done, rates)
    requires k < |es| ==> Updated(es[k], rates).Failure?
    ensures FirstFailure(es, rates) == k
  {
    forall j | 0 <= j < k
      ensures Updated(es[j], rates).Success?
    {
      assert es[..k][j] == es[j];
      assert Updated(es[..k][j], rates) == Success(done[j]);
    }
  }

  /** `after` is the state of the entries when the pass stops at entry `k`:
      the entries before `k` are updated, entry `k` has its default times
      filled in, and the entries after it are untouched. */
  ghost predicate StoppedAt(before: seq<Entry>, after: seq<Entry>, k: nat, rates: Rates) {
    && k < |before| == |after|
    && Processed(before[..k], after[..k], rates)
    && after[k] == WithDefaults(before[k])
    && after[k + 1..] == before[k + 1..]
  }

  /** One more entry updated, in the pass's view of the entry array. */
  lemma Advanced(input: seq<Entry>, done: seq<Entry>, updated: Entry, rates: Rates)
    requires |done| < |input|
    requires Processed(input[..|done|], done, rates)
    requires Updated(input[|done|], rates) == Success(updated)
    ensures Processed(input[..|done| + 1], done + [updated], rates)
    ensures (done + input[|done|..])[|done| := updated] == (done + [updated]) + input[|done| + 1..]
  {
    var k := |done|;
    forall j | 0 <= j < k + 1
      ensures Updated(input[..k + 1][j], rates) == Success((done + [updated])[j])
    {
      if j < k {
        assert input[..k + 1][j] == input[..k][j];
        assert Updated(input[..k][j], rates) == Success(done[j]);
      }
    }
    Splice(done, input[k..], updated);
    assert input[k..][1..] == input[k + 1..];
  }

  lemma Splice<T>(prefix: seq<T>, rest: seq<T>, x: T)
    requires rest != []
    ensures (prefix + rest)[|prefix| := x] == (prefix + [x]) + rest[1..]
  {
  }

  /** The pass's view of the entry array when it stops at entry `|done|`. */
  lemma Stopped(input: seq<Entry>, done: seq<Entry>, entry: Entry, rates: Rates)
    requires |done| < |input|
    requires Processed(input[..|done|], done, rates)
    requires entry == WithDefaults(input[|done|])
    ensures StoppedAt(input, (done + input[|done|..])[|done| := entry], |done|, rates)
  {
    var after := (done + input[|done|..])[|done| := entry];
    assert after[..|done|] == done;
    assert after[|done| + 1..] == input[|done| + 1..];
  }

  /** The pass's view of the entry array when the entry after the updated
      prefix `done` fails: it has stopped at the first failure. */
  lemma StoppedAtFirstFailure(input: seq<Entry>, done: seq<Entry>, rates: Rates)
    requires |done| < |input|
    requires Processed(input[..|done|], done, rates)
    requires Updated(input[|done|], rates).Failure?
    ensures var k := FirstFailure(input, rates);
      && k == |done|
      && StoppedAt(input, (done + input[|done|..])[|done| := WithDefaults(input[|done|])], k, rates)
      && Updated(input[|done|], rates).error == Updated(input[k], rates).error
  {
    FirstFailureAt(input, |done|, done, rates);
    Stopped(input, done, WithDefaults(input[|done|]), rates);
  }

  /** The report.  The reimbursement constants and the descriptive fields are
      constants: the calculation pass changes only the entries, in place, and
      the totals. */
  class Details {
    const author: string
    const company: string
    const signatureImage: string
    const centPerKm: nat
    const smallCateringMoney: nat
    const bigCateringMoney: nat
    const documentDate: Date
    const month: string
    const entries: array<Entry>
    var totals: TotalValues

    /** The report as loaded; `totals` is `NoTotals` when the input has none. */
    constructor (author: string, company: string, signatureImage: string,
                 centPerKm: nat, smallCateringMoney: nat, bigCateringMoney: nat,
                 documentDate: Date, month: string, entries: seq<Entry>, totals: TotalValues)
      ensures this.author == author && this.company == company && this.signatureImage == signatureImage
      ensures this.centPerKm == centPerKm && this.smallCateringMoney == smallCateringMoney
      ensures this.bigCateringMoney == bigCateringMoney
      ensures this.documentDate == documentDate && this.month == month
      ensures fresh(this.entries) && this.entries[..] == entries
      ensures this.totals == totals
    {
      this.author := author;
      this.company := company;
      this.signatureImage := signatureImage;
      this.centPerKm := centPerKm;
      this.smallCateringMoney := smallCateringMoney;
      this.bigCateringMoney := bigCateringMoney;
      this.documentDate := documentDate;
      this.month := month;
      this.entries := new Entry[|entries|](i requires 0 <= i < |entries| => entries[i]);
      this.totals := totals;
    }

    /** The reimbursement constants the pass reads. */
    function Constants(): Rates {
      Rates(centPerKm, smallCateringMoney, bigCateringMoney)
    }

    /** One step of the pass: entry `i` gets its default times filled in,
        which stay even when the times do not resolve, and on success its
        calculated values.  No other entry changes. */
    method UpdateEntry(i: nat) returns (r: Result<CalculatedValues, TimeError>)
      requires i < entries.Length
      modifies entries
      ensures r.Failure? ==> Updated(old(entries[i]), Constants()) == Failure(r.error)
      ensures r.Failure? ==> entries[..] == old(entries[..])[i := WithDefaults(old(entries[i]))]
      ensures r.Success? ==> Updated(old(entries[i]), Constants()) == Success(entries[i])
      ensures r.Success? ==> entries[..] == old(entries[..])[i := entries[i]] && entries[i].calculated == r.value
    {
      ghost var before := entries[..];
      ghost var original := entries[i];
      var entry := WithDefaults(entries[i]);
      entries[i] := entry;
      assert entries[..] == before[i := entry];

      var span := Resolve(entry.startTime.value, entry.endTime.value);
      if span.Failure? {
        UpdatedFails(original, Constants());
        return Failure(span.error);
      }

      var totalHours := WholeHours(span.value);
      var cateringMoney := CateringMoney(totalHours, smallCateringMoney, bigCateringMoney);
      var travelMoney := TravelMoney(entry.traveledKm, centPerKm);
      var values := CalculatedValues(totalHours, cateringMoney, travelMoney);
      entries[i] := entry.(calculated := values);
      assert entries[..] == before[i := entry.(calculated := values)];
      UpdatedBySpan(original, Constants(), span.value);
      r := Success(values);
    }

    /** The calculation pass.  On success every entry is updated in place and
        the totals are the sums over the updated entries; the totals present
        before are never read.  On failure the pass has stopped at the first
        entry that cannot be updated, after filling in that entry's default
        times; the entries before it are updated, those after it untouched,
        and the totals not yet written. */
    method Calculate() returns (outcome: Outcome<TimeError>)
      modifies this, entries
      ensures outcome.Pass? <==> FirstFailure(old(entries[..]), Constants()) == entries.Length
      ensures outcome.Pass? ==> Processed(old(entries[..]), entries[..], Constants())
      ensures outcome.Pass? ==> totals == Totals(entries[..])
      ensures outcome.Fail? ==>
        var k := FirstFailure(old(entries[..]), Constants());
        && StoppedAt(old(entries[..]), entries[..], k, Constants())
        && outcome.error == Updated(old(entries[..])[k], Constants()).error
        && totals == old(totals)
    {
      ghost var input := entries[..];
      ghost var done: seq<Entry> := [];
      var totalCateringMoney := 0;
      var totalTravelMoney := 0;
      var totalTravelDistanceKm := 0;
      var totalMoney := 0;

      var i := 0;
      while i < entries.Length
        invariant 0 <= i <= entries.Length && |done| == i
        invariant entries[..] == done + input[i..]
        invariant Processed(input[..i], done, Constants())
        invariant totalTravelDistanceKm == SumKm(done)
        invariant totalTravelMoney == SumTravelMoney(done)
        invariant totalCateringMoney == SumCateringMoney(done)
        invariant totalMoney == SumMoney(done)
        invariant totals == old(totals)
      {
        assert entries[i] == input[i];
        var result := UpdateEntry(i);
        if result.Failure? {
          assert entries[..] == (done + input[i..])[i := WithDefaults(input[i])];
          StoppedAtFirstFailure(input, done, Constants());
          outcome := Fail(result.error);
          return;
        }
        var updated := entries[i];
        var values := result.value;
        totalTravelMoney := totalTravelMoney + values.travelMoney;
        totalCateringMoney := totalCateringMoney + values.cateringMoney;
        totalTravelDistanceKm := totalTravelDistanceKm + updated.traveledKm;
        totalMoney := totalMoney + (values.travelMoney + values.cateringMoney);

        Advanced(input, done, updated, Constants());
        SumsAppend(done, updated);
        done := done + [updated];
        i := i + 1;
      }

      totals := TotalValues(totalTravelDistanceKm, totalTravelMoney, totalCateringMoney, totalMoney);
      assert input[..i] == input && entries[..] == done;
      FirstFailureAt(input, i, done, Constants());
      outcome := Pass;
    }
  }
}
