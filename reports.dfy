/**
 * The report decoder: one page of the meter's report `{un, tm, dt, val}`
 * becomes a sequence of timestamped readings.
 *
 * Slot `i` of `val` stands for the time `tm + i * dt`; the running timestamp
 * advances by `dt` for every slot, whether or not the slot yields a reading.
 * The logger (`LoggerRule`) skips empty samples and the `*` sentinel and reads
 * the others with `float` after turning decimal commas into points; the
 * legacy script (`LegacyRule`) skips only empty samples and reads the others with
 * `int`. A sample that neither is skipped nor parses raises in Python, which
 * ends the decoding of the page: the model returns `MalformedSample` with
 * the slot's index.
 */
module Reports {
  import opened Wrappers
  import opened Samples

  /** One decoded reading: a row `{time, energy_consumption, unit}`, time in seconds. */
  datatype Reading = Reading(time: int, energy: Decimal, unit: string)

  /** One page of the meter's report: unit, anchor time in seconds, interval in seconds, samples. */
  datatype Report = Report(un: string, tm: int, dt: int, val: seq<string>)

  /**
   * How a decoder treats a sample: which samples are missing (yield no
   * reading), and the value of the others (`None` where Python raises).
   */
  datatype SampleRule = SampleRule(missing: string -> bool, parse: string -> Option<Decimal>)

  datatype DecodeError = MalformedSample(index: nat)

  /** The legacy script's `int(val)`, as an exact decimal of scale 0. */
  function IntSample(s: string): Option<Decimal> {
    match ParseInt(s)
    case None => None
    case Some(n) => Some(Decimal(n, 0))
  }

  /** The logger: `if val and val != '*'`, then `float(val.replace(',', '.'))`. */
  const LoggerRule := SampleRule(s => s == "" || s == "*", DecimalSample)

  /** The legacy script: `if val`, then `int(val)`. */
  const LegacyRule := SampleRule(s => s == "", IntSample)

  /** The time slot `i` of a report stands for. */
  function SlotTime(r: Report, i: int): int {
    r.tm + i * r.dt
  }

  /** Decoding of the first `n` samples, as the loop has done it after `n` iterations. */
  function DecodePrefix(rule: SampleRule, r: Report, n: nat): Result<seq<Reading>, DecodeError>
    requires n <= |r.val|
  {
    if n == 0 then Ok([])
    else
      match DecodePrefix(rule, r, n - 1)
      case Err(e) => Err(e)
      case Ok(rs) =>
        var s := r.val[n - 1];
        if rule.missing(s) then Ok(rs)
        else
          match rule.parse(s)
          case None => Err(MalformedSample(n - 1))
          case Some(v) => Ok(rs + [Reading(SlotTime(r, n - 1), v, r.un)])
  }

  /** `convert_data`: the readings of a whole report, or the first malformed slot. */
  function Decode(rule: SampleRule, r: Report): Result<seq<Reading>, DecodeError> {
    DecodePrefix(rule, r, |r.val|)
  }

  /**
   * The slots among the first `n` that yield a reading, in increasing order:
   * exactly the slots below `n` whose sample is not missing.
   */
  function PresentSlots(rule: SampleRule, val: seq<string>, n: nat): (slots: seq<nat>)
    requires n <= |val|
    ensures forall k :: 0 <= k < |slots| ==> slots[k] < n && !rule.missing(val[slots[k]])
    ensures forall j, k :: 0 <= j < k < |slots| ==> slots[j] < slots[k]
    ensures forall i :: 0 <= i < n && !rule.missing(val[i]) ==> i in slots
  {
    if n == 0 then []
    else if rule.missing(val[n - 1]) then PresentSlots(rule, val, n - 1)
    else PresentSlots(rule, val, n - 1) + [n - 1]
  }

  /** Every sample of the first `n` that is not missing parses. */
  predicate PresentParse(rule: SampleRule, val: seq<string>, n: nat)
    requires n <= |val|
  {
    forall i :: 0 <= i < n && !rule.missing(val[i]) ==> rule.parse(val[i]).Some?
  }

  /** The reading slot `i` yields, once its sample is known to parse. */
  function ReadingAt(rule: SampleRule, r: Report, i: nat): Reading
    requires i < |r.val| && rule.parse(r.val[i]).Some?
  {
    Reading(SlotTime(r, i), rule.parse(r.val[i]).value, r.un)
  }

  // ---------------------------------------------------------------------------
  // The decoder against its reference description

  /**
   * Decoding the first `n` slots succeeds exactly when every present sample
   * among them parses; it then yields one reading per present slot, in slot
   * order, each at its slot's time and with the report's unit; otherwise it
   * names the first slot whose sample does not parse.
   */
  lemma {:induction false} DecodePrefixMeaning(rule: SampleRule, r: Report, n: nat)
    requires n <= |r.val|
    ensures DecodePrefix(rule, r, n).Ok? <==> PresentParse(rule, r.val, n)
    ensures DecodePrefix(rule, r, n).Ok? ==>
      var rs, slots := DecodePrefix(rule, r, n).value, PresentSlots(rule, r.val, n);
      && |rs| == |slots|
      && forall k :: 0 <= k < |rs| ==> rule.parse(r.val[slots[k]]).Some? && rs[k] == ReadingAt(rule, r, slots[k])
    ensures DecodePrefix(rule, r, n).Err? ==>
      var e := DecodePrefix(rule, r, n).error.index;
      && e < n && !rule.missing(r.val[e]) && rule.parse(r.val[e]).None?
      && PresentParse(rule, r.val, e)
  {
    if n > 0 {
      DecodePrefixMeaning(rule, r, n - 1);
      var s := r.val[n - 1];
      if DecodePrefix(rule, r, n - 1).Ok? && !rule.missing(s) && rule.parse(s).Some? {
        var rs := DecodePrefix(rule, r, n - 1).value;
        var slots := PresentSlots(rule, r.val, n - 1);
        assert DecodePrefix(rule, r, n).value == rs + [ReadingAt(rule, r, n - 1)];
        assert PresentSlots(rule, r.val, n) == slots + [n - 1];
      }
      if DecodePrefix(rule, r, n - 1).Err? {
        var e := DecodePrefix(rule, r, n - 1).error.index;
        assert !PresentParse(rule, r.val, n) by {
          assert e < n && !rule.missing(r.val[e]) && rule.parse(r.val[e]).None?;
        }
      }
    }
  }

  /** Decoding succeeds exactly when every sample that is not missing parses. */
  lemma DecodeSucceedsIff(rule: SampleRule, r: Report)
    ensures Decode(rule, r).Ok? <==> PresentParse(rule, r.val, |r.val|)
  {
    DecodePrefixMeaning(rule, r, |r.val|);
  }

  /**
   * On success there is exactly one reading per present slot, in input order,
   * each at time `tm + i * dt` for its slot `i`, with the sample's value and
   * the report's unit.
   */
  lemma DecodeReadings(rule: SampleRule, r: Report)
    requires Decode(rule, r).Ok?
    ensures var rs, slots := Decode(rule, r).value, PresentSlots(rule, r.val, |r.val|);
      && |rs| == |slots|
      && forall k :: 0 <= k < |rs| ==>
           && rs[k].time == r.tm + slots[k] * r.dt
           && Some(rs[k].energy) == rule.parse(r.val[slots[k]])
           && rs[k].unit == r.un
  {
    DecodePrefixMeaning(rule, r, |r.val|);
  }

  /** On failure the error names the first slot whose sample is present and does not parse. */
  lemma DecodeFailsAtFirstMalformed(rule: SampleRule, r: Report)
    requires Decode(rule, r).Err?
    ensures var e := Decode(rule, r).error.index;
      && e < |r.val| && !rule.missing(r.val[e]) && rule.parse(r.val[e]).None?
      && forall i :: 0 <= i < e && !rule.missing(r.val[i]) ==> rule.parse(r.val[i]).Some?
  {
    DecodePrefixMeaning(rule, r, |r.val|);
  }

  // ---------------------------------------------------------------------------
  // Consequences

  /** Every reading carries the report's unit. */
  lemma DecodeUnits(rule: SampleRule, r: Report)
    requires Decode(rule, r).Ok?
    ensures forall x :: x in Decode(rule, r).value ==> x.unit == r.un
  {
    DecodeReadings(rule, r);
  }

  /** With no missing sample, there is one reading per slot, the `i`-th at `tm + i * dt`. */
  lemma DecodeWithoutGaps(rule: SampleRule, r: Report)
    requires forall i :: 0 <= i < |r.val| ==> !rule.missing(r.val[i])
    requires Decode(rule, r).Ok?
    ensures |Decode(rule, r).value| == |r.val|
    ensures forall i :: 0 <= i < |r.val| ==> Decode(rule, r).value[i].time == SlotTime(r, i)
  {
    DecodeReadings(rule, r);
    PresentSlotsAll(rule, r.val, |r.val|);
  }

  /** With no missing sample below `n`, the present slots are `0, 1, …, n-1`. */
  lemma {:induction false} PresentSlotsAll(rule: SampleRule, val: seq<string>, n: nat)
    requires n <= |val|
    requires forall i :: 0 <= i < n ==> !rule.missing(val[i])
    ensures |PresentSlots(rule, val, n)| == n
    ensures forall k :: 0 <= k < n ==> PresentSlots(rule, val, n)[k] == k
  {
    if n > 0 {
      PresentSlotsAll(rule, val, n - 1);
    }
  }

  /** A present first sample yields the first reading, at the anchor time `tm`. */
  lemma DecodeFirstAtAnchor(rule: SampleRule, r: Report)
    requires |r.val| > 0 && !rule.missing(r.val[0])
    requires Decode(rule, r).Ok?
    ensures |Decode(rule, r).value| > 0 && Decode(rule, r).value[0].time == r.tm
  {
    DecodeReadings(rule, r);
    var slots := PresentSlots(rule, r.val, |r.val|);
    assert 0 in slots;
    var k :| 0 <= k < |slots| && slots[k] == 0;
    assert slots[0] <= slots[k];
  }

  lemma SlotTimesIncrease(r: Report, i: int, j: int)
    requires r.dt > 0 && i < j
    ensures SlotTime(r, i) < SlotTime(r, j)
  {
    assert j * r.dt - i * r.dt == (j - i) * r.dt;
  }

  /** With a positive interval, the readings' times strictly increase. */
  lemma DecodeTimesIncrease(rule: SampleRule, r: Report)
    requires r.dt > 0
    requires Decode(rule, r).Ok?
    ensures var rs := Decode(rule, r).value;
      forall j, k :: 0 <= j < k < |rs| ==> rs[j].time < rs[k].time
  {
    DecodeReadings(rule, r);
    var rs, slots := Decode(rule, r).value, PresentSlots(rule, r.val, |r.val|);
    forall j, k | 0 <= j < k < |rs| ensures rs[j].time < rs[k].time {
      SlotTimesIncrease(r, slots[j], slots[k]);
    }
  }

  /** Two rules that agree on every sample of a report decode it alike. */
  lemma {:induction false} DecodePrefixAgree(rule1: SampleRule, rule2: SampleRule, r: Report, n: nat)
    requires n <= |r.val|
    requires forall i :: 0 <= i < n ==>
      && (rule1.missing(r.val[i]) <==> rule2.missing(r.val[i]))
      && (!rule1.missing(r.val[i]) ==> rule1.parse(r.val[i]) == rule2.parse(r.val[i]))
    ensures DecodePrefix(rule1, r, n) == DecodePrefix(rule2, r, n)
  {
    if n > 0 {
      DecodePrefixAgree(rule1, rule2, r, n - 1);
    }
  }

  // ---------------------------------------------------------------------------
  // The loop of `convert_data`

  lemma {:induction false} ErrorPersists(rule: SampleRule, r: Report, n: nat, m: nat)
    requires n <= m <= |r.val|
    requires DecodePrefix(rule, r, n).Err?
    ensures DecodePrefix(rule, r, m) == DecodePrefix(rule, r, n)
    decreases m - n
  {
    if m > n {
      ErrorPersists(rule, r, n, m - 1);
    }
  }

  /**
   * `convert_data`: walks the samples with a running timestamp that starts at
   * `tm` and grows by `dt` per slot, appending a reading for every sample
   * that is not missing, and stops at the first sample that does not parse.
   */
  method ConvertData(rule: SampleRule, r: Report) returns (res: Result<seq<Reading>, DecodeError>)
    ensures res == Decode(rule, r)
  {
    var readings: seq<Reading> := [];
    var timestamp := r.tm;
    var i := 0;
    while i < |r.val|
      invariant 0 <= i <= |r.val|
      invariant timestamp == SlotTime(r, i)
      invariant DecodePrefix(rule, r, i) == Ok(readings)
    {
      var s := r.val[i];
      if !rule.missing(s) {
        var v := rule.parse(s);
        if v.None? {
          ErrorPersists(rule, r, i + 1, |r.val|);
          return Err(MalformedSample(i));
        }
        readings := readings + [Reading(timestamp, v.value, r.un)];
      }
      timestamp := timestamp + r.dt;
      i := i + 1;
    }
    return Ok(readings);
  }

  // ---------------------------------------------------------------------------
  // Concrete reports

  /** A report whose samples are all present and all parse: one reading per slot. */
  lemma DecodeAllPresent(rule: SampleRule, r: Report)
    requires forall i :: 0 <= i < |r.val| ==> !rule.missing(r.val[i]) && rule.parse(r.val[i]).Some?
    ensures Decode(rule, r).Ok?
    ensures |Decode(rule, r).value| == |r.val|
    ensures forall i :: 0 <= i < |r.val| ==> Decode(rule, r).value[i] == ReadingAt(rule, r, i)
  {
    DecodeSucceedsIff(rule, r);
    DecodeReadings(rule, r);
    PresentSlotsAll(rule, r.val, |r.val|);
    var rs := Decode(rule, r).value;
    forall k | 0 <= k < |rs| ensures rs[k] == ReadingAt(rule, r, k) {
      assert PresentSlots(rule, r.val, |r.val|)[k] == k;
    }
  }

  /** Two present samples that parse give two readings, `dt` apart from the anchor. */
  lemma DecodePair(rule: SampleRule, un: string, tm: int, dt: int, a: string, b: string, va: Decimal, vb: Decimal)
    requires !rule.missing(a) && rule.parse(a) == Some(va)
    requires !rule.missing(b) && rule.parse(b) == Some(vb)
    ensures Decode(rule, Report(un, tm, dt, [a, b])) == Ok([Reading(tm, va, un), Reading(tm + dt, vb, un)])
  {
    var r := Report(un, tm, dt, [a, b]);
    assert r.val[0] == a && r.val[1] == b;
    assert SlotTime(r, 0) == tm && SlotTime(r, 1) == tm + dt;
    assert DecodePrefix(rule, r, 0) == Ok([]);
    assert rule.parse(r.val[0]) == Some(va);
    assert !rule.missing(r.val[0]);
    assert [] + [Reading(tm, va, un)] == [Reading(tm, va, un)];
    assert DecodePrefix(rule, r, 1) == Ok([Reading(tm, va, un)]);
    assert rule.parse(r.val[1]) == Some(vb);
    assert !rule.missing(r.val[1]);
    assert [Reading(tm, va, un)] + [Reading(tm + dt, vb, un)] == [Reading(tm, va, un), Reading(tm + dt, vb, un)];
    assert DecodePrefix(rule, r, 2) == Ok([Reading(tm, va, un), Reading(tm + dt, vb, un)]);
  }

  /** A missing middle sample yields nothing, but the third reading is still at `tm + 2 * dt`. */
  lemma DecodeGap(rule: SampleRule, un: string, tm: int, dt: int, a: string, m: string, b: string, va: Decimal, vb: Decimal)
    requires !rule.missing(a) && rule.parse(a) == Some(va)
    requires rule.missing(m)
    requires !rule.missing(b) && rule.parse(b) == Some(vb)
    ensures Decode(rule, Report(un, tm, dt, [a, m, b])) == Ok([Reading(tm, va, un), Reading(tm + 2 * dt, vb, un)])
  {
    var r := Report(un, tm, dt, [a, m, b]);
    assert r.val[0] == a && r.val[1] == m && r.val[2] == b;
    assert SlotTime(r, 0) == tm && SlotTime(r, 2) == tm + 2 * dt;
    assert DecodePrefix(rule, r, 0) == Ok([]);
    assert rule.parse(r.val[0]) == Some(va);
    assert !rule.missing(r.val[0]);
    assert [] + [Reading(tm, va, un)] == [Reading(tm, va, un)];
    assert DecodePrefix(rule, r, 1) == Ok([Reading(tm, va, un)]);
    assert rule.missing(r.val[1]);
    assert DecodePrefix(rule, r, 2) == Ok([Reading(tm, va, un)]);
    assert rule.parse(r.val[2]) == Some(vb);
    assert !rule.missing(r.val[2]);
    assert [Reading(tm, va, un)] + [Reading(tm + 2 * dt, vb, un)] == [Reading(tm, va, un), Reading(tm + 2 * dt, vb, un)];
    assert DecodePrefix(rule, r, 3) == Ok([Reading(tm, va, un), Reading(tm + 2 * dt, vb, un)]);
  }

  /** The unit test's report, for any two samples that read as 27.1 and 33. */
  lemma UnitTestReportOf(tm: int, a: string, b: string)
    requires a != "" && a != "*" && DecimalSample(a) == Some(Decimal(271, 1))
    requires b != "" && b != "*" && DecimalSample(b) == Some(Decimal(33, 0))
    ensures Decode(LoggerRule, Report("Watt", tm, 3600, [a, b]))
         == Ok([Reading(tm, Decimal(271, 1), "Watt"), Reading(tm + 3600, Decimal(33, 0), "Watt")])
  {
    DecodePair(LoggerRule, "Watt", tm, 3600, a, b, Decimal(271, 1), Decimal(33, 0));
  }

  /**
   * The report of the logger's unit test, `[' 27,1', ' 33']` at hourly slots:
   * two readings, 27.1 and 33, the first at the anchor time.
   */
  lemma DecodeUnitTestReport(tm: int)
    ensures Decode(LoggerRule, Report("Watt", tm, 3600, [" 27,1", " 33"]))
         == Ok([Reading(tm, Decimal(271, 1), "Watt"), Reading(tm + 3600, Decimal(33, 0), "Watt")])
  {
    UnitTestSamples();
    UnitTestReportOf(tm, " 27,1", " 33");
  }

  /**
   * The logger skips a `*` sentinel but still advances the clock: of the
   * samples `a, *, b`, the second reading is at `tm + 2 * dt`.
   */
  lemma DecodeSkipsSentinel(un: string, tm: int, dt: int, a: string, b: string, va: Decimal, vb: Decimal)
    requires a != "" && a != "*" && DecimalSample(a) == Some(va)
    requires b != "" && b != "*" && DecimalSample(b) == Some(vb)
    ensures Decode(LoggerRule, Report(un, tm, dt, [a, "*", b])) == Ok([Reading(tm, va, un), Reading(tm + 2 * dt, vb, un)])
  {
    DecodeGap(LoggerRule, un, tm, dt, a, "*", b, va, vb);
  }

  /** A sample of spaces only is not missing (it is not empty) and does not parse: the page fails. */
  lemma DecodeRejectsBlankSample(r: Report, i: nat)
    requires i < |r.val| && r.val[i] != [] && AllSpace(r.val[i])
    ensures Decode(LoggerRule, r).Err?
  {
    assert NormaliseCommas(r.val[i]) != [] && AllSpace(NormaliseCommas(r.val[i]));
    ParseFloatRejectsBlank(NormaliseCommas(r.val[i]));
    assert r.val[i] != "*" by { assert r.val[i][0] != '*'; }
    DecodeSucceedsIff(LoggerRule, r);
  }
}
