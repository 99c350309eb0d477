/** The classification loop of the `/ocr` handler (app.py): every extracted
    pair is parsed, its unit corrected and range-checked, and the resulting
    measurement inserted into a store that holds each `(value, unit)` at
    most once; every pair ends up either inserted or skipped with a reason. */
module Pipeline {
  import opened Text
  import opened Numbers
  import opened Units
  import opened Extract

  /** A stored row of `dbo.Results`. */
  datatype Measurement = Measurement(value: real, unit: string)

  /** The table's contents; the `UNIQUE ([value], unit)` constraint makes it
      a set. */
  type Store = set<Measurement>

  /** Why a pair was skipped. */
  datatype Reason = UnknownUnit | OutOfRange(min: real, max: real) | DuplicateValue | InvalidNumber

  /** The value a skip entry shows: the parsed number, or the raw numeral
      when it did not parse. */
  datatype Shown = Number(x: real) | RawText(t: string)

  /** An entry of `skipped`. */
  datatype Skip = Skip(value: Shown, unit: string, reason: Reason)

  /** What the checks before the insert decide. */
  datatype Verdict = Accept(m: Measurement) | Reject(skip: Skip)

  /** What became of one pair. */
  datatype Outcome = Inserted(m: Measurement) | Skipped(skip: Skip)

  datatype StepResult = StepResult(outcome: Outcome, store: Store)

  /** Per-pair outcomes in pair order, and the store afterwards. */
  datatype Batch = Batch(outcomes: seq<Outcome>, store: Store)

  /** The response of the handler once the text is read. */
  datatype Response = NoPairsFound | Saved(inserted: seq<Measurement>, skipped: seq<Skip>)

  datatype OcrResult = OcrResult(response: Response, store: Store)

  /** The inclusive plausible range of the measurement's unit. */
  predicate InRange(m: Measurement)
  {
    m.unit in UnitThresholds && UnitThresholds[m.unit].min <= m.value <= UnitThresholds[m.unit].max
  }

  /** The number a raw numeral denotes once `,` is read as `.`. */
  function ValueOf(raw: string): Option<real>
  {
    ParseNumber(ReplaceChar(raw, ',', '.'))
  }

  /** The checks of one loop iteration before the insert, in source order:
      parse the number, correct the unit, check the range.  A corrected
      unit without a threshold would be accepted unchecked. */
  function Validate(pair: RawPair): (v: Verdict)
    ensures v.Accept? ==> InRange(v.m)
  {
    match ValueOf(pair.value)
    case None => Reject(Skip(RawText(pair.value), pair.unit, InvalidNumber))
    case Some(x) =>
      match CorrectUnit(pair.unit)
      case None => Reject(Skip(Number(x), pair.unit, UnknownUnit))
      case Some(u) =>
        if u in UnitThresholds && !(UnitThresholds[u].min <= x <= UnitThresholds[u].max) then
          Reject(Skip(Number(x), u, OutOfRange(UnitThresholds[u].min, UnitThresholds[u].max)))
        else
          Accept(Measurement(x, u))
  }

  /** A pair is accepted exactly when its numeral parses, its unit corrects,
      and the value lies in the corrected unit's range; each rejection
      names the first check that failed. */
  lemma ValidateIff(pair: RawPair)
    ensures Validate(pair).Accept? <==>
              && ValueOf(pair.value).Some?
              && CorrectUnit(pair.unit).Some?
              && InRange(Measurement(ValueOf(pair.value).value, CorrectUnit(pair.unit).value))
    ensures Validate(pair).Accept? ==>
              Validate(pair).m == Measurement(ValueOf(pair.value).value, CorrectUnit(pair.unit).value)
    ensures Validate(pair).Reject? ==>
              match Validate(pair).skip.reason
              case InvalidNumber => ValueOf(pair.value).None?
              case UnknownUnit => ValueOf(pair.value).Some? && CorrectUnit(pair.unit).None?
              case OutOfRange(lo, hi) =>
                && ValueOf(pair.value).Some? && CorrectUnit(pair.unit).Some?
                && !InRange(Measurement(ValueOf(pair.value).value, CorrectUnit(pair.unit).value))
              case DuplicateValue => false
  {
    match ValueOf(pair.value)
    case None => ValidateUnparsable(pair);
    case Some(x) =>
      match CorrectUnit(pair.unit)
      case None => ValidateUnknownUnit(pair, x);
      case Some(u) => ValidateKnown(pair, x, u);
  }

  /** One branch of `Validate`, unfolded: a numeral that does not parse is
      skipped as it was read.  `ValidateIff` combines the three branches. */
  lemma ValidateUnparsable(pair: RawPair)
    requires ValueOf(pair.value).None?
    ensures Validate(pair) == Reject(Skip(RawText(pair.value), pair.unit, InvalidNumber))
  {
  }

  /** One branch of `Validate`, unfolded: a unit that does not correct is
      skipped under its raw spelling.  `ValidateIff` combines the three
      branches. */
  lemma ValidateUnknownUnit(pair: RawPair, x: real)
    requires ValueOf(pair.value) == Some(x) && CorrectUnit(pair.unit).None?
    ensures Validate(pair) == Reject(Skip(Number(x), pair.unit, UnknownUnit))
  {
  }

  /** One branch of `Validate`, unfolded: the verdict on a pair whose
      numeral and unit are known to read as `x` and `u`, with `u` a unit
      that has a range.  `ValidateIff` combines the three branches. */
  lemma ValidateKnown(pair: RawPair, x: real, u: string)
    requires ValueOf(pair.value) == Some(x) && CorrectUnit(pair.unit) == Some(u) && u in UnitThresholds
    ensures Validate(pair) ==
      if UnitThresholds[u].min <= x <= UnitThresholds[u].max then Accept(Measurement(x, u))
      else Reject(Skip(Number(x), u, OutOfRange(UnitThresholds[u].min, UnitThresholds[u].max)))
  {
  }
  /** Pairs `findall` extracts always parse, so `invalid number` is never
      reported for them. */
  lemma ExtractedPairsParse(txt: string, k: nat)
    requires k < |FindAll(txt)|
    ensures ValueOf(FindAll(txt)[k].value).Some?
    ensures Validate(FindAll(txt)[k]).Reject? ==> Validate(FindAll(txt)[k]).skip.reason != InvalidNumber
  {
    NumeralParses(FindAll(txt)[k].value);
  }

  /** The checks' verdict on every pair, in order. */
  function Verdicts(pairs: seq<RawPair>): (vs: seq<Verdict>)
    ensures |vs| == |pairs|
    ensures forall i :: 0 <= i < |pairs| ==> vs[i] == Validate(pairs[i])
  {
    seq(|pairs|, i requires 0 <= i < |pairs| => Validate(pairs[i]))
  }

  /** The insert of one loop iteration against the current store: an
      accepted measurement already stored is a duplicate, otherwise it is
      inserted. */
  function Step(store: Store, v: Verdict): (r: StepResult)
    ensures r.outcome.Inserted? <==> v.Accept? && v.m !in store
    ensures r.outcome.Inserted? ==> r.outcome.m == v.m && r.store == store + {v.m}
    ensures r.outcome.Skipped? ==> r.store == store
  {
    match v
    case Reject(sk) => StepResult(Skipped(sk), store)
    case Accept(m) =>
      if m in store then StepResult(Skipped(Skip(Number(m.value), m.unit, DuplicateValue)), store)
      else StepResult(Inserted(m), store + {m})
  }

  /** The `for raw_val, raw_u in pairs` loop on the verdicts: one outcome
      per pair, in order, with the store threaded through. */
  function Process(store: Store, vs: seq<Verdict>): (b: Batch)
    ensures |b.outcomes| == |vs|
    decreases |vs|
  {
    if |vs| == 0 then Batch([], store)
    else
      var b := Process(store, vs[..|vs| - 1]);
      var r := Step(b.store, vs[|vs| - 1]);
      Batch(b.outcomes + [r.outcome], r.store)
  }

  /** The loop over the pairs. */
  function Classify(store: Store, pairs: seq<RawPair>): (b: Batch)
    ensures |b.outcomes| == |pairs|
  {
    Process(store, Verdicts(pairs))
  }

  /** The measurements the checks accept. */
  function Accepted(vs: seq<Verdict>): set<Measurement>
  {
    set i | 0 <= i < |vs| && vs[i].Accept? :: vs[i].m
  }

  lemma AcceptedSnoc(vs: seq<Verdict>)
    requires |vs| > 0
    ensures var last := vs[|vs| - 1];
      Accepted(vs) == Accepted(vs[..|vs| - 1]) + (if last.Accept? then {last.m} else {})
  {
    var pre := vs[..|vs| - 1];
    var last := vs[|vs| - 1];
    var extra := if last.Accept? then {last.m} else {};
    forall m | m in Accepted(vs) ensures m in Accepted(pre) + extra {
      var i :| 0 <= i < |vs| && vs[i].Accept? && vs[i].m == m;
      if i < |pre| {
        assert pre[i] == vs[i];
      }
    }
    forall m | m in Accepted(pre) ensures m in Accepted(vs) {
      var i :| 0 <= i < |pre| && pre[i].Accept? && pre[i].m == m;
      assert vs[i] == pre[i];
    }
  }

  /** After the loop the store holds what it held before plus every
      accepted measurement: each was either inserted now or already there. */
  lemma {:induction false} ProcessStore(store: Store, vs: seq<Verdict>)
    ensures Process(store, vs).store == store + Accepted(vs)
    decreases |vs|
  {
    if |vs| > 0 {
      ProcessStore(store, vs[..|vs| - 1]);
      AcceptedSnoc(vs);
    }
  }

  /** The loop over a prefix of the verdicts produces a prefix of the
      outcomes. */
  lemma {:induction false} ProcessPrefix(store: Store, vs: seq<Verdict>, i: nat)
    requires i <= |vs|
    ensures Process(store, vs[..i]).outcomes == Process(store, vs).outcomes[..i]
    decreases |vs|
  {
    if i < |vs| {
      var pre := vs[..|vs| - 1];
      assert vs[..i] == pre[..i];
      ProcessPrefix(store, pre, i);
    } else {
      assert vs[..i] == vs;
    }
  }

  /** The `i`-th outcome is one step against the initial store together
      with everything accepted before position `i`. */
  lemma OutcomeAt(store: Store, vs: seq<Verdict>, i: nat)
    requires i < |vs|
    ensures Process(store, vs).outcomes[i] == Step(store + Accepted(vs[..i]), vs[i]).outcome
  {
    var pre := vs[..i + 1];
    assert pre[..i] == vs[..i] && pre[i] == vs[i];
    ProcessStore(store, vs[..i]);
    ProcessPrefix(store, vs, i + 1);
    assert Process(store, vs).outcomes[..i + 1][i] == Process(store, vs).outcomes[i];
  }

  /** A verdict leads to an insert exactly when it accepts a measurement
      neither stored before nor accepted at an earlier position. */
  lemma InsertedIff(store: Store, vs: seq<Verdict>, i: nat)
    requires i < |vs|
    ensures Process(store, vs).outcomes[i].Inserted? <==>
              && vs[i].Accept?
              && vs[i].m !in store
              && forall j :: 0 <= j < i ==> vs[j] != vs[i]
    ensures Process(store, vs).outcomes[i].Inserted? ==> Process(store, vs).outcomes[i].m == vs[i].m
  {
    OutcomeAt(store, vs, i);
    var pre := vs[..i];
    if vs[i].Accept? {
      var m := vs[i].m;
      if m in Accepted(pre) {
        var j :| 0 <= j < i && pre[j].Accept? && pre[j].m == m;
        assert pre[j] == vs[j];
      }
      if exists j :: 0 <= j < i && vs[j] == vs[i] {
        var j :| 0 <= j < i && vs[j] == vs[i];
        assert pre[j] == vs[j];
      }
    }
  }

  /** A pair is inserted exactly when the checks accept it and its
      measurement was neither stored before nor accepted from an earlier
      pair; what is inserted is in range. */
  lemma ClassifyInsertedIff(store: Store, pairs: seq<RawPair>, i: nat)
    requires i < |pairs|
    ensures Classify(store, pairs).outcomes[i].Inserted? <==>
              && Validate(pairs[i]).Accept?
              && Validate(pairs[i]).m !in store
              && forall j :: 0 <= j < i ==> Validate(pairs[j]) != Validate(pairs[i])
    ensures Classify(store, pairs).outcomes[i].Inserted? ==>
              Classify(store, pairs).outcomes[i].m == Validate(pairs[i]).m && InRange(Validate(pairs[i]).m)
  {
    InsertedIff(store, Verdicts(pairs), i);
  }

  /** A measurement accepted a second time is skipped as a duplicate, even
      when the two pairs spell it differently (`kg` and `kgm`, say). */
  lemma RepeatIsDuplicate(store: Store, pairs: seq<RawPair>, i: nat, j: nat)
    requires i < j < |pairs| && Validate(pairs[i]).Accept? && Validate(pairs[j]) == Validate(pairs[i])
    ensures var m := Validate(pairs[j]).m;
      Classify(store, pairs).outcomes[j] == Skipped(Skip(Number(m.value), m.unit, DuplicateValue))
  {
    var vs := Verdicts(pairs);
    OutcomeAt(store, vs, j);
    assert vs[..j][i] == vs[i];
  }

  /** A rejected pair is skipped with the checks' reason. */
  lemma RejectedIsSkipped(store: Store, pairs: seq<RawPair>, i: nat)
    requires i < |pairs| && Validate(pairs[i]).Reject?
    ensures Classify(store, pairs).outcomes[i] == Skipped(Validate(pairs[i]).skip)
  {
    OutcomeAt(store, Verdicts(pairs), i);
  }

  /** The `inserted` list. */
  function InsertedOf(os: seq<Outcome>): (r: seq<Measurement>)
    ensures |r| <= |os|
    ensures forall m :: m in r <==> Inserted(m) in os
  {
    if |os| == 0 then []
    else
      var rest := InsertedOf(os[..|os| - 1]);
      assert forall o :: o in os <==> o in os[..|os| - 1] || o == os[|os| - 1];
      if os[|os| - 1].Inserted? then rest + [os[|os| - 1].m] else rest
  }

  /** The `skipped` list. */
  function SkippedOf(os: seq<Outcome>): (r: seq<Skip>)
    ensures |r| <= |os|
    ensures forall sk :: sk in r <==> Skipped(sk) in os
  {
    if |os| == 0 then []
    else
      var rest := SkippedOf(os[..|os| - 1]);
      assert forall o :: o in os <==> o in os[..|os| - 1] || o == os[|os| - 1];
      if os[|os| - 1].Skipped? then rest + [os[|os| - 1].skip] else rest
  }

  /** Every outcome lands in exactly one of the two lists. */
  lemma {:induction false} SplitCounts(os: seq<Outcome>)
    ensures |InsertedOf(os)| + |SkippedOf(os)| == |os|
  {
    if |os| > 0 {
      SplitCounts(os[..|os| - 1]);
    }
  }

  /** What the loop reports and leaves behind: one entry per verdict, the
      inserted measurements are accepted ones new to the store and pairwise
      distinct, and the store grows by exactly them. */
  lemma ProcessSummary(store: Store, vs: seq<Verdict>)
    ensures |InsertedOf(Process(store, vs).outcomes)| + |SkippedOf(Process(store, vs).outcomes)| == |vs|
    ensures forall m :: m in InsertedOf(Process(store, vs).outcomes) ==> m !in store && m in Accepted(vs)
    ensures Process(store, vs).store == store + (set m | m in InsertedOf(Process(store, vs).outcomes))
    ensures var os := Process(store, vs).outcomes;
      forall i, j :: 0 <= i < j < |os| && os[i].Inserted? && os[j].Inserted? ==> os[i].m != os[j].m
  {
    var b := Process(store, vs);
    SplitCounts(b.outcomes);
    ProcessStore(store, vs);
    forall m | m in InsertedOf(b.outcomes) ensures m !in store && m in Accepted(vs) {
      var i :| 0 <= i < |b.outcomes| && b.outcomes[i] == Inserted(m);
      InsertedIff(store, vs, i);
    }
    forall m | m in Accepted(vs) && m !in store ensures m in InsertedOf(b.outcomes) {
      var i := FirstAccepting(vs, m);
      InsertedIff(store, vs, i);
    }
    forall i, j | 0 <= i < j < |b.outcomes| && b.outcomes[i].Inserted? && b.outcomes[j].Inserted?
      ensures b.outcomes[i].m != b.outcomes[j].m
    {
      InsertedIff(store, vs, i);
      InsertedIff(store, vs, j);
    }
  }

  /** The first position whose verdict accepts `m`. */
  function FirstAccepting(vs: seq<Verdict>, m: Measurement): (i: nat)
    requires m in Accepted(vs)
    ensures i < |vs| && vs[i] == Accept(m)
    ensures forall j :: 0 <= j < i ==> vs[j] != Accept(m)
  {
    if vs[0] == Accept(m) then 0
    else
      assert m in Accepted(vs[1..]) by {
        var i :| 0 <= i < |vs| && vs[i].Accept? && vs[i].m == m;
        assert vs[1..][i - 1] == vs[i];
      }
      var k := FirstAccepting(vs[1..], m);
      assert forall j :: 1 <= j <= k ==> vs[1..][j - 1] == vs[j];
      k + 1
  }

  /** `txt.lower().replace("µ", "u")`: how the OCR text is prepared. */
  function PrepareText(txt: string): string
  {
    ReplaceChar(Lower(txt), Micro, 'u')
  }

  /** The handler once the OCR text is known: no pairs gives `no pairs
      found` and leaves the store alone; otherwise the loop runs. */
  function Ocr(txt: string, store: Store): (r: OcrResult)
    ensures r.response.NoPairsFound? <==> FindAll(PrepareText(txt)) == []
    ensures r.response.NoPairsFound? ==> r.store == store
    ensures r.response.Saved? ==>
              |r.response.inserted| + |r.response.skipped| == |FindAll(PrepareText(txt))|
  {
    var pairs := FindAll(PrepareText(txt));
    if |pairs| == 0 then OcrResult(NoPairsFound, store)
    else
      var b := Classify(store, pairs);
      SplitCounts(b.outcomes);
      OcrResult(Saved(InsertedOf(b.outcomes), SkippedOf(b.outcomes)), b.store)
  }

  /** A saved response lists measurements that are in range, were not in
      the table before and are pairwise distinct, and the table grows by
      exactly them. */
  lemma OcrSaved(txt: string, store: Store)
    requires Ocr(txt, store).response.Saved?
    ensures var r := Ocr(txt, store);
      && (forall m :: m in r.response.inserted ==> m !in store && InRange(m))
      && r.store == store + (set m | m in r.response.inserted)
      && forall i, j :: 0 <= i < j < |r.response.inserted| ==> r.response.inserted[i] != r.response.inserted[j]
  {
    var pairs := FindAll(PrepareText(txt));
    var vs := Verdicts(pairs);
    var b := Process(store, vs);
    ProcessSummary(store, vs);
    forall m | m in InsertedOf(b.outcomes) ensures InRange(m) {
      var i :| 0 <= i < |vs| && vs[i].Accept? && vs[i].m == m;
      assert vs[i] == Validate(pairs[i]);
    }
    InsertedDistinct(b.outcomes);
  }

  /** The `inserted` list repeats nothing when the inserted outcomes are
      pairwise distinct. */
  lemma {:induction false} InsertedDistinct(os: seq<Outcome>)
    requires forall i, j :: 0 <= i < j < |os| && os[i].Inserted? && os[j].Inserted? ==> os[i].m != os[j].m
    ensures forall i, j :: 0 <= i < j < |InsertedOf(os)| ==> InsertedOf(os)[i] != InsertedOf(os)[j]
  {
    if |os| > 0 {
      var pre := os[..|os| - 1];
      InsertedDistinct(pre);
      if os[|os| - 1].Inserted? {
        var rest := InsertedOf(pre);
        forall i | 0 <= i < |rest| ensures rest[i] != os[|os| - 1].m {
          assert rest[i] in rest;
          var k :| 0 <= k < |pre| && pre[k] == Inserted(rest[i]);
          assert os[k] == pre[k];
        }
      }
    }
  }

  /* An example run of the handler: the text "23,5 kg 999 xq 1000000 mg"
     yields three pairs; the first is stored, the second is read as
     kilograms and is out of their range, the third is out of the range of
     milligrams. */

  /** The comma of "23,5" is read as a decimal point. */
  lemma ExampleCommaDecimal()
    ensures ValueOf("23,5") == Some(23.5)
  {
    var t := "23.5";
    assert ReplaceChar("23,5", ',', '.') == t;
    assert t[..2] == "23" && t[3..] == "5";
    assert "23"[..1] == "2";
    assert DigitsValue("23") == 23;
    ParseSplit(t, 2);
    assert Shifted(5, 1) == 0.5;
  }

  lemma ExampleThreeNines()
    ensures ValueOf("999") == Some(999.0)
  {
    ReplaceCharAbsent("999", ',', '.');
    ThreeNinesDigits();
  }

  lemma ThreeNinesDigits()
    ensures AllDigits("999") && DigitsValue("999") == 999
  {
    var t := "999";
    assert DigitsValue(t[..1]) == 9;
    assert t[..2][..1] == t[..1];
    assert DigitsValue(t[..2]) == 99;
    assert t[..3][..2] == t[..2];
    assert t[..3] == t;
  }

  lemma ExampleMillion()
    ensures ValueOf("1000000") == Some(1000000.0)
  {
    ReplaceCharAbsent("1000000", ',', '.');
    MillionDigits();
  }

  lemma MillionDigits()
    ensures AllDigits("1000000") && DigitsValue("1000000") == 1000000
  {
    var t := "1000000";
    assert DigitsValue(t[..1]) == 1;
    assert t[..2][..1] == t[..1];
    assert DigitsValue(t[..2]) == 10;
    assert t[..3][..2] == t[..2];
    assert DigitsValue(t[..3]) == 100;
    assert t[..4][..3] == t[..3];
    assert DigitsValue(t[..4]) == 1000;
    assert t[..5][..4] == t[..4];
    assert DigitsValue(t[..5]) == 10000;
    assert t[..6][..5] == t[..5];
    assert DigitsValue(t[..6]) == 100000;
    assert t[..7][..6] == t[..6];
    assert t[..7] == t;
  }

  lemma KilogramRange()
    ensures "kg" in UnitThresholds && UnitThresholds["kg"] == Range(0.0, 100.0)
  {
  }

  lemma MilligramRange()
    ensures "mg" in UnitThresholds && UnitThresholds["mg"] == Range(1.0, 1000.0)
  {
  }

  /** 23.5 kg is within the kilogram range and accepted. */
  lemma ExampleAccepted()
    ensures Validate(RawPair("23,5", "kg")) == Accept(Measurement(23.5, "kg"))
  {
    ExampleCommaDecimal();
    KilogramRange();
    ThresholdKeyFixed("kg");
    ValidateKnown(RawPair("23,5", "kg"), 23.5, "kg");
  }

  /** "xq" is corrected to "kg", and 999 is out of the kilogram range. */
  lemma ExampleMisreadOutOfRange()
    ensures Validate(RawPair("999", "xq")) == Reject(Skip(Number(999.0), "kg", OutOfRange(0.0, 100.0)))
  {
    ExampleThreeNines();
    KilogramRange();
    ExampleTwoLetterToken();
    ValidateKnown(RawPair("999", "xq"), 999.0, "kg");
  }

  /** A million milligrams is out of the milligram range. */
  lemma ExampleMilligramOutOfRange()
    ensures Validate(RawPair("1000000", "mg")) == Reject(Skip(Number(1000000.0), "mg", OutOfRange(1.0, 1000.0)))
  {
    ExampleMillion();
    MilligramRange();
    ThresholdKeyFixed("mg");
    ValidateKnown(RawPair("1000000", "mg"), 1000000.0, "mg");
  }

  /** The text of the example run. */
  const ScenarioText: string := "23,5 kg 999 xq 1000000 mg"

  /** The pairs `findall` reads from `ScenarioText` (`ExampleScenarioText`). */
  const Scenario: seq<RawPair> := [RawPair("23,5", "kg"), RawPair("999", "xq"), RawPair("1000000", "mg")]

  /** `findall` reads the three pairs of `Scenario` from the text, in order:
      the comma numeral whole, and the spaces before each unit skipped. */
  lemma ExampleScenarioText()
    ensures FindAll(ScenarioText) == Scenario
  {
    var s := ScenarioText;
    var s0, s1, s2 := Span(0, 4, 5, 7), Span(8, 11, 12, 14), Span(15, 22, 23, 25);
    ScenarioMatches();
    ScenarioFirstMatch();
    ScenarioSecondMatch();
    ScenarioThirdMatch();
    ScenarioSlices();
    PairsOfThree(s, s0, s1, s2);
  }

  lemma ScenarioMatches()
    ensures Matches(ScenarioText) == [Span(0, 4, 5, 7), Span(8, 11, 12, 14), Span(15, 22, 23, 25)]
  {
    ScenarioFirstMatch();
    ScenarioSecondMatch();
    ScenarioThirdMatch();
    ScenarioGaps();
    ScanThree(Attempts(ScenarioText), Span(0, 4, 5, 7), Span(8, 11, 12, 14), Span(15, 22, 23, 25));
  }

  /** Three matches separated by one failed attempt each, the last one
      ending the text. */
  lemma ScanThree(a: seq<Option<Span>>, s0: Span, s1: Span, s2: Span)
    requires Attempted(a) && 0 == s0.start < s0.end < s1.start < s1.end < s2.start < s2.end == |a|
    requires a[0] == Some(s0)
    requires s1.start == s0.end + 1 && a[s0.end].None? && a[s1.start] == Some(s1)
    requires s2.start == s1.end + 1 && a[s1.end].None? && a[s2.start] == Some(s2)
    ensures Scan(a, 0) == [s0, s1, s2]
  {
    assert Scan(a, s2.start) == [s2] + Scan(a, s2.end);
    assert Scan(a, s1.start) == [s1] + Scan(a, s1.end);
    assert Scan(a, 0) == [s0] + Scan(a, s0.end);
  }

  lemma ScenarioFirstMatch()
    ensures MatchAt(ScenarioText, 0) == Some(Span(0, 4, 5, 7))
  {
    var s := ScenarioText;
    assert s[..8] == "23,5 kg ";
    MatchAtRead(s, 0, 2, 4, 5, 7);
  }

  lemma ScenarioSecondMatch()
    ensures MatchAt(ScenarioText, 8) == Some(Span(8, 11, 12, 14))
  {
    var s := ScenarioText;
    assert s[8..15] == "999 xq ";
    MatchAtRead(s, 8, 11, 11, 12, 14);
  }

  lemma ScenarioThirdMatch()
    ensures MatchAt(ScenarioText, 15) == Some(Span(15, 22, 23, 25))
  {
    var s := ScenarioText;
    assert s[15..] == "1000000 mg";
    MatchAtRead(s, 15, 22, 22, 23, 25);
  }

  /** The scan resumes on a space after each unit, where no match starts. */
  lemma ScenarioGaps()
    ensures MatchAt(ScenarioText, 7).None? && MatchAt(ScenarioText, 14).None?
  {
    assert DigitRun(ScenarioText, 7) == 7 && DigitRun(ScenarioText, 14) == 14;
  }

  lemma ScenarioSlices()
    ensures ScenarioText[0..4] == "23,5" && ScenarioText[5..7] == "kg"
    ensures ScenarioText[8..11] == "999" && ScenarioText[12..14] == "xq"
    ensures ScenarioText[15..22] == "1000000" && ScenarioText[23..25] == "mg"
  {
    FirstPairSlices();
    SecondPairSlices();
    ThirdPairSlices();
  }

  lemma FirstPairSlices()
    ensures ScenarioText[0..4] == "23,5" && ScenarioText[5..7] == "kg"
  {
  }

  lemma SecondPairSlices()
    ensures ScenarioText[8..11] == "999" && ScenarioText[12..14] == "xq"
  {
  }

  lemma ThirdPairSlices()
    ensures ScenarioText[15..22] == "1000000" && ScenarioText[23..25] == "mg"
  {
  }

  lemma VerdictsOfThree(a: RawPair, b: RawPair, c: RawPair)
    ensures Verdicts([a, b, c]) == [Validate(a), Validate(b), Validate(c)]
  {
    var vs, w := Verdicts([a, b, c]), [Validate(a), Validate(b), Validate(c)];
    assert vs[0] == w[0] && vs[1] == w[1] && vs[2] == w[2];
  }

  lemma VerdictsOfTwo(a: RawPair, b: RawPair)
    ensures Verdicts([a, b]) == [Validate(a), Validate(b)]
  {
    var vs, w := Verdicts([a, b]), [Validate(a), Validate(b)];
    assert vs[0] == w[0] && vs[1] == w[1];
  }

  /** An accept followed by two rejects on an empty store. */
  lemma ProcessThree(m: Measurement, s1: Skip, s2: Skip)
    ensures Process({}, [Accept(m), Reject(s1), Reject(s2)]) ==
              Batch([Inserted(m), Skipped(s1), Skipped(s2)], {m})
  {
    var vs := [Accept(m), Reject(s1), Reject(s2)];
    assert vs[..1][..0] == [];
    assert Process({}, vs[..1]) == Batch([Inserted(m)], {m});
    assert vs[..2][..1] == vs[..1];
    assert Process({}, vs[..2]) == Batch([Inserted(m), Skipped(s1)], {m});
    assert vs[..3][..2] == vs[..2];
    assert vs[..3] == vs;
  }

  /** The same accepted measurement twice on an empty store. */
  lemma ProcessTwice(m: Measurement)
    ensures Process({}, [Accept(m), Accept(m)]) ==
              Batch([Inserted(m), Skipped(Skip(Number(m.value), m.unit, DuplicateValue))], {m})
  {
    var vs := [Accept(m), Accept(m)];
    assert vs[..1][..0] == [];
    assert Process({}, vs[..1]) == Batch([Inserted(m)], {m});
    assert vs[..2][..1] == vs[..1];
    assert vs[..2] == vs;
  }

  lemma ScenarioVerdicts()
    ensures Verdicts(Scenario) ==
              [Accept(Measurement(23.5, "kg")),
               Reject(Skip(Number(999.0), "kg", OutOfRange(0.0, 100.0))),
               Reject(Skip(Number(1000000.0), "mg", OutOfRange(1.0, 1000.0)))]
  {
    VerdictsOfThree(RawPair("23,5", "kg"), RawPair("999", "xq"), RawPair("1000000", "mg"));
    ExampleAccepted();
    ExampleMisreadOutOfRange();
    ExampleMilligramOutOfRange();
  }

  /** On an empty table the example run stores 23.5 kg and skips the
      other two pairs as out of range. */
  lemma ExampleScenario()
    ensures Classify({}, Scenario) ==
              Batch([Inserted(Measurement(23.5, "kg")),
                     Skipped(Skip(Number(999.0), "kg", OutOfRange(0.0, 100.0))),
                     Skipped(Skip(Number(1000000.0), "mg", OutOfRange(1.0, 1000.0)))],
                    {Measurement(23.5, "kg")})
  {
    ScenarioVerdicts();
    ProcessThree(Measurement(23.5, "kg"), Skip(Number(999.0), "kg", OutOfRange(0.0, 100.0)),
                 Skip(Number(1000000.0), "mg", OutOfRange(1.0, 1000.0)));
  }

  /** Reading the same pair twice stores it once and reports a duplicate. */
  lemma ExampleRepeat()
    ensures Classify({}, [RawPair("23,5", "kg"), RawPair("23,5", "kg")]) ==
              Batch([Inserted(Measurement(23.5, "kg")), Skipped(Skip(Number(23.5), "kg", DuplicateValue))],
                    {Measurement(23.5, "kg")})
  {
    VerdictsOfTwo(RawPair("23,5", "kg"), RawPair("23,5", "kg"));
    ExampleAccepted();
    ProcessTwice(Measurement(23.5, "kg"));
  }
}
