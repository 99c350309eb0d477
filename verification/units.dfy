/** The unit vocabulary, the table of known OCR misreads, the plausible
    range of every canonical unit, and `correct_unit`, which maps a raw unit
    token to a canonical unit by one misread lookup, a bounded fuzzy match
    against the vocabulary in list order, and a final misread lookup. */
module Units {
  import opened Text
  import opened EditDistance

  /** An inclusive plausible range `min <= value <= max`. */
  datatype Range = Range(min: real, max: real)

  /** `VALID_UNITS`, in the order the fuzzy match scans it. */
  const ValidUnits: seq<string> :=
    ["kg", "g", "mg", "µg", "ug", "gm",
     "l", "ml",
     "m", "cm", "mm", "km",
     "inch", "km/hr", "m/s",
     "s", "sec"]

  /** `COMMON_MISREADS`: garbled tokens and what they stand for. */
  const CommonMisreads: map<string, string> :=
    map["ug" := "µg",
        "gm" := "g",
        "mgm" := "mg",
        "kc" := "kg", "kg." := "kg", "kgm" := "kg",
        "lg" := "kg",
        "nms" := "m/s", "mps" := "m/s", "ms" := "m/s",
        "kmh" := "km/hr", "km/h" := "km/hr", "kmph" := "km/hr",
        "s" := "sec", "sec." := "sec", "secs" := "sec"]

  /** `UNIT_THRESHOLDS`, as exact decimals. */
  const UnitThresholds: map<string, Range> :=
    map["kg" := Range(0.0, 100.0),
        "g" := Range(1.0, 500.0),
        "mg" := Range(1.0, 1000.0),
        "µg" := Range(1.0, 100.0),
        "l" := Range(0.01, 100.0),
        "ml" := Range(0.1, 100.0),
        "m" := Range(0.1, 100.0),
        "cm" := Range(1.0, 100.0),
        "mm" := Range(1.0, 100.0),
        "km" := Range(0.01, 100.0),
        "inch" := Range(0.01, 10.0),
        "km/hr" := Range(1.0, 300.0),
        "m/s" := Range(0.1, 100.0),
        "sec" := Range(0.01, 500.0)]

  /** The running best distance the scan starts from: a vocabulary entry is
      taken only when strictly closer, so at most two edits are accepted. */
  const StartDistance: nat := 3

  /** `COMMON_MISREADS.get(t, t)`. */
  function Misread(t: string): string
  {
    if t in CommonMisreads then CommonMisreads[t] else t
  }

  /** Strip, lower-case, and fold the micro sign to `u`. */
  function Fold(raw: string): string
  {
    ReplaceChar(Lower(Strip(raw)), Micro, 'u')
  }

  /** The token `correct_unit` compares with the vocabulary. */
  function Candidate(raw: string): string
  {
    Misread(Fold(raw))
  }

  /** No vocabulary entry is within two edits of `t`. */
  predicate NoneClose(t: string, vocab: seq<string>)
  {
    forall j :: 0 <= j < |vocab| ==> Levenshtein(t, vocab[j]) >= StartDistance
  }

  /** `vocab[k]` is within two edits of `t`, no entry is closer, and every
      earlier entry is strictly farther: the first entry at the least
      distance. */
  predicate IsFirstClosest(t: string, vocab: seq<string>, k: nat)
  {
    && k < |vocab|
    && Levenshtein(t, vocab[k]) < StartDistance
    && (forall j :: 0 <= j < k ==> Levenshtein(t, vocab[j]) > Levenshtein(t, vocab[k]))
    && (forall j :: k <= j < |vocab| ==> Levenshtein(t, vocab[j]) >= Levenshtein(t, vocab[k]))
  }

  /** What the scan knows after looking at `vocab[..i]` with running choice
      `best` at running distance `bestD`. */
  predicate ScanState(t: string, vocab: seq<string>, i: nat, best: Option<nat>, bestD: nat)
    requires i <= |vocab|
  {
    match best
    case None =>
      && bestD == StartDistance
      && forall j :: 0 <= j < i ==> Levenshtein(t, vocab[j]) >= StartDistance
    case Some(b) =>
      && b < i
      && bestD == Levenshtein(t, vocab[b]) < StartDistance
      && (forall j :: 0 <= j < b ==> Levenshtein(t, vocab[j]) > bestD)
      && (forall j :: b <= j < i ==> Levenshtein(t, vocab[j]) >= bestD)
  }

  /** The `for v in VALID_UNITS` loop of `correct_unit` from position `i`:
      replace the choice whenever an entry is strictly closer than the
      running best. */
  function ScanFrom(t: string, vocab: seq<string>, i: nat, best: Option<nat>, bestD: nat): (r: Option<nat>)
    requires i <= |vocab|
    requires ScanState(t, vocab, i, best, bestD)
    ensures r.None? <==> NoneClose(t, vocab)
    ensures r.Some? ==> IsFirstClosest(t, vocab, r.value)
    decreases |vocab| - i
  {
    if i == |vocab| then
      ScanDone(t, vocab, best, bestD);
      best
    else
      var d := Levenshtein(t, vocab[i]);
      ScanStep(t, vocab, i, best, bestD);
      if d < bestD then ScanFrom(t, vocab, i + 1, Some(i), d)
      else ScanFrom(t, vocab, i + 1, best, bestD)
  }

  lemma ScanStep(t: string, vocab: seq<string>, i: nat, best: Option<nat>, bestD: nat)
    requires i < |vocab| && ScanState(t, vocab, i, best, bestD)
    ensures var d := Levenshtein(t, vocab[i]);
      if d < bestD then ScanState(t, vocab, i + 1, Some(i), d)
      else ScanState(t, vocab, i + 1, best, bestD)
  {
  }

  lemma ScanDone(t: string, vocab: seq<string>, best: Option<nat>, bestD: nat)
    requires ScanState(t, vocab, |vocab|, best, bestD)
    ensures best.None? <==> NoneClose(t, vocab)
    ensures best.Some? ==> IsFirstClosest(t, vocab, best.value)
  {
  }

  /** The position of the vocabulary entry the scan settles on, if any. */
  function ClosestIndex(t: string, vocab: seq<string>): (r: Option<nat>)
    ensures r.None? <==> NoneClose(t, vocab)
    ensures r.Some? ==> IsFirstClosest(t, vocab, r.value)
  {
    ScanFrom(t, vocab, 0, None, StartDistance)
  }

  /** Only one entry can be the first closest. */
  lemma FirstClosestUnique(t: string, vocab: seq<string>, k1: nat, k2: nat)
    requires IsFirstClosest(t, vocab, k1) && IsFirstClosest(t, vocab, k2)
    ensures k1 == k2
  {
  }

  /** `correct_unit`: the canonical unit a raw token stands for, or `None`
      when every vocabulary entry is three or more edits away. */
  function CorrectUnit(raw: string): (r: Option<string>)
    ensures r.None? <==> NoneClose(Candidate(raw), ValidUnits)
    ensures r.Some? ==>
              exists k: nat :: IsFirstClosest(Candidate(raw), ValidUnits, k)
                          && r.value == Misread(ValidUnits[k])
    ensures r.Some? ==> r.value in UnitThresholds
  {
    var c := ClosestIndex(Candidate(raw), ValidUnits);
    if c.None? then None
    else
      VocabularyResolves(c.value);
      assert IsFirstClosest(Candidate(raw), ValidUnits, c.value);
      Some(Misread(ValidUnits[c.value]))
  }

  /** Every vocabulary entry, once the final misread lookup is applied, is a
      unit with a threshold. */
  lemma VocabularyResolves(k: nat)
    requires k < |ValidUnits|
    ensures Misread(ValidUnits[k]) in UnitThresholds
  {
  }

  /** No canonical unit is itself a known misread. */
  lemma TablesDisjoint()
    ensures forall u :: u in UnitThresholds ==> u !in CommonMisreads
  {
    forall u | u in UnitThresholds ensures u !in CommonMisreads {
      if u in ["kg", "g", "mg", "µg"] {
        MassUnitsNotMisreads();
      } else if u in ["l", "ml", "m", "cm", "mm", "km"] {
        VolumeLengthUnitsNotMisreads();
      } else {
        OtherUnitsNotMisreads();
      }
    }
  }

  lemma MassUnitsNotMisreads()
    ensures "kg" !in CommonMisreads && "g" !in CommonMisreads
    ensures "mg" !in CommonMisreads && "µg" !in CommonMisreads
  {
  }

  lemma VolumeLengthUnitsNotMisreads()
    ensures "l" !in CommonMisreads && "ml" !in CommonMisreads && "m" !in CommonMisreads
    ensures "cm" !in CommonMisreads && "mm" !in CommonMisreads && "km" !in CommonMisreads
  {
  }

  lemma OtherUnitsNotMisreads()
    ensures "inch" !in CommonMisreads && "km/hr" !in CommonMisreads
    ensures "m/s" !in CommonMisreads && "sec" !in CommonMisreads
  {
  }

  lemma ThresholdKeysInVocabulary()
    ensures forall u :: u in UnitThresholds ==> u in ValidUnits
  {
  }

  /** The canonical units are exactly the vocabulary after the final misread
      lookup: `ug`, `gm` and `s` are mapped away and the rest are the
      threshold keys, so the no-threshold pass-through is never taken. */
  lemma VocabularyIsThresholdKeys()
    ensures forall k :: 0 <= k < |ValidUnits| ==> Misread(ValidUnits[k]) in UnitThresholds
    ensures forall u :: u in UnitThresholds ==>
              exists k :: 0 <= k < |ValidUnits| && Misread(ValidUnits[k]) == u
  {
    forall k | 0 <= k < |ValidUnits| ensures Misread(ValidUnits[k]) in UnitThresholds {
      VocabularyResolves(k);
    }
    TablesDisjoint();
    ThresholdKeysInVocabulary();
    forall u | u in UnitThresholds
      ensures exists k :: 0 <= k < |ValidUnits| && Misread(ValidUnits[k]) == u
    {
      var k := PositionOf(ValidUnits, u);
      assert Misread(ValidUnits[k]) == u;
    }
  }

  predicate NoUpper(t: string)
  {
    forall i :: 0 <= i < |t| ==> !IsUpper(t[i])
  }

  /** The first position holding `t`. */
  function PositionOf(vocab: seq<string>, t: string): (k: nat)
    requires t in vocab
    ensures k < |vocab| && vocab[k] == t
    ensures forall j :: 0 <= j < k ==> vocab[j] != t
  {
    if vocab[0] == t then 0 else PositionOf(vocab[1..], t) + 1
  }

  /** A token that is itself a (lower-case) vocabulary entry is matched to
      the first occurrence of that entry, at distance zero. */
  lemma ExactEntryWins(t: string, vocab: seq<string>)
    requires t in vocab && NoUpper(t)
    requires forall j :: 0 <= j < |vocab| ==> NoUpper(vocab[j])
    ensures ClosestIndex(t, vocab) == Some(PositionOf(vocab, t))
  {
    var k := PositionOf(vocab, t);
    LowerNoUpper(t);
    DistSelf(t);
    forall j | 0 <= j < |vocab| ensures Levenshtein(t, vocab[j]) >= Levenshtein(t, vocab[k])
      && (j < k ==> Levenshtein(t, vocab[j]) > Levenshtein(t, vocab[k]))
    {
      LowerNoUpper(vocab[j]);
      DistZeroIff(t, vocab[j]);
    }
    assert IsFirstClosest(t, vocab, k);
    var c := ClosestIndex(t, vocab);
    FirstClosestUnique(t, vocab, c.value, k);
  }

  lemma VocabularyLowerCase()
    ensures forall j :: 0 <= j < |ValidUnits| ==> NoUpper(ValidUnits[j])
  {
  }

  /** When the folded, misread-substituted token is a vocabulary entry,
      `correct_unit` returns that entry after the final misread lookup. */
  lemma CorrectUnitExact(raw: string)
    requires Candidate(raw) in ValidUnits && NoUpper(Candidate(raw))
    ensures CorrectUnit(raw) == Some(Misread(Candidate(raw)))
  {
    VocabularyLowerCase();
    ExactEntryWins(Candidate(raw), ValidUnits);
  }

  /** Vocabulary entries are written in lower case, without surrounding
      whitespace, and only `µg` (position 3) holds the micro sign. */
  lemma VocabularyPlain()
    ensures forall j :: 0 <= j < |ValidUnits| ==>
              && NoUpper(ValidUnits[j])
              && |ValidUnits[j]| > 0
              && !IsSpace(ValidUnits[j][0]) && !IsSpace(ValidUnits[j][|ValidUnits[j]| - 1])
              && (j != 3 ==> forall i :: 0 <= i < |ValidUnits[j]| ==> ValidUnits[j][i] != Micro)
  {
  }

  /** A lower-case token without the micro sign or surrounding whitespace
      is unchanged by the folding `correct_unit` starts with. */
  lemma FoldPlain(t: string)
    requires NoUpper(t) && |t| > 0 && !IsSpace(t[0]) && !IsSpace(t[|t| - 1])
    requires forall i :: 0 <= i < |t| ==> t[i] != Micro
    ensures Fold(t) == t
  {
    StripNoSpaceEnds(t);
    LowerNoUpper(t);
  }

  /** Every canonical unit is a fixed point of `correct_unit`. */
  lemma ThresholdKeysAreFixedPoints()
    ensures forall u :: u in UnitThresholds ==> CorrectUnit(u) == Some(u)
  {
    forall u | u in UnitThresholds ensures CorrectUnit(u) == Some(u) {
      ThresholdKeyFixed(u);
    }
  }

  lemma ThresholdKeyFixed(u: string)
    requires u in UnitThresholds
    ensures CorrectUnit(u) == Some(u)
  {
    ThresholdKeyCandidate(u);
    ThresholdKeysInVocabulary();
    VocabularyLowerCase();
    var j := PositionOf(ValidUnits, u);
    TablesDisjoint();
    CorrectUnitExact(u);
  }

  /** A canonical unit is its own candidate. */
  lemma ThresholdKeyCandidate(u: string)
    requires u in UnitThresholds
    ensures Candidate(u) == u
  {
    TablesDisjoint();
    ThresholdKeysInVocabulary();
    var j := PositionOf(ValidUnits, u);
    if j == 3 {
      assert u == "µg";
      MicroGramFolds();
      MicroGramMisreads();
    } else {
      VocabularyPlain();
      FoldPlain(u);
    }
  }

  /** Every misread the table lists points at a canonical unit. */
  lemma MisreadTargetsCanonical()
    ensures forall t :: t in CommonMisreads ==> CommonMisreads[t] in UnitThresholds
  {
  }

  /** A listed misread, already in folded form, is corrected to what the
      table says it stands for. */
  lemma MisreadCorrected(t: string)
    requires t in CommonMisreads && Fold(t) == t
    ensures CorrectUnit(t) == Some(CommonMisreads[t])
  {
    var u := CommonMisreads[t];
    MisreadTargetsCanonical();
    ThresholdKeyCandidate(u);
    SameCandidate(t, u);
    ThresholdKeyFixed(u);
  }

  /** Folding `µg` spells it with a `u`. */
  lemma MicroGramFolds()
    ensures Fold("µg") == "ug"
  {
    var t := "µg";
    StripNoSpaceEnds(t);
    LowerNoUpper(t);
  }

  /** `ug` is listed as a misread of `µg`, and `µg` is not itself one. */
  lemma MicroGramMisreads()
    ensures Misread("ug") == "µg" && Misread("µg") == "µg"
  {
  }

  /** Correcting a corrected unit changes nothing. */
  lemma CorrectUnitIdempotent(raw: string)
    requires CorrectUnit(raw).Some?
    ensures CorrectUnit(CorrectUnit(raw).value) == CorrectUnit(raw)
  {
    ThresholdKeyFixed(CorrectUnit(raw).value);
  }

  /** Every character any vocabulary entry is spelt with. */
  const VocabularyAlphabet: string := "kgmµulcinhrs/e"

  lemma VocabularySpelling()
    ensures forall j, i :: 0 <= j < |ValidUnits| && 0 <= i < |ValidUnits[j]| ==>
              ValidUnits[j][i] in VocabularyAlphabet
  {
  }

  /** A lower-case token spelt without any vocabulary character is as far
      from every entry as the longer of the two is long. */
  lemma ForeignTokenDistances(t: string)
    requires NoUpper(t)
    requires forall i :: 0 <= i < |t| ==> t[i] !in VocabularyAlphabet
    ensures forall j :: 0 <= j < |ValidUnits| ==>
              Levenshtein(t, ValidUnits[j]) == Max(|t|, |ValidUnits[j]|)
  {
    VocabularyPlain();
    VocabularySpelling();
    LowerNoUpper(t);
    forall j | 0 <= j < |ValidUnits|
      ensures Levenshtein(t, ValidUnits[j]) == Max(|t|, |ValidUnits[j]|)
    {
      LowerNoUpper(ValidUnits[j]);
      DistDisjoint(t, ValidUnits[j]);
    }
  }

  /** Surrounding whitespace and capitals do not matter. */
  lemma ExampleUpperCaseKilogram()
    ensures CorrectUnit(" KG ") == Some("kg")
  {
    UpperKilogramFolds();
    ThresholdKeyCandidate("kg");
    MassUnitsNotMisreads();
    ThresholdKeyFixed("kg");
    SameCandidate(" KG ", "kg");
  }

  /** `correct_unit` sees a raw token only through its candidate. */
  lemma SameCandidate(a: string, b: string)
    requires Candidate(a) == Candidate(b)
    ensures CorrectUnit(a) == CorrectUnit(b)
  {
  }

  lemma UpperKilogramFolds()
    ensures Fold(" KG ") == "kg"
  {
    var raw := " KG ";
    assert LeadingSpaces(raw, 0) == 1;
    assert TrailingEnd(raw, 1, 4) == 3;
    assert raw[1..3] == "KG";
    assert Lower("KG") == "kg";
  }

  /** A listed misread spelled in plain lower case, with no surrounding
      space, corrects to its listed target. */
  lemma ListedMisreadExample(t: string, target: string)
    requires t in CommonMisreads && CommonMisreads[t] == target
    requires NoUpper(t) && |t| > 0 && !IsSpace(t[0]) && !IsSpace(t[|t| - 1])
    requires forall i :: 0 <= i < |t| ==> t[i] != Micro
    ensures CorrectUnit(t) == Some(target)
  {
    FoldPlain(t);
    MisreadCorrected(t);
  }

  /** `ug` is read as the micro-gram sign. */
  lemma ExampleMicroGram()
    ensures CorrectUnit("ug") == Some("µg")
  {
    ListedMisreadExample("ug", "µg");
  }

  /** `kmph` is read as `km/hr`. */
  lemma ExampleKilometresPerHour()
    ensures CorrectUnit("kmph") == Some("km/hr")
  {
    ListedMisreadExample("kmph", "km/hr");
  }

  /** `mgm` is read as `mg`. */
  lemma ExampleMilligram()
    ensures CorrectUnit("mgm") == Some("mg")
  {
    ListedMisreadExample("mgm", "mg");
  }

  /** `s` is both a vocabulary entry and a misread of `sec`. */
  lemma ExampleSeconds()
    ensures CorrectUnit("s") == Some("sec")
  {
    ListedMisreadExample("s", "sec");
  }

  /** A token with no vocabulary character in it is rejected. */
  lemma ExampleUnknownToken()
    ensures CorrectUnit("xyz123") == None
  {
    var t := "xyz123";
    FoldPlain(t);
    ForeignToken(t);
    ForeignTokenDistances(t);
    assert Candidate(t) == t;
  }

  /** A token of at most two characters, once folded and looked up, is
      within two edits of `kg`, the first entry, so some unit is chosen. */
  lemma ShortTokenCorrected(raw: string)
    requires |Candidate(raw)| <= 2
    ensures CorrectUnit(raw).Some?
  {
    var t := Candidate(raw);
    DistBounds(Lower(t), Lower(ValidUnits[0]));
    assert Levenshtein(t, ValidUnits[0]) < StartDistance;
  }

  /** Any two-letter token is within two edits of `kg`, the first entry:
      `xq` shares no letter with any entry and becomes `kg`. */
  lemma ExampleTwoLetterToken()
    ensures CorrectUnit("xq") == Some("kg")
  {
    var t := "xq";
    FoldPlain(t);
    ForeignToken(t);
    ForeignTokenDistances(t);
    assert Candidate(t) == t;
    assert IsFirstClosest(t, ValidUnits, 0);
    var c := ClosestIndex(t, ValidUnits);
    FirstClosestUnique(t, ValidUnits, c.value, 0);
    MassUnitsNotMisreads();
  }

  /** The two example tokens are not misreads and use no character of the
      vocabulary. */
  lemma ForeignToken(t: string)
    requires t == "xyz123" || t == "xq"
    ensures t !in CommonMisreads
    ensures forall i :: 0 <= i < |t| ==> t[i] !in VocabularyAlphabet
  {
  }
}
