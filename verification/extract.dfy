/** Pulling `(numeral, unit)` pairs out of OCR text: the pattern
    `(\d+(?:[.,]\d+)?)\s*([a-z/]{1,5})` applied by `re.findall` (app.py).

    `IsMatch` states what an instance of the pattern is; `MatchAt` is the
    match the regex engine reports at a position (greedy digits, the
    fraction when one follows, greedy whitespace, up to five unit
    characters); `FindFrom` is `findall`'s left-to-right scan, which resumes
    after a match and one character later after a failed attempt. */
module Extract {
  import opened Text
  import opened Numbers

  /** A character of the unit group `[a-z/]`. */
  predicate IsUnitChar(c: char) { 'a' <= c <= 'z' || c == '/' }

  /** The unit group takes at most this many characters. */
  const MaxUnitLength: nat := 5

  /** A match: the numeral is `s[start..numEnd]`, the whitespace between is
      `s[numEnd..unitStart]`, and the unit is `s[unitStart..end]`. */
  datatype Span = Span(start: nat, numEnd: nat, unitStart: nat, end: nat)

  /** A pair as `findall` returns it: the two captured groups. */
  datatype RawPair = RawPair(value: string, unit: string)

  predicate DigitsBetween(s: string, lo: nat, hi: nat)
    requires lo <= hi <= |s|
  {
    forall k :: lo <= k < hi ==> IsDigit(s[k])
  }

  /** `s[p..n]` is an instance of `\d+(?:[.,]\d+)?`. */
  predicate NumeralAt(s: string, p: nat, n: nat)
    requires p <= n <= |s|
  {
    || (p < n && DigitsBetween(s, p, n))
    || exists m :: p < m < n - 1 && IsSep(s[m]) && DigitsBetween(s, p, m) && DigitsBetween(s, m + 1, n)
  }

  /** `s[p..e]` is an instance of the whole pattern, split at `n` and `w`. */
  predicate IsMatch(s: string, p: nat, n: nat, w: nat, e: nat)
  {
    && p <= n <= w <= e <= |s|
    && NumeralAt(s, p, n)
    && (forall k :: n <= k < w ==> IsSpace(s[k]))
    && 1 <= e - w <= MaxUnitLength
    && (forall k :: w <= k < e ==> IsUnitChar(s[k]))
  }

  /** The end of the numeral the engine takes at `p` once the digit run
      ending at `i` is read: the fraction is taken when a separator and a
      digit follow. */
  function NumeralEnd(s: string, i: nat): (n: nat)
    requires i <= |s|
    ensures i <= n <= |s|
    ensures n > i ==> IsSep(s[i]) && n > i + 1 && DigitsBetween(s, i + 1, n) && (n == |s| || !IsDigit(s[n]))
    ensures n == i ==> !(i + 1 < |s| && IsSep(s[i]) && IsDigit(s[i + 1]))
  {
    if i + 1 < |s| && IsSep(s[i]) && IsDigit(s[i + 1]) then DigitRun(s, i + 1) else i
  }

  /** The end of the longest run of unit characters starting at `i`. */
  function UnitRun(s: string, i: nat): (e: nat)
    requires i <= |s|
    ensures i <= e <= |s|
    ensures forall k :: i <= k < e ==> IsUnitChar(s[k])
    ensures e < |s| ==> !IsUnitChar(s[e])
    decreases |s| - i
  {
    if i == |s| || !IsUnitChar(s[i]) then i else UnitRun(s, i + 1)
  }

  /** The end of the unit group starting at `w`: the longest run of unit
      characters, cut at five. */
  function UnitEnd(s: string, w: nat): (e: nat)
    requires w <= |s|
    ensures w <= e <= |s| && e - w <= MaxUnitLength
    ensures forall k :: w <= k < e ==> IsUnitChar(s[k])
    ensures e - w < MaxUnitLength ==> e == |s| || !IsUnitChar(s[e])
  {
    var u := UnitRun(s, w);
    if u - w > MaxUnitLength then w + MaxUnitLength else u
  }

  /** The match the engine reports when an attempt starts at `p`, if any. */
  function MatchAt(s: string, p: nat): (r: Option<Span>)
    requires p <= |s|
    ensures r.Some? ==> r.value.start == p && IsMatch(s, p, r.value.numEnd, r.value.unitStart, r.value.end)
  {
    var i := DigitRun(s, p);
    if i == p then None
    else
      var n := NumeralEnd(s, i);
      var w := SpaceRun(s, n);
      var e := UnitEnd(s, w);
      if e == w then None
      else
        assert NumeralAt(s, p, n) by {
          if n > i {
            assert p < i < n - 1 && IsSep(s[i]) && DigitsBetween(s, p, i) && DigitsBetween(s, i + 1, n);
          }
        }
        Some(Span(p, n, w, e))
  }

  /** A unit run is determined by where the unit characters stop. */
  lemma UnitRunAt(s: string, i: nat, e: nat)
    requires i <= e <= |s|
    requires forall k :: i <= k < e ==> IsUnitChar(s[k])
    requires e == |s| || !IsUnitChar(s[e])
    ensures UnitRun(s, i) == e
  {
  }

  /** The match at `p` read off the characters: a digit run up to `i`, an
      optional separator and digits up to `n`, whitespace up to `w`, and
      unit characters up to `e`, where the text does not continue the unit
      or the unit has reached five characters. */
  lemma MatchAtRead(s: string, p: nat, i: nat, n: nat, w: nat, e: nat)
    requires p < i <= n <= w < e <= |s| && e - w <= MaxUnitLength
    requires DigitsBetween(s, p, i) && !IsDigit(s[i])
    requires i == n ==> !(i + 1 < |s| && IsSep(s[i]) && IsDigit(s[i + 1]))
    requires i < n ==> IsSep(s[i]) && i + 1 < n && DigitsBetween(s, i + 1, n) && !IsDigit(s[n])
    requires forall k :: n <= k < w ==> IsSpace(s[k])
    requires forall k :: w <= k < e ==> IsUnitChar(s[k])
    requires e - w < MaxUnitLength ==> e == |s| || !IsUnitChar(s[e])
    ensures MatchAt(s, p) == Some(Span(p, n, w, e))
  {
    NumeralRead(s, p, i, n);
    assert !IsSpace(s[w]);
    SpaceRunAt(s, n, w);
    UnitRead(s, w, e);
  }

  lemma NumeralRead(s: string, p: nat, i: nat, n: nat)
    requires p < i <= n < |s|
    requires DigitsBetween(s, p, i) && !IsDigit(s[i])
    requires i == n ==> !(i + 1 < |s| && IsSep(s[i]) && IsDigit(s[i + 1]))
    requires i < n ==> IsSep(s[i]) && i + 1 < n && DigitsBetween(s, i + 1, n) && !IsDigit(s[n])
    ensures DigitRun(s, p) == i && NumeralEnd(s, i) == n
  {
    DigitRunAt(s, p, i);
    if i < n {
      DigitRunAt(s, i + 1, n);
    }
  }

  lemma UnitRead(s: string, w: nat, e: nat)
    requires w < e <= |s| && e - w <= MaxUnitLength
    requires forall k :: w <= k < e ==> IsUnitChar(s[k])
    requires e - w < MaxUnitLength ==> e == |s| || !IsUnitChar(s[e])
    ensures UnitEnd(s, w) == e
  {
    if e - w < MaxUnitLength {
      UnitRunAt(s, w, e);
    }
  }

  /** Backtracking cannot find a different match: every instance of the
      pattern at `p` has the numeral and the whitespace of the reported
      match and a unit no longer than its unit, so the reported match is the
      one the engine's greedy order tries first.  In particular no instance
      exists when no match is reported. */
  lemma MatchAtIsPreferred(s: string, p: nat, n: nat, w: nat, e: nat)
    requires IsMatch(s, p, n, w, e)
    ensures MatchAt(s, p).Some?
    ensures MatchAt(s, p).value.numEnd == n && MatchAt(s, p).value.unitStart == w
    ensures e <= MatchAt(s, p).value.end
  {
    NumeralPreferred(s, p, n, w, e);
    SpacePreferred(s, n, w, e);
  }

  /** The numeral of any instance is the one the engine reads. */
  lemma NumeralPreferred(s: string, p: nat, n: nat, w: nat, e: nat)
    requires IsMatch(s, p, n, w, e)
    ensures DigitRun(s, p) > p && NumeralEnd(s, DigitRun(s, p)) == n
  {
    // The first character after the numeral is whitespace or a unit character,
    // neither of which is a digit or a separator.
    assert n < |s| && (IsSpace(s[n]) || IsUnitChar(s[n]));
    assert !IsDigit(s[n]) && !IsSep(s[n]);
    if p < n && DigitsBetween(s, p, n) {
      assert DigitRun(s, p) == n;
    } else {
      var m :| p < m < n - 1 && IsSep(s[m]) && DigitsBetween(s, p, m) && DigitsBetween(s, m + 1, n);
      assert DigitRun(s, p) == m;
      assert DigitRun(s, m + 1) == n;
    }
  }

  /** The whitespace of any instance is the one the engine skips, and its
      unit is no longer than the one the engine takes. */
  lemma SpacePreferred(s: string, n: nat, w: nat, e: nat)
    requires n <= w < e <= |s| && e - w <= MaxUnitLength
    requires forall k :: n <= k < w ==> IsSpace(s[k])
    requires forall k :: w <= k < e ==> IsUnitChar(s[k])
    ensures SpaceRun(s, n) == w && e <= UnitEnd(s, w)
  {
    assert !IsSpace(s[w]);
  }

  /** No match can be reported at `p` exactly when the pattern has no
      instance there. */
  lemma MatchAtNoneIff(s: string, p: nat)
    requires p <= |s|
    ensures MatchAt(s, p).None? <==> forall n, w, e :: !IsMatch(s, p, n, w, e)
  {
    if MatchAt(s, p).None? {
      forall n, w, e ensures !IsMatch(s, p, n, w, e) {
        if IsMatch(s, p, n, w, e) {
          MatchAtIsPreferred(s, p, n, w, e);
        }
      }
    }
  }

  /** What an attempt at each position of the text yields: the match the
      engine reports there, or nothing. */
  function Attempts(s: string): (a: seq<Option<Span>>)
    ensures |a| == |s|
    ensures forall p :: 0 <= p < |s| ==> a[p] == MatchAt(s, p)
    ensures Attempted(a)
  {
    seq(|s|, p requires 0 <= p < |s| => MatchAt(s, p))
  }

  /** A successful attempt at `p` is a non-empty span starting at `p`
      inside the text. */
  predicate Attempted(a: seq<Option<Span>>)
  {
    forall p :: 0 <= p < |a| && a[p].Some? ==> a[p].value.start == p < a[p].value.end <= |a|
  }

  /** `findall`'s scan over the attempts from position `p`: take the match
      at `p` and continue at its end, or move one character on. */
  function Scan(a: seq<Option<Span>>, p: nat): seq<Span>
    requires Attempted(a) && p <= |a|
    decreases |a| - p
  {
    if p == |a| then []
    else
      match a[p]
      case None => Scan(a, p + 1)
      case Some(sp) => [sp] + Scan(a, sp.end)
  }

  /** Every span is the successful attempt where it starts. */
  predicate Reported(a: seq<Option<Span>>, r: seq<Span>)
  {
    forall k :: 0 <= k < |r| ==> r[k].start < |a| && a[r[k].start] == Some(r[k])
  }

  /** The spans follow one another without overlap. */
  predicate InOrder(r: seq<Span>)
  {
    forall k :: 0 <= k < |r| - 1 ==> r[k].end <= r[k + 1].start
  }

  /** Every span starts at or after `p`. */
  predicate StartsFrom(r: seq<Span>, p: nat)
  {
    forall k :: 0 <= k < |r| ==> p <= r[k].start
  }

  /** The scan reports successful attempts, in order, from where it starts. */
  lemma {:induction false} ScanSound(a: seq<Option<Span>>, p: nat)
    requires Attempted(a) && p <= |a|
    ensures Reported(a, Scan(a, p)) && InOrder(Scan(a, p)) && StartsFrom(Scan(a, p), p)
    decreases |a| - p
  {
    if p < |a| {
      match a[p]
      case None =>
        ScanSound(a, p + 1);
      case Some(sp) =>
        ScanSound(a, sp.end);
        var rest := Scan(a, sp.end);
        var r := [sp] + rest;
        assert Scan(a, p) == r;
        assert forall k :: 1 <= k < |r| ==> r[k] == rest[k - 1];
    }
  }

  /** Position `q` lies inside one of the spans. */
  predicate Covers(r: seq<Span>, q: nat)
  {
    exists k :: 0 <= k < |r| && r[k].start <= q < r[k].end
  }

  /** Nothing is missed: every position where an attempt succeeds lies
      inside a reported span, the `k`-th. */
  lemma {:induction false} ScanCovers(a: seq<Option<Span>>, p: nat, q: nat) returns (k: nat)
    requires Attempted(a) && p <= q < |a| && a[q].Some?
    ensures k < |Scan(a, p)| && Scan(a, p)[k].start <= q < Scan(a, p)[k].end
    decreases |a| - p
  {
    match a[p]
    case None =>
      k := ScanCovers(a, p + 1, q);
    case Some(sp) =>
      var rest := Scan(a, sp.end);
      assert Scan(a, p) == [sp] + rest;
      if q < sp.end {
        k := 0;
      } else {
        var j := ScanCovers(a, sp.end, q);
        k := j + 1;
        assert Scan(a, p)[k] == rest[j];
      }
  }

  /** The two captured groups of a match. */
  function PairOf(s: string, sp: Span): (r: RawPair)
    requires IsMatch(s, sp.start, sp.numEnd, sp.unitStart, sp.end)
    ensures IsNumeral(r.value)
    ensures 1 <= |r.unit| <= MaxUnitLength && forall k :: 0 <= k < |r.unit| ==> IsUnitChar(r.unit[k])
  {
    NumeralAtSlice(s, sp.start, sp.numEnd);
    RawPair(s[sp.start..sp.numEnd], s[sp.unitStart..sp.end])
  }

  /** A numeral found in place is a numeral once cut out. */
  lemma NumeralAtSlice(s: string, p: nat, n: nat)
    requires p <= n <= |s| && NumeralAt(s, p, n)
    ensures IsNumeral(s[p..n])
  {
    var t := s[p..n];
    if !(p < n && DigitsBetween(s, p, n)) {
      var m :| p < m < n - 1 && IsSep(s[m]) && DigitsBetween(s, p, m) && DigitsBetween(s, m + 1, n);
      var k := m - p;
      forall i | 0 <= i < k ensures IsDigit(t[..k][i]) {
        assert t[..k][i] == s[p + i];
      }
      var tail := t[k + 1..];
      forall i | 0 <= i < |tail| ensures IsDigit(tail[i]) {
        assert tail[i] == s[m + 1 + i];
      }
      assert IsSep(t[k]) && AllDigits(t[..k]) && AllDigits(tail);
    }
  }

  function PairsOf(s: string, spans: seq<Span>): (r: seq<RawPair>)
    requires forall k :: 0 <= k < |spans| ==> IsMatch(s, spans[k].start, spans[k].numEnd, spans[k].unitStart, spans[k].end)
    ensures |r| == |spans|
    ensures forall k :: 0 <= k < |r| ==> r[k] == PairOf(s, spans[k])
  {
    if |spans| == 0 then [] else [PairOf(s, spans[0])] + PairsOf(s, spans[1..])
  }

  /** The spans `re.findall` matches in `s`, in text order. */
  function Matches(s: string): (r: seq<Span>)
    ensures forall k :: 0 <= k < |r| ==> IsMatch(s, r[k].start, r[k].numEnd, r[k].unitStart, r[k].end)
  {
    var a := Attempts(s);
    ScanSound(a, 0);
    var r := Scan(a, 0);
    assert forall k :: 0 <= k < |r| ==> MatchAt(s, r[k].start) == Some(r[k]);
    r
  }

  /** `re.findall(pattern, s)`: the captured pairs of every match. */
  function FindAll(s: string): (r: seq<RawPair>)
    ensures forall k :: 0 <= k < |r| ==> IsNumeral(r[k].value)
    ensures forall k :: 0 <= k < |r| ==>
              1 <= |r[k].unit| <= MaxUnitLength && forall i :: 0 <= i < |r[k].unit| ==> IsUnitChar(r[k].unit[i])
  {
    PairsOf(s, Matches(s))
  }

  /** The pair of a lone match, cut out of the text. */
  lemma PairsOfOne(s: string, sp: Span)
    requires Matches(s) == [sp]
    requires sp.start <= |s| && MatchAt(s, sp.start) == Some(sp)
    ensures FindAll(s) == [RawPair(s[sp.start..sp.numEnd], s[sp.unitStart..sp.end])]
  {
    var r := PairsOf(s, [sp]);
    assert FindAll(s) == r;
    assert r[0] == PairOf(s, [sp][0]);
  }

  /** The pairs of three matches, cut out of the text. */
  lemma PairsOfThree(s: string, s0: Span, s1: Span, s2: Span)
    requires Matches(s) == [s0, s1, s2]
    requires s0.start <= |s| && MatchAt(s, s0.start) == Some(s0)
    requires s1.start <= |s| && MatchAt(s, s1.start) == Some(s1)
    requires s2.start <= |s| && MatchAt(s, s2.start) == Some(s2)
    ensures FindAll(s) == [RawPair(s[s0.start..s0.numEnd], s[s0.unitStart..s0.end]),
                           RawPair(s[s1.start..s1.numEnd], s[s1.unitStart..s1.end]),
                           RawPair(s[s2.start..s2.numEnd], s[s2.unitStart..s2.end])]
  {
    var spans := [s0, s1, s2];
    var r := PairsOf(s, spans);
    assert FindAll(s) == r;
    assert r[0] == PairOf(s, spans[0]) && r[1] == PairOf(s, spans[1]) && r[2] == PairOf(s, spans[2]);
  }

  /** The pairs are the reported matches, in order and without overlap,
      each the match reported where it starts, and every place the pattern
      can start a match is inside one of them. */
  lemma FindAllSound(s: string)
    ensures |FindAll(s)| == |Matches(s)|
    ensures forall k :: 0 <= k < |Matches(s)| ==>
              Matches(s)[k].start < |s| && MatchAt(s, Matches(s)[k].start) == Some(Matches(s)[k])
    ensures InOrder(Matches(s))
    ensures forall q :: 0 <= q < |s| && MatchAt(s, q).Some? ==> Covers(Matches(s), q)
  {
    var a := Attempts(s);
    ScanSound(a, 0);
    forall q | 0 <= q < |s| && MatchAt(s, q).Some? ensures Covers(Matches(s), q) {
      var k := ScanCovers(a, 0, q);
      assert Matches(s)[k].start <= q < Matches(s)[k].end;
    }
  }

  /** Text with no digit holds no pair. */
  lemma NoDigitNoPairs(s: string)
    requires forall i :: 0 <= i < |s| ==> !IsDigit(s[i])
    ensures FindAll(s) == []
  {
    var a := Attempts(s);
    assert forall p :: 0 <= p < |a| ==> a[p].None?;
    NoAttemptNoScanFrom(a, 0);
  }

  /** In `1.2.3kg` the attempt at `1` fails on `.2.` (no unit follows the
      numeral `1.2`) and the one at `.` fails too, so the only pair is
      `("2.3", "kg")`. */
  lemma ExampleDottedRun()
    ensures FindAll("1.2.3kg") == [RawPair("2.3", "kg")]
  {
    var s := "1.2.3kg";
    var a := Attempts(s);
    DottedRunAttempts();
    var sp := Span(2, 5, 5, 7);
    assert Scan(a, 7) == [];
    assert Scan(a, 2) == [sp];
    assert Scan(a, 1) == Scan(a, 2);
    assert Matches(s) == [sp];
    assert s[2..5] == "2.3" && s[5..7] == "kg";
    PairsOfOne(s, sp);
  }

  lemma DottedRunAttempts()
    ensures MatchAt("1.2.3kg", 0) == None
    ensures MatchAt("1.2.3kg", 1) == None
    ensures MatchAt("1.2.3kg", 2) == Some(Span(2, 5, 5, 7))
  {
    var s := "1.2.3kg";
    assert DigitRun(s, 0) == 1 && DigitRun(s, 1) == 1 && DigitRun(s, 2) == 3;
    assert NumeralEnd(s, 1) == 3;
    assert SpaceRun(s, 3) == 3 && UnitRun(s, 3) == 3;
    assert DigitRun(s, 4) == 5;
    assert NumeralEnd(s, 3) == 5;
    assert SpaceRun(s, 5) == 5 && UnitRun(s, 5) == 7;
  }

  /** The unit group stops after five letters: `5 kilograms` yields
      `("5", "kilog")`. */
  lemma ExampleLongUnit()
    ensures FindAll("5 kilograms") == [RawPair("5", "kilog")]
  {
    var s := "5 kilograms";
    var a := Attempts(s);
    LongUnitAttempts();
    LongUnitTail();
    var sp := Span(0, 1, 2, 7);
    assert Scan(a, 0) == [sp];
    assert Matches(s) == [sp];
    assert s[0..1] == "5" && s[2..7] == "kilog";
    PairsOfOne(s, sp);
  }

  lemma LongUnitAttempts()
    ensures MatchAt("5 kilograms", 0) == Some(Span(0, 1, 2, 7))
  {
    var s := "5 kilograms";
    assert s[..7] == "5 kilog";
    MatchAtRead(s, 0, 1, 1, 2, 7);
  }

  /** Nothing after the cut-off unit starts a match. */
  lemma LongUnitTail()
    ensures Scan(Attempts("5 kilograms"), 7) == []
  {
    var s := "5 kilograms";
    NoDigitAttempts(s, 7);
    NoAttemptNoScanFrom(Attempts(s), 7);
  }

  /** No attempt succeeds where no digit follows. */
  lemma NoDigitAttempts(s: string, p: nat)
    requires p <= |s|
    requires forall i :: p <= i < |s| ==> !IsDigit(s[i])
    ensures forall i :: p <= i < |s| ==> MatchAt(s, i).None?
  {
  }

  lemma {:induction false} NoAttemptNoScanFrom(a: seq<Option<Span>>, p: nat)
    requires Attempted(a) && p <= |a|
    requires forall i :: p <= i < |a| ==> a[i].None?
    ensures Scan(a, p) == []
    decreases |a| - p
  {
    if p < |a| {
      NoAttemptNoScanFrom(a, p + 1);
    }
  }
}
