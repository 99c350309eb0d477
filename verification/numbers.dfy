/** Reading the numeral of a measurement (`float(raw_val.replace(",", "."))`
    in app.py) as an exact decimal. */
module Numbers {
  import opened Text

  predicate AllDigits(t: string)
  {
    forall i :: 0 <= i < |t| ==> IsDigit(t[i])
  }

  /** A decimal separator as the measurement pattern admits it. */
  predicate IsSep(c: char) { c == '.' || c == ',' }

  /** Digits, optionally followed by one `.` or `,` and more digits: the
      numeral group `\d+(?:[.,]\d+)?` of the measurement pattern. */
  predicate IsNumeral(t: string)
  {
    || (|t| > 0 && AllDigits(t))
    || exists k :: 0 < k < |t| - 1 && IsSep(t[k]) && AllDigits(t[..k]) && AllDigits(t[k + 1..])
  }

  /** The same with `.` as the only separator: what the parser reads. */
  predicate IsDecimal(t: string)
  {
    || (|t| > 0 && AllDigits(t))
    || exists k :: 0 < k < |t| - 1 && t[k] == '.' && AllDigits(t[..k]) && AllDigits(t[k + 1..])
  }

  function Pow10(n: nat): (p: nat)
    ensures p >= 1
  {
    if n == 0 then 1 else 10 * Pow10(n - 1)
  }

  function DigitValue(c: char): (v: nat)
    requires IsDigit(c)
    ensures v <= 9
  {
    c as int - '0' as int
  }

  /** The value of a digit string read in base ten, most significant first. */
  function DigitsValue(t: string): (v: nat)
    requires AllDigits(t)
    ensures v < Pow10(|t|)
  {
    if |t| == 0 then 0 else DigitsValue(t[..|t| - 1]) * 10 + DigitValue(t[|t| - 1])
  }

  /** Reading `ip` then `fp` is reading `ip` shifted left by `|fp|` places
      plus reading `fp`. */
  lemma {:induction false} DigitsConcat(ip: string, fp: string)
    requires AllDigits(ip) && AllDigits(fp)
    ensures AllDigits(ip + fp)
    ensures DigitsValue(ip + fp) == DigitsValue(ip) * Pow10(|fp|) + DigitsValue(fp)
    decreases |fp|
  {
    assert AllDigits(ip + fp) by {
      forall i | 0 <= i < |ip + fp| ensures IsDigit((ip + fp)[i]) {
        if i >= |ip| { assert (ip + fp)[i] == fp[i - |ip|]; }
      }
    }
    if |fp| == 0 {
      assert ip + fp == ip;
    } else {
      var fp' := fp[..|fp| - 1];
      assert (ip + fp)[..|ip + fp| - 1] == ip + fp';
      assert (ip + fp)[|ip + fp| - 1] == fp[|fp| - 1];
      DigitsConcat(ip, fp');
      ShiftStep(DigitsValue(ip), Pow10(|fp'|), DigitsValue(fp'), DigitValue(fp[|fp| - 1]),
                DigitsValue(ip + fp), DigitsValue(fp), Pow10(|fp|));
    }
  }

  lemma ShiftStep(a: int, b: int, c: int, d: int, whole: int, part: int, p: int)
    requires whole == (a * b + c) * 10 + d && part == c * 10 + d && p == 10 * b
    ensures whole == a * p + part
  {
  }

  lemma DigitsSlice(t: string, lo: nat, hi: nat)
    requires lo <= hi <= |t|
    requires forall k :: lo <= k < hi ==> IsDigit(t[k])
    ensures AllDigits(t[lo..hi])
  {
  }

  /** `m` moved `places` decimal places to the right of the point. */
  function Shifted(m: nat, places: nat): (r: real)
    ensures 0.0 <= r
  {
    m as real / Pow10(places) as real
  }

  /** Python's `float` on a plain decimal numeral, computed exactly: the
      digits before the point, then the fraction; anything else is not a
      number. */
  function ParseNumber(t: string): (r: Option<real>)
    ensures r.Some? ==> r.value >= 0.0
    ensures |t| > 0 && AllDigits(t) ==> r == Some(DigitsValue(t) as real)
  {
    var i := DigitRun(t, 0);
    if i == 0 then None
    else if i == |t| then Some(DigitsValue(t) as real)
    else if t[i] == '.' && i + 1 < |t| && DigitRun(t, i + 1) == |t| then
      DigitsSlice(t, 0, i);
      DigitsSlice(t, i + 1, |t|);
      assert t[i + 1..|t|] == t[i + 1..];
      Some(DigitsValue(t[..i]) as real + Shifted(DigitsValue(t[i + 1..]), |t| - i - 1))
    else
      None
  }

  /** The parser accepts exactly the decimal numerals. */
  lemma ParseNumberDomain(t: string)
    ensures ParseNumber(t).Some? <==> IsDecimal(t)
  {
    var i := DigitRun(t, 0);
    if ParseNumber(t).Some? && i < |t| {
      assert t[i] == '.' && AllDigits(t[..i]) && AllDigits(t[i + 1..]);
    }
    if IsDecimal(t) && !(|t| > 0 && AllDigits(t)) {
      var k :| 0 < k < |t| - 1 && t[k] == '.' && AllDigits(t[..k]) && AllDigits(t[k + 1..]);
      ParseSplit(t, k);
    }
  }

  /** A numeral with its point at `k` reads as its whole part plus its
      fraction digits shifted behind the point. */
  lemma ParseSplit(t: string, k: nat)
    requires 0 < k < |t| - 1 && t[k] == '.' && AllDigits(t[..k]) && AllDigits(t[k + 1..])
    ensures ParseNumber(t) == Some(DigitsValue(t[..k]) as real + Shifted(DigitsValue(t[k + 1..]), |t| - k - 1))
  {
    assert DigitRun(t, 0) == k;
    assert DigitRun(t, k + 1) == |t|;
  }

  lemma PointSplit(ip: string, fp: string)
    ensures var t := ip + "." + fp;
      |t| == |ip| + |fp| + 1 && t[|ip|] == '.' && t[..|ip|] == ip && t[|ip| + 1..] == fp
  {
    var t := ip + "." + fp;
    assert t[..|ip|] == ip;
    assert t[|ip| + 1..] == fp;
  }

  /** A numeral with a fraction reads as its digits with the point removed, divided by ten to the
      number of fraction digits: "23.5" is 235/10. */
  lemma ParseScaled(ip: string, fp: string)
    requires |ip| > 0 && AllDigits(ip) && |fp| > 0 && AllDigits(fp)
    ensures AllDigits(ip + fp)
    ensures ParseNumber(ip + "." + fp) == Some(Shifted(DigitsValue(ip + fp), |fp|))
  {
    PointSplit(ip, fp);
    ParseSplit(ip + "." + fp, |ip|);
    DigitsConcat(ip, fp);
    ShiftedSplit(DigitsValue(ip), DigitsValue(fp), |fp|, DigitsValue(ip + fp));
  }

  lemma ShiftedSplit(a: nat, b: nat, places: nat, m: nat)
    requires m == a * Pow10(places) + b
    ensures Shifted(m, places) == a as real + Shifted(b, places)
  {
    var n := Pow10(places);
    CastProduct(a, n, b, m);
    DivideSum(a as real, n as real, b as real, m as real);
  }

  lemma CastProduct(a: int, n: int, b: int, m: int)
    requires m == a * n + b
    ensures m as real == a as real * n as real + b as real
  {
  }

  lemma DivideSum(x: real, p: real, y: real, z: real)
    requires p > 0.0 && z == x * p + y
    ensures z / p == x + y / p
  {
  }

  lemma ShiftedTen(v: nat, places: nat, m: nat)
    requires m == v * 10
    ensures Shifted(m, places + 1) == Shifted(v, places)
  {
    var p := Pow10(places) as real;
    assert Pow10(places + 1) as real == p * 10.0;
    assert m as real == v as real * 10.0;
    assert (v as real * 10.0) / (p * 10.0) == v as real / p;
  }

  /** Exact decimals ignore trailing zeros of the fraction, so "2.5" and
      "2.50" read as the same value (and collide in the store). */
  lemma FractionTrailingZero(ip: string, fp: string)
    requires |ip| > 0 && AllDigits(ip) && |fp| > 0 && AllDigits(fp)
    ensures ParseNumber(ip + "." + (fp + "0")) == ParseNumber(ip + "." + fp)
  {
    assert AllDigits(fp + "0");
    ParseScaled(ip, fp);
    ParseScaled(ip, fp + "0");
    assert (ip + fp) + "0" == ip + (fp + "0");
    DigitsConcat(ip + fp, "0");
    assert DigitsValue("0") == 0;
    ShiftedTen(DigitsValue(ip + fp), |fp|, DigitsValue(ip + (fp + "0")));
  }

  /** Every numeral the measurement pattern admits parses once its comma is
      turned into a point: the `invalid number` branch is unreachable for
      extracted pairs. */
  lemma NumeralParses(t: string)
    requires IsNumeral(t)
    ensures IsDecimal(ReplaceChar(t, ',', '.'))
    ensures ParseNumber(ReplaceChar(t, ',', '.')).Some?
  {
    var d := ReplaceChar(t, ',', '.');
    if |t| > 0 && AllDigits(t) {
      assert d == t;
    } else {
      var k :| 0 < k < |t| - 1 && IsSep(t[k]) && AllDigits(t[..k]) && AllDigits(t[k + 1..]);
      assert d[..k] == t[..k] by {
        forall i | 0 <= i < k ensures d[i] == t[i] { assert IsDigit(t[..k][i]); }
      }
      assert d[k + 1..] == t[k + 1..] by {
        forall i | k + 1 <= i < |t| ensures d[i] == t[i] { assert IsDigit(t[k + 1..][i - k - 1]); }
      }
      SeparatorBecomesPoint(t, d, k);
    }
  }

  lemma SeparatorBecomesPoint(t: string, d: string, k: nat)
    requires 0 < k < |t| - 1 && IsSep(t[k]) && d == ReplaceChar(t, ',', '.')
    requires AllDigits(d[..k]) && AllDigits(d[k + 1..])
    ensures IsDecimal(d) && ParseNumber(d).Some?
  {
    assert d[k] == '.';
    ParseSplit(d, k);
  }
}
