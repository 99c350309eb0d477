/** The string clean-up the `/ocr` handler applies to the `image` field
    before base64-decoding it (app.py): drop a data-URL header, turn spaces
    (a form-encoding casualty) back into `+`, strip, and pad with `=` to a
    whole number of base64 quanta. */
module Payload {
  import opened Text

  /** The handler's early exits on the payload: an empty field is answered
      with `missing image`; a data URL without a comma makes
      `split(",", 1)[1]` raise, which the outer handler turns into an
      internal error. */
  datatype PayloadError = MissingImage | NoComma

  const DataUrlHeader: string := "data:image"

  /** The text after the first comma of a data URL, or the field as given. */
  function DataUrlBody(s: string): (r: Result<string, PayloadError>)
    ensures r.Failure? <==> StartsWith(s, DataUrlHeader) && forall i :: 0 <= i < |s| ==> s[i] != ','
    ensures r.Failure? ==> r.error == NoComma
    ensures !StartsWith(s, DataUrlHeader) ==> r == Success(s)
    ensures r.Success? && StartsWith(s, DataUrlHeader) ==>
              exists k :: && 0 <= k < |s| && s[k] == ','
                          && (forall i :: 0 <= i < k ==> s[i] != ',')
                          && r.value == s[k + 1..]
  {
    if StartsWith(s, DataUrlHeader) then
      match FirstIndex(s, ',')
      case None => Failure(NoComma)
      case Some(k) => Success(s[k + 1..])
    else Success(s)
  }

  /** `s += "=" * (4 - len(s) % 4)` when `len(s) % 4` is not zero: the
      shortest extension of `s` by `=` signs to a multiple of four. */
  function Pad(s: string): (r: string)
    ensures |r| % 4 == 0
    ensures |s| <= |r| <= |s| + 3
    ensures r[..|s|] == s
    ensures forall i :: |s| <= i < |r| ==> r[i] == '='
    ensures |s| % 4 == 0 ==> r == s
  {
    var pad := |s| % 4;
    if pad != 0 then s + seq(4 - pad, _ => '=') else s
  }

  /** The whole clean-up, in source order. */
  function Normalize(b64: string): (r: Result<string, PayloadError>)
    ensures r.Failure? && r.error == MissingImage <==> |b64| == 0
  {
    if |b64| == 0 then Failure(MissingImage)
    else
      match DataUrlBody(b64)
      case Failure(e) => Failure(e)
      case Success(body) => Success(Pad(Strip(ReplaceChar(body, ' ', '+'))))
  }

  /** Padding is the only way to reach a multiple of four with at most
      three `=` signs: any such extension is `Pad(s)`. */
  lemma PadUnique(s: string, r: string)
    requires |r| % 4 == 0 && |s| <= |r| <= |s| + 3
    requires r[..|s|] == s && forall i :: |s| <= i < |r| ==> r[i] == '='
    ensures r == Pad(s)
  {
    var p := Pad(s);
    assert |r| == |p|;
    forall i | 0 <= i < |r| ensures r[i] == p[i] {
      if i < |s| {
        assert r[..|s|][i] == p[..|s|][i];
      }
    }
  }

  /** The clean-up fails exactly on an empty field or a comma-less data
      URL; otherwise it yields the body with spaces turned into `+`,
      stripped and padded, which holds no space and has a length that is a
      multiple of four. */
  lemma NormalizeOutcome(b64: string)
    ensures Normalize(b64).Failure? <==>
              |b64| == 0 || (StartsWith(b64, DataUrlHeader) && forall i :: 0 <= i < |b64| ==> b64[i] != ',')
    ensures Normalize(b64).Success? ==>
              var r := Normalize(b64).value;
              && |r| % 4 == 0
              && (forall i :: 0 <= i < |r| ==> r[i] != ' ')
              && r[..|Strip(ReplaceChar(DataUrlBody(b64).value, ' ', '+'))|] ==
                   Strip(ReplaceChar(DataUrlBody(b64).value, ' ', '+'))
  {
    if Normalize(b64).Success? {
      var t := ReplaceChar(DataUrlBody(b64).value, ' ', '+');
      NoSpaceSurvivesStrip(t);
    }
  }

  /** `strip()` keeps a contiguous part of its argument, so a character
      absent from the argument is absent from the result. */
  lemma NoSpaceSurvivesStrip(t: string)
    requires forall i :: 0 <= i < |t| ==> t[i] != ' '
    ensures forall i :: 0 <= i < |Strip(t)| ==> Strip(t)[i] != ' '
  {
    var r := Strip(t);
    var i, j :| 0 <= i <= j <= |t| && r == t[i..j];
    forall k | 0 <= k < |r| ensures r[k] != ' ' {
      assert r[k] == t[i + k];
    }
  }

  /** A data URL loses its header up to and including the first comma,
      and nothing else. */
  lemma DataUrlStripped(b64: string, k: nat)
    requires StartsWith(b64, DataUrlHeader)
    requires k < |b64| && b64[k] == ',' && forall i :: 0 <= i < k ==> b64[i] != ','
    ensures DataUrlBody(b64) == Success(b64[k + 1..])
    ensures b64 == b64[..k + 1] + DataUrlBody(b64).value
  {
    assert FirstIndex(b64, ',') == Some(k);
  }

  /** A clean result that does not itself look like a data URL goes
      through the clean-up unchanged. */
  lemma NormalizeIdempotent(b64: string)
    requires Normalize(b64).Success?
    requires |Normalize(b64).value| > 0 && !StartsWith(Normalize(b64).value, DataUrlHeader)
    ensures Normalize(Normalize(b64).value) == Normalize(b64)
  {
    var r := Normalize(b64).value;
    NormalizeOutcome(b64);
    var t := Strip(ReplaceChar(DataUrlBody(b64).value, ' ', '+'));
    assert r == Pad(t);
    ReplaceCharAbsent(r, ' ', '+');
    EndsNotSpace(t);
    StripNoSpaceEnds(r);
  }

  /** A padded stripped string has no whitespace at its ends. */
  lemma EndsNotSpace(t: string)
    requires |t| > 0 ==> !IsSpace(t[0]) && !IsSpace(t[|t| - 1])
    ensures |Pad(t)| > 0 ==> !IsSpace(Pad(t)[0]) && !IsSpace(Pad(t)[|Pad(t)| - 1])
  {
    var r := Pad(t);
    if |t| > 0 {
      assert r[0] == r[..|t|][0];
      if |r| > |t| {
        assert r[|r| - 1] == '=';
      } else {
        assert r[|r| - 1] == r[..|t|][|t| - 1];
      }
    }
  }

  /** A data URL: the header goes, the space becomes `+`, and four
      characters need no padding. */
  lemma ExampleDataUrl()
    ensures Normalize("data:image,ab c") == Success("ab+c")
  {
    DataUrlFacts();
    DataUrlStripped("data:image,ab c", 10);
    DataUrlBodyFacts();
  }

  lemma DataUrlFacts()
    ensures StartsWith("data:image,ab c", DataUrlHeader)
    ensures forall i :: 0 <= i < 10 ==> "data:image,ab c"[i] != ','
    ensures "data:image,ab c"[10] == ',' && "data:image,ab c"[11..] == "ab c"
  {
  }

  lemma DataUrlBodyFacts()
    ensures Pad(Strip(ReplaceChar("ab c", ' ', '+'))) == "ab+c"
  {
    assert ReplaceChar("ab c", ' ', '+') == "ab+c";
    StripNoSpaceEnds("ab+c");
  }

  /** Five characters are padded with three `=` signs. */
  lemma ExamplePadding()
    ensures Normalize("abcde") == Success("abcde===")
  {
    var s := "abcde";
    assert !StartsWith(s, DataUrlHeader);
    ReplaceCharAbsent(s, ' ', '+');
    StripNoSpaceEnds(s);
    PadUnique(s, "abcde===");
  }

  /** A bare header has no comma to split at. */
  lemma ExampleHeaderOnly()
    ensures Normalize("data:image") == Failure(NoComma)
  {
    HeaderFacts();
  }

  lemma HeaderFacts()
    ensures StartsWith("data:image", DataUrlHeader)
    ensures forall i :: 0 <= i < |"data:image"| ==> "data:image"[i] != ','
  {
  }
}
