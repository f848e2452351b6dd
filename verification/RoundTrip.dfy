/** A double is printed as a JSON text that is parsed back to the same double. */
module RoundTrips {
  import opened Options
  import opened DiyFps
  import opened Boundaries
  import opened JsonGrammar
  import opened JsonTexts
  import opened ToCharsPrinting
  import opened NumberText
  import J = JsonValues

  function Signed(negative: bool, v: real): real {
    if negative then -v else v
  }

  /** The text denotes a number of this sign and magnitude, and one double is nearest to the magnitude. */
  ghost predicate HasNearest(text: string, negative: bool, value: real, bits: nat) {
    bits < INFINITY && 0.0 <= value && IsFloatTextOf(text, Signed(negative, value)) && ReadsBackAs(value, bits)
  }

  /** Where one double is nearest to the value of a text, strtod returns it. */
  ghost predicate RoundsToNearest(strtod: string -> Option<real>) {
    forall text: string, negative: bool, value: real, bits: nat ::
      HasNearest(text, negative, value, bits) ==> strtod(text) == Some(Signed(negative, DoubleValue(bits)))
  }

  lemma NearestIsUnique(v: real, a: nat, b: nat)
    requires a < INFINITY && b < INFINITY && ReadsBackAs(v, a) && ReadsBackAs(v, b)
    ensures a == b
  {
    hide DoubleValue, Gap;
    var x, y := DoubleValue(a), DoubleValue(b);
    assert a != b ==> Gap(v, x) < Gap(v, y);
  }

  lemma ZeroIsNearestToZero(bits: nat)
    requires bits < INFINITY && ReadsBackAs(0.0, bits)
    ensures DoubleValue(bits) == 0.0
  {
    hide DoubleValue, ReadsBackAs;
    ZeroReadsBack();
    ZeroDouble();
    NearestIsUnique(0.0, bits, 0);
  }

  lemma NearestOfText(text: string, n1: bool, v1: real, b1: nat, n2: bool, v2: real, b2: nat)
    requires HasNearest(text, n1, v1, b1) && HasNearest(text, n2, v2, b2)
    ensures Signed(n1, DoubleValue(b1)) == Signed(n2, DoubleValue(b2))
  {
    hide DoubleValue, ReadsBackAs, NumberValue, NumberGrammar.IsNumber;
    NearestIsUnique(v1, b1, b2);
    if v1 == 0.0 {
      ZeroIsNearestToZero(b1);
    }
  }

  ghost function Nearest(text: string): Option<real> {
    if exists negative, value, bits :: HasNearest(text, negative, value, bits) then
      var negative, value, bits :| HasNearest(text, negative, value, bits);
      Some(Signed(negative, DoubleValue(bits)))
    else None
  }

  /** There is a function that rounds to nearest. */
  lemma NearestRounds()
    ensures RoundsToNearest(Nearest)
  {
    hide HasNearest, DoubleValue;
    forall text: string, negative: bool, value: real, bits: nat | HasNearest(text, negative, value, bits)
      ensures Nearest(text) == Some(Signed(negative, DoubleValue(bits)))
    {
      var n, v, b :| HasNearest(text, n, v, b) && Nearest(text) == Some(Signed(n, DoubleValue(b)));
      NearestOfText(text, negative, value, bits, n, v, b);
    }
  }

  /** A printed double is a JSON text. */
  lemma FloatIsJsonText(text: string, value: real, strtod: string -> Option<real>)
    requires IsFloatTextOf(text, value) && strtod(text).Some?
    ensures IsRfcText(text, Scalar(ValueFloat(strtod(text))), strtod)
    ensures IsJsonText(text, Scalar(ValueFloat(strtod(text))), strtod)
  {
    hide NumberGrammar.IsNumber, NumberGrammar.LongestViable, NumberGrammar.LongestNumber, NumberValue, L.Classified,
         IsRfcText, IsJsonText;
    PrintedTextIsScanned(text, value, "");
    L.LexemeStarts(text, L.ValueFloat, text);
    NoBom(text);
    TokenIsText(text, ValueFloat(strtod(text)), strtod);
    RfcTextIffNoZero(text, Scalar(ValueFloat(strtod(text))), strtod);
  }

  method PrintAndParse(negative: bool, bits: uint64, strtod: string -> Option<real>)
    returns (text: string, result: Option<J.Json>)
    requires bits < INFINITY && RoundsToNearest(strtod)
    ensures result == Some(J.Number(Signed(negative, DoubleValue(bits as nat))))
  {
    hide IsFloatTextOf, ReadsBackAs, DoubleValue, IsJsonText, IsRfcText, UpToZero;
    ghost var value;
    text, value := ToChars(negative, bits);
    assert HasNearest(text, negative, value, bits as nat);
    FloatIsJsonText(text, Signed(negative, value), strtod);
    result := ParseText(text, strtod);
  }
}
