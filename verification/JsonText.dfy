/** JSON texts as they are written: from the bytes of a text through the lexer and the parser to its value. */
module JsonTexts {
  import opened JsonValues
  import opened Options
  import opened JsonGrammar
  import opened Parsing
  import DigitGen
  import NumberGrammar
  import StringGrammar
  import L = Lexers

  // --- how tokens are written ---

  function KindOf(token: Token): L.TokenType {
    match token
    case BeginArray => L.BeginArray
    case EndArray => L.EndArray
    case BeginObject => L.BeginObject
    case EndObject => L.EndObject
    case NameSeparator => L.NameSeparator
    case ValueSeparator => L.ValueSeparator
    case LiteralTrue => L.LiteralTrue
    case LiteralFalse => L.LiteralFalse
    case LiteralNull => L.LiteralNull
    case ValueString(_) => L.ValueString
    case ValueUnsigned(_) => L.ValueUnsigned
    case ValueInteger(_) => L.ValueInteger
    case ValueFloat(_) => L.ValueFloat
    case ParseError => L.ParseError
    case EndOfInput => L.EndOfInput
  }

  predicate IsNumberToken(token: Token) {
    L.IsNumberType(KindOf(token))
  }

  /** The text of a token. strtod gives the value of a float, or none if it overflows. */
  ghost predicate Spells(s: string, token: Token, strtod: string -> Option<real>) {
    && L.IsLexeme(s, KindOf(token), if token.ValueString? then token.s else s)
    && (token.ValueUnsigned? ==> DigitGen.AllDigits(s) && token.u == DigitGen.NumberOf(s))
    && (token.ValueInteger? ==> s != [] && DigitGen.AllDigits(s[1..]) && token.i == 0 - DigitGen.NumberOf(s[1..]))
    && (token.ValueFloat? ==> token.f == strtod(s))
  }

  /** Between positions i and j there is a token with white space in front of it. */
  ghost predicate IsTokenAt(input: string, i: nat, token: Token, j: nat, strtod: string -> Option<real>) {
    exists k :: i <= k <= j <= |input| && L.AllWhitespace(input[i..k]) && Spells(input[k..j], token, strtod)
  }

  /** From position i on there is white space up to the end, or up to a byte 0. */
  ghost predicate EndsAt(input: string, i: nat) {
    exists k :: i <= k <= |input| && L.AllWhitespace(input[i..k]) && (k == |input| || input[k] == '\0')
  }

  /** From position i on there are these tokens with white space around them. */
  ghost predicate Spelled(input: string, i: nat, ts: seq<Token>, strtod: string -> Option<real>)
    decreases |ts|
  {
    if ts == [] then EndsAt(input, i)
    else exists j :: IsTokenAt(input, i, ts[0], j, strtod) && Spelled(input, j, ts[1..], strtod)
  }

  /** The same up to the end and nothing else. */
  ghost predicate SpelledToEnd(input: string, i: nat, ts: seq<Token>, strtod: string -> Option<real>)
    decreases |ts|
  {
    if ts == [] then i <= |input| && L.AllWhitespace(input[i..])
    else exists j :: IsTokenAt(input, i, ts[0], j, strtod) && SpelledToEnd(input, j, ts[1..], strtod)
  }

  /** JSON-text = ws value ws, in section 2 of RFC 8259, perhaps behind a byte order mark. */
  ghost predicate IsRfcText(input: string, t: Text, strtod: string -> Option<real>) {
    WellFormed(t) && SpelledToEnd(input, L.BomLength(input), Tokens(t), strtod)
  }

  /** What the code takes for a text: a byte 0 ends it like the end of the input. See RfcTextIffNoZero. */
  ghost predicate IsJsonText(input: string, t: Text, strtod: string -> Option<real>) {
    WellFormed(t) && Spelled(input, L.BomLength(input), Tokens(t), strtod)
  }

  // --- a byte 0 ---

  /** The input up to its first byte 0. */
  function UpToZero(input: string): (cut: string)
    ensures cut <= input && '\0' !in cut && (|cut| < |input| ==> input[|cut|] == '\0')
  {
    if input == [] || input[0] == '\0' then [] else [input[0]] + UpToZero(input[1..])
  }

  lemma {:induction false} RunHasNoZero(q: NumberGrammar.State, s: string)
    requires NumberGrammar.Run(q, s).Some?
    ensures '\0' !in s
    decreases |s|
  {
    if s != [] {
      RunHasNoZero(NumberGrammar.Next(q, s[0]).value, s[1..]);
      assert s == [s[0]] + s[1..];
    }
  }

  lemma NumberHasNoZero(s: string)
    requires NumberGrammar.IsNumber(s)
    ensures '\0' !in s
  {
    NumberGrammar.AcceptsIffCompletes(NumberGrammar.Init, s);
    RunHasNoZero(NumberGrammar.Init, s);
  }

  lemma ItemHasNoZero(item: StringGrammar.Item)
    requires item.Valid()
    ensures '\0' !in item.Text()
  {
    match item
    case Plain(cp) =>
    case Short(c) =>
    case Unit(hex) => HexHasNoZero(hex);
    case Pair(high, low) =>
      HexHasNoZero(high);
      HexHasNoZero(low);
  }

  lemma HexHasNoZero(hex: string)
    requires StringGrammar.IsHex4(hex)
    ensures '\0' !in hex
  {
  }

  lemma {:induction false} ItemsHaveNoZero(items: seq<StringGrammar.Item>)
    requires StringGrammar.AllValid(items)
    ensures '\0' !in StringGrammar.TextOf(items)
    decreases |items|
  {
    hide StringGrammar.Item.Valid, StringGrammar.Item.Text;
    if items != [] {
      ItemsHaveNoZero(items[..|items| - 1]);
      ItemHasNoZero(items[|items| - 1]);
    }
  }

  lemma LiteralHasNoZero(literal: string, value: string)
    requires StringGrammar.Denotes(literal, value)
    ensures '\0' !in literal
  {
    hide StringGrammar.Item.Valid, StringGrammar.Item.Text, StringGrammar.Item.CodePoint;
    var items :| StringGrammar.AllValid(items) && literal == StringGrammar.TextOf(items) + "\"";
    ItemsHaveNoZero(items);
  }

  /** No token is written with a byte 0. */
  lemma LexemeHasNoZero(s: string, kind: L.TokenType, buffer: string)
    requires L.IsLexeme(s, kind, buffer)
    ensures '\0' !in s
  {
    hide NumberGrammar.IsNumber, StringGrammar.Denotes, L.Classified;
    if kind.ValueString? {
      LiteralHasNoZero(s[1..], buffer);
      assert s == [s[0]] + s[1..];
    } else if L.IsNumberType(kind) {
      NumberHasNoZero(s);
    }
  }

  lemma TokenHasNoZero(input: string, i: nat, token: Token, j: nat, strtod: string -> Option<real>)
    requires IsTokenAt(input, i, token, j, strtod)
    ensures i <= j <= |input| && '\0' !in input[i..j]
  {
    hide L.IsLexeme;
    var k: nat :| i <= k <= j <= |input| && L.AllWhitespace(input[i..k]) && Spells(input[k..j], token, strtod);
    LexemeHasNoZero(input[k..j], KindOf(token), if token.ValueString? then token.s else input[k..j]);
    assert input[i..j] == input[i..k] + input[k..j];
  }

  lemma NoZeroBefore(input: string, i: nat, j: nat)
    requires i <= |UpToZero(input)| && i <= j <= |input| && '\0' !in input[i..j]
    ensures j <= |UpToZero(input)|
  {
    hide UpToZero;
    var n := |UpToZero(input)|;
    if n < j {
      ZeroInSlice(input, i, n, j);
    }
  }

  lemma ZeroInSlice(input: string, i: nat, n: nat, j: nat)
    requires i <= n < j <= |input| && input[n] == '\0'
    ensures '\0' in input[i..j]
  {
    assert input[i..j][n - i] == input[n];
  }

  /** What stands before the first byte 0 stands in the input. */
  lemma TokenBeforeZero(input: string, i: nat, token: Token, j: nat, strtod: string -> Option<real>)
    requires i <= |UpToZero(input)|
    ensures IsTokenAt(input, i, token, j, strtod) <==> IsTokenAt(UpToZero(input), i, token, j, strtod)
    ensures IsTokenAt(input, i, token, j, strtod) ==> j <= |UpToZero(input)|
  {
    hide UpToZero, Spells, L.AllWhitespace;
    var cut := UpToZero(input);
    if IsTokenAt(input, i, token, j, strtod) {
      TokenHasNoZero(input, i, token, j, strtod);
      NoZeroBefore(input, i, j);
      var k: nat :| i <= k <= j <= |input| && L.AllWhitespace(input[i..k]) && Spells(input[k..j], token, strtod);
      assert cut[i..k] == input[i..k] && cut[k..j] == input[k..j];
    }
    if IsTokenAt(cut, i, token, j, strtod) {
      var k: nat :| i <= k <= j <= |cut| && L.AllWhitespace(cut[i..k]) && Spells(cut[k..j], token, strtod);
      assert cut[i..k] == input[i..k] && cut[k..j] == input[k..j];
    }
  }

  lemma WhitespaceHasNoZero(s: string)
    requires L.AllWhitespace(s)
    ensures '\0' !in s
  {
  }

  lemma EndBeforeZero(input: string, i: nat)
    requires i <= |UpToZero(input)|
    ensures EndsAt(input, i) <==> L.AllWhitespace(UpToZero(input)[i..])
  {
    hide UpToZero, L.AllWhitespace;
    var cut := UpToZero(input);
    if EndsAt(input, i) {
      var k: nat :| i <= k <= |input| && L.AllWhitespace(input[i..k]) && (k == |input| || input[k] == '\0');
      WhitespaceHasNoZero(input[i..k]);
      NoZeroBefore(input, i, k);
      assert k == |cut| && input[i..k] == cut[i..];
    }
    if L.AllWhitespace(cut[i..]) {
      assert input[i..|cut|] == cut[i..];
    }
  }

  lemma {:induction false} SpelledBeforeZero(input: string, i: nat, ts: seq<Token>, strtod: string -> Option<real>)
    requires i <= |UpToZero(input)|
    ensures Spelled(input, i, ts, strtod) <==> SpelledToEnd(UpToZero(input), i, ts, strtod)
    decreases |ts|
  {
    hide UpToZero, IsTokenAt, EndsAt;
    if ts == [] {
      EndBeforeZero(input, i);
    } else {
      forall j: nat
        ensures (IsTokenAt(input, i, ts[0], j, strtod) && Spelled(input, j, ts[1..], strtod))
           <==> (IsTokenAt(UpToZero(input), i, ts[0], j, strtod) && SpelledToEnd(UpToZero(input), j, ts[1..], strtod))
      {
        TokenBeforeZero(input, i, ts[0], j, strtod);
        if IsTokenAt(input, i, ts[0], j, strtod) {
          SpelledBeforeZero(input, j, ts[1..], strtod);
        }
      }
    }
  }

  lemma BomBeforeZero(input: string)
    ensures L.BomLength(UpToZero(input)) == L.BomLength(input) <= |UpToZero(input)|
  {
    hide UpToZero;
    var n := |UpToZero(input)|;
    assert forall i :: 0 <= i < n ==> UpToZero(input)[i] == input[i];
  }

  /** The code takes an input for a text exactly if the part before its first byte 0 is a text of RFC 8259. */
  lemma TextEndsAtZero(input: string, t: Text, strtod: string -> Option<real>)
    ensures IsJsonText(input, t, strtod) <==> IsRfcText(UpToZero(input), t, strtod)
  {
    hide Spelled, SpelledToEnd, WellFormed, Tokens, L.BomLength, UpToZero;
    BomBeforeZero(input);
    if WellFormed(t) {
      SpelledBeforeZero(input, L.BomLength(input), Tokens(t), strtod);
    }
  }

  lemma SomeTextEndsAtZero(input: string, strtod: string -> Option<real>)
    ensures (exists t :: IsJsonText(input, t, strtod)) <==> exists t :: IsRfcText(UpToZero(input), t, strtod)
    ensures forall t :: IsRfcText(UpToZero(input), t, strtod) ==> IsJsonText(input, t, strtod)
  {
    hide IsJsonText, IsRfcText, UpToZero;
    forall t: Text
      ensures IsJsonText(input, t, strtod) ==> IsRfcText(UpToZero(input), t, strtod)
      ensures IsRfcText(UpToZero(input), t, strtod) ==> IsJsonText(input, t, strtod)
    {
      TextEndsAtZero(input, t, strtod);
    }
    if t :| IsJsonText(input, t, strtod) {
      assert IsRfcText(UpToZero(input), t, strtod);
    }
  }

  lemma {:induction false} SpelledHasNoZero(input: string, i: nat, ts: seq<Token>, strtod: string -> Option<real>)
    requires SpelledToEnd(input, i, ts, strtod)
    ensures i <= |input| && '\0' !in input[i..]
    decreases |ts|
  {
    hide IsTokenAt;
    if ts != [] {
      var j: nat :| IsTokenAt(input, i, ts[0], j, strtod) && SpelledToEnd(input, j, ts[1..], strtod);
      TokenHasNoZero(input, i, ts[0], j, strtod);
      SpelledHasNoZero(input, j, ts[1..], strtod);
      assert input[i..] == input[i..j] + input[j..];
    }
  }

  lemma {:induction false} NothingIsCutWithoutZero(input: string)
    ensures UpToZero(input) == input || '\0' in input
    decreases |input|
  {
    if input != [] && input[0] != '\0' {
      NothingIsCutWithoutZero(input[1..]);
      assert input == [input[0]] + input[1..];
    }
  }

  /** So it conforms to section 2 of RFC 8259 exactly on the inputs without a byte 0. */
  lemma RfcTextIffNoZero(input: string, t: Text, strtod: string -> Option<real>)
    ensures IsRfcText(input, t, strtod) <==> IsJsonText(input, t, strtod) && '\0' !in input
  {
    hide SpelledToEnd, IsJsonText, WellFormed, Tokens;
    if IsRfcText(input, t, strtod) {
      var n := L.BomLength(input);
      SpelledHasNoZero(input, n, Tokens(t), strtod);
      assert input == input[..n] + input[n..];
      BomHasNoZero(input);
    }
    if '\0' !in input {
      NothingIsCutWithoutZero(input);
      TextEndsAtZero(input, t, strtod);
    }
  }

  lemma BomHasNoZero(input: string)
    ensures L.BomLength(input) <= |input| && '\0' !in input[..L.BomLength(input)]
  {
  }

  /** "null" before a byte 0 and an "x" is taken for a text and is none. */
  lemma TextBehindZeroIsIgnored(strtod: string -> Option<real>)
    ensures IsJsonText("null\0x", Scalar(LiteralNull), strtod) && !IsRfcText("null\0x", Scalar(LiteralNull), strtod)
  {
    hide IsJsonText, IsRfcText, UpToZero;
    CutOfExample();
    NullIsText(strtod);
    TextEndsAtZero("null\0x", Scalar(LiteralNull), strtod);
    RfcTextIffNoZero("null\0x", Scalar(LiteralNull), strtod);
  }

  lemma CutOfExample()
    ensures UpToZero("null\0x") == "null" && '\0' in "null\0x"
  {
    var s := "null\0x";
    assert s[4] == '\0';
    CutIs(s, 4);
    assert s[..4] == "null";
  }

  lemma {:induction false} CutIs(input: string, n: nat)
    requires n < |input| && input[n] == '\0' && forall i :: 0 <= i < n ==> input[i] != '\0'
    ensures UpToZero(input) == input[..n]
    decreases n
  {
    if 0 < n {
      CutIs(input[1..], n - 1);
      assert input[..n] == [input[0]] + input[1..][..n - 1];
    }
  }

  lemma NullIsText(strtod: string -> Option<real>)
    ensures IsRfcText("null", Scalar(LiteralNull), strtod)
  {
    hide Spells;
    L.FixedLexeme(L.LiteralNull);
    NullIsSpelled(strtod);
    TokenIsText("null", LiteralNull, strtod);
  }

  lemma NullIsSpelled(strtod: string -> Option<real>)
    ensures Spells("null", LiteralNull, strtod)
  {
  }

  /** A scalar with nothing around it is a text, unless it looks like a byte order mark. */
  lemma TokenIsText(s: string, token: Token, strtod: string -> Option<real>)
    requires Spells(s, token, strtod) && ScalarValue(token).Some? && L.BomLength(s) == 0
    ensures IsRfcText(s, Scalar(token), strtod)
  {
    hide Spells, ScalarValue, SpelledToEnd;
    TokenIsSpelledToEnd(s, token, strtod);
  }

  lemma TokenIsSpelledToEnd(s: string, token: Token, strtod: string -> Option<real>)
    requires Spells(s, token, strtod)
    ensures SpelledToEnd(s, 0, [token], strtod)
  {
    hide Spells;
    var end, ts := |s|, [token];
    assert s[0..end] == s && L.AllWhitespace(s[0..0]) && L.AllWhitespace(s[end..]);
    assert IsTokenAt(s, 0, ts[0], end, strtod);
    NothingToEnd(s, strtod);
    TokenBeforeRest(s, 0, ts, end, strtod);
  }

  lemma NothingToEnd(s: string, strtod: string -> Option<real>)
    ensures SpelledToEnd(s, |s|, [], strtod)
  {
  }

  lemma TokenBeforeRest(s: string, i: nat, ts: seq<Token>, j: nat, strtod: string -> Option<real>)
    requires ts != [] && IsTokenAt(s, i, ts[0], j, strtod)
    requires SpelledToEnd(s, j, if |ts| == 1 then [] else ts[1..], strtod)
    ensures SpelledToEnd(s, i, ts, strtod)
  {
    hide IsTokenAt;
    assert |ts| == 1 ==> ts[1..] == [];
    assert SpelledToEnd(s, j, ts[1..], strtod);
  }

  // --- white space and the byte order mark ---

  /** A scalar with spaces, tabs and line ends around it is a text, also behind a byte order mark. */
  lemma SpacesAreSkipped(mark: string, before: string, s: string, after: string, token: Token,
                         strtod: string -> Option<real>)
    requires Spells(s, token, strtod) && ScalarValue(token).Some?
    requires mark == "" || mark == ['\U{EF}', '\U{BB}', '\U{BF}']
    requires forall c :: c in before || c in after ==> c == ' ' || c == '\t' || c == '\n' || c == '\r'
    ensures IsRfcText(mark + before + s + after, Scalar(token), strtod)
  {
    hide Spells, ScalarValue, SpelledToEnd, L.IsLexeme, L.Starts;
    var input, i, k := mark + before + s + after, |mark|, |mark + before|;
    var j := k + |s|;
    assert input[i..k] == before && input[k..j] == s && input[j..] == after;
    SpacesAreWhitespace(before);
    SpacesAreWhitespace(after);
    SpelledStarts(s, token, strtod);
    MarkLength(mark, before, s, after, KindOf(token));
    EndBehind(input, j, strtod);
    var ts := [token];
    assert IsTokenAt(input, i, ts[0], j, strtod);
    TokenBeforeRest(input, i, ts, j, strtod);
  }

  lemma SpacesAreWhitespace(w: string)
    requires forall c :: c in w ==> c == ' ' || c == '\t' || c == '\n' || c == '\r'
    ensures L.AllWhitespace(w)
  {
    forall i | 0 <= i < |w|
      ensures L.IsWhitespace(w[i])
    {
      assert w[i] in w;
    }
  }

  lemma EndBehind(input: string, j: nat, strtod: string -> Option<real>)
    requires j <= |input| && L.AllWhitespace(input[j..])
    ensures SpelledToEnd(input, j, [], strtod)
  {
  }

  lemma MarkLength(mark: string, before: string, s: string, after: string, kind: L.TokenType)
    requires mark == "" || mark == ['\U{EF}', '\U{BB}', '\U{BF}']
    requires L.AllWhitespace(before) && s != [] && L.Starts(s[0], kind)
    ensures L.BomLength(mark + before + s + after) == |mark|
  {
    var input := mark + before + s + after;
    if mark == "" {
      assert input[0] == if before == [] then s[0] else before[0];
      assert s[0] as int < 0x80;
      NoBom(input);
    } else {
      assert input[..3] == mark;
      assert input[0] == mark[0] && input[1] == mark[1] && input[2] == mark[2];
    }
  }

  // --- numbers too large for a double ---

  /** A text of the grammar, whose numbers may be of any size. */
  predicate IsGrammarText(t: Text) {
    match t
    case Scalar(token) => ScalarValue(token).Some? || token == ValueFloat(None)
    case ArrayText(elements) => forall e :: e in elements ==> IsGrammarText(e)
    case ObjectText(members) => forall m :: m in members ==> IsGrammarText(m.value)
  }

  predicate NoOverflow(t: Text) {
    match t
    case Scalar(token) => token != ValueFloat(None)
    case ArrayText(elements) => forall e :: e in elements ==> NoOverflow(e)
    case ObjectText(members) => forall m :: m in members ==> NoOverflow(m.value)
  }

  lemma {:induction false} WellFormedIffNoOverflow(t: Text)
    ensures WellFormed(t) <==> IsGrammarText(t) && NoOverflow(t)
  {
    match t
    case Scalar(_) =>
    case ArrayText(elements) =>
      forall e | e in elements
        ensures WellFormed(e) <==> IsGrammarText(e) && NoOverflow(e)
      {
        WellFormedIffNoOverflow(e);
      }
    case ObjectText(members) =>
      forall m | m in members
        ensures WellFormed(m.value) <==> IsGrammarText(m.value) && NoOverflow(m.value)
      {
        WellFormedIffNoOverflow(m.value);
      }
  }

  /** The whole of section 2, which sets no limit to numbers; section 9 allows an implementation to set one. */
  ghost predicate IsUnlimitedText(input: string, t: Text, strtod: string -> Option<real>) {
    IsGrammarText(t) && SpelledToEnd(input, L.BomLength(input), Tokens(t), strtod)
  }

  /** Such a text is accepted exactly if no number in it overflows. */
  lemma AcceptedIffNoOverflow(input: string, t: Text, strtod: string -> Option<real>)
    ensures IsUnlimitedText(input, t, strtod) && NoOverflow(t) <==> IsJsonText(input, t, strtod) && '\0' !in input
  {
    hide SpelledToEnd, IsJsonText, WellFormed, IsGrammarText, NoOverflow, Tokens;
    WellFormedIffNoOverflow(t);
    RfcTextIffNoZero(input, t, strtod);
  }

  /** 1e999 overflows and is refused. */
  lemma OverflowIsRefused(strtod: string -> Option<real>)
    requires strtod("1e999") == None
    ensures var t := Scalar(ValueFloat(None));
            IsUnlimitedText("1e999", t, strtod) && !IsJsonText("1e999", t, strtod)
  {
    hide Spells, SpelledToEnd, L.BomLength;
    ExampleIsNumber();
    LargeIsSpelled(strtod);
    NoBom("1e999");
    TokenIsSpelledToEnd("1e999", ValueFloat(None), strtod);
    AcceptedIffNoOverflow("1e999", Scalar(ValueFloat(None)), strtod);
  }

  lemma NoBom(s: string)
    requires s != [] && s[0] as int < 0x80
    ensures L.BomLength(s) == 0
  {
  }

  lemma ExampleIsNumber()
    ensures NumberGrammar.IsNumber("1e999") && L.Classified("1e999") == L.ValueFloat
  {
    var s := "1e999";
    assert s[1..] == "e999" && "e999"[1..] == "999" && "999"[1..] == "99" && "99"[1..] == "9" && "9"[1..] == "";
    assert NumberGrammar.Run(NumberGrammar.Any2, "99") == Some(NumberGrammar.Any2);
    assert NumberGrammar.Run(NumberGrammar.Exponent, "999") == Some(NumberGrammar.Any2);
    assert NumberGrammar.Run(NumberGrammar.Any1, "e999") == Some(NumberGrammar.Any2);
    NumberGrammar.AcceptsIffCompletes(NumberGrammar.Init, s);
    assert s[1] == 'e' && !DigitGen.IsDigit(s[1]);
  }

  lemma LargeIsSpelled(strtod: string -> Option<real>)
    requires strtod("1e999") == None && NumberGrammar.IsNumber("1e999") && L.Classified("1e999") == L.ValueFloat
    ensures Spells("1e999", ValueFloat(None), strtod)
  {
    hide NumberGrammar.IsNumber, L.Classified;
  }

  // --- what the lexer delivers ---

  ghost predicate IsDelimitedAt(input: string, i: nat, token: Token, j: nat, strtod: string -> Option<real>) {
    IsTokenAt(input, i, token, j, strtod) && j <= |input| && L.Delimited(input, KindOf(token), j)
  }

  /** The lexer can deliver only this token at position i, and goes on at j. */
  ghost predicate IsDelivered(input: string, i: nat, token: Token, j: nat, strtod: string -> Option<real>) {
    && (token == EndOfInput <==> EndsAt(input, i))
    && (token != EndOfInput && token != ParseError ==> i < j <= |input| && IsTokenAt(input, i, token, j, strtod))
    && forall t: Token, n: nat :: IsDelimitedAt(input, i, t, n, strtod) ==> t == token && n == j
  }

  /** The tokens up to the end of the input or the first error. */
  ghost predicate AllDelivered(input: string, i: nat, tokens: seq<Token>, strtod: string -> Option<real>)
    decreases |tokens|
  {
    if tokens == [] then EndsAt(input, i)
    else
      && tokens[0] != EndOfInput
      && (tokens[0] == ParseError ==> tokens == [ParseError])
      && exists j :: IsDelivered(input, i, tokens[0], j, strtod)
                     && (tokens[0] != ParseError ==> AllDelivered(input, j, tokens[1..], strtod))
  }

  /** White space ends at one place. */
  lemma OneStart(input: string, i: nat, k: nat, n: nat)
    requires i <= k <= |input| && L.AllWhitespace(input[i..k]) && (k == |input| || !L.IsWhitespace(input[k]))
    requires i <= n <= |input| && L.AllWhitespace(input[i..n]) && (n == |input| || !L.IsWhitespace(input[n]))
    ensures k == n
  {
    hide L.AllWhitespace, L.IsWhitespace;
    if k < n {
      StillWhitespace(input, i, k, n);
    } else if n < k {
      StillWhitespace(input, i, n, k);
    }
  }

  lemma StillWhitespace(input: string, i: nat, k: nat, n: nat)
    requires i <= k < n <= |input| && L.AllWhitespace(input[i..n])
    ensures L.IsWhitespace(input[k])
  {
    assert input[i..n][k - i] == input[k];
  }

  lemma SpelledStarts(s: string, token: Token, strtod: string -> Option<real>)
    requires Spells(s, token, strtod)
    ensures L.IsLexeme(s, KindOf(token), if token.ValueString? then token.s else s)
    ensures s != [] && L.Starts(s[0], KindOf(token)) && !L.IsWhitespace(s[0]) && s[0] != '\0'
  {
    hide L.IsLexeme, DigitGen.AllDigits, DigitGen.NumberOf;
    L.LexemeStarts(s, KindOf(token), if token.ValueString? then token.s else s);
  }

  /** Behind the white space in front of it, a token is found at its start. */
  lemma StartOf(input: string, i: nat, k: nat, token: Token, j: nat, strtod: string -> Option<real>)
    requires i <= k <= |input| && L.AllWhitespace(input[i..k]) && (k == |input| || !L.IsWhitespace(input[k]))
    requires IsTokenAt(input, i, token, j, strtod)
    ensures k < j <= |input| && Spells(input[k..j], token, strtod)
  {
    hide Spells, L.AllWhitespace;
    var n :| i <= n <= j <= |input| && L.AllWhitespace(input[i..n]) && Spells(input[n..j], token, strtod);
    SpelledStarts(input[n..j], token, strtod);
    OneStart(input, i, k, n);
  }

  lemma EndOf(input: string, i: nat, k: nat)
    requires i <= k <= |input| && L.AllWhitespace(input[i..k]) && (k == |input| || !L.IsWhitespace(input[k]))
    ensures EndsAt(input, i) <==> k == |input| || input[k] == '\0'
  {
    if EndsAt(input, i) {
      var n :| i <= n <= |input| && L.AllWhitespace(input[i..n]) && (n == |input| || input[n] == '\0');
      OneStart(input, i, k, n);
    }
  }

  /** What the parser reads of a token the lexer scanned. */
  function TokenOf(kind: L.TokenType, buffer: string, u: nat, i: int, strtod: string -> Option<real>): (token: Token)
    ensures KindOf(token) == kind
  {
    match kind
    case BeginArray => BeginArray
    case EndArray => EndArray
    case BeginObject => BeginObject
    case EndObject => EndObject
    case NameSeparator => NameSeparator
    case ValueSeparator => ValueSeparator
    case LiteralTrue => LiteralTrue
    case LiteralFalse => LiteralFalse
    case LiteralNull => LiteralNull
    case ValueString => ValueString(buffer)
    case ValueUnsigned => ValueUnsigned(u)
    case ValueInteger => ValueInteger(i)
    case ValueFloat => ValueFloat(strtod(buffer))
    case ParseError => ParseError
    case EndOfInput => EndOfInput
  }

  lemma ScannedIsSpelled(s: string, kind: L.TokenType, buffer: string, u: nat, n: int, strtod: string -> Option<real>)
    requires kind != L.ParseError && kind != L.EndOfInput && L.IsLexeme(s, kind, buffer)
    requires kind == L.ValueUnsigned ==> u == DigitGen.NumberOf(buffer)
    requires kind == L.ValueInteger ==> n == 0 - DigitGen.NumberOf(buffer[1..])
    ensures Spells(s, TokenOf(kind, buffer, u, n, strtod), strtod)
    ensures kind == L.ValueString ==> TokenOf(kind, buffer, u, n, strtod).s == buffer
  {
    hide NumberGrammar.IsNumber, StringGrammar.Denotes, DigitGen.NumberOf;
  }

  lemma OneTokenOfAKind(s: string, a: Token, b: Token, strtod: string -> Option<real>)
    requires Spells(s, a, strtod) && Spells(s, b, strtod) && KindOf(a) == KindOf(b)
    requires a.ValueString? && b.ValueString? ==> a.s == b.s
    ensures a == b
  {
    hide L.IsLexeme, DigitGen.AllDigits, DigitGen.NumberOf;
  }

  /** What was scanned from position k to position j is the token, and it can be no other. */
  lemma ScannedIsDelivered(input: string, i: nat, k: nat, kind: L.TokenType, j: nat, buffer: string, u: nat, n: int,
                           strtod: string -> Option<real>)
    requires i <= k <= j <= |input| && L.AllWhitespace(input[i..k]) && (k < |input| ==> !L.IsWhitespace(input[k]))
    requires kind != L.ParseError && kind != L.EndOfInput && L.IsLexeme(input[k..j], kind, buffer)
    requires L.IsNumberType(kind) ==> NumberGrammar.LongestViable(input[k..j], input[k..])
    requires kind == L.ValueUnsigned ==> u == DigitGen.NumberOf(buffer)
    requires kind == L.ValueInteger ==> n == 0 - DigitGen.NumberOf(buffer[1..])
    ensures k < j && IsDelivered(input, i, TokenOf(kind, buffer, u, n, strtod), j, strtod)
  {
    hide NumberGrammar.LongestViable, L.IsLexeme, L.Delimited, DigitGen.NumberOf, Spells, EndsAt;
    var token := TokenOf(kind, buffer, u, n, strtod);
    ScannedIsSpelled(input[k..j], kind, buffer, u, n, strtod);
    SpelledStarts(input[k..j], token, strtod);
    EndOf(input, i, k);
    forall t: Token, m: nat | IsDelimitedAt(input, i, t, m, strtod)
      ensures t == token && m == j
    {
      StartOf(input, i, k, t, m, strtod);
      SpelledStarts(input[k..m], t, strtod);
      L.LexemesAreUnique(input, k, j, kind, buffer, m, KindOf(t), if t.ValueString? then t.s else input[k..m]);
      OneTokenOfAKind(input[k..j], token, t, strtod);
    }
  }

  lemma NothingIsDelivered(input: string, i: nat, k: nat, j: nat, strtod: string -> Option<real>)
    requires i <= k <= |input| && L.AllWhitespace(input[i..k]) && (k < |input| ==> !L.IsWhitespace(input[k]))
    requires L.NoToken(input, k)
    ensures !EndsAt(input, i) ==> IsDelivered(input, i, ParseError, j, strtod)
  {
    forall t: Token, m: nat | IsDelimitedAt(input, i, t, m, strtod)
      ensures false
    {
      StartOf(input, i, k, t, m, strtod);
    }
  }

  lemma EndIsDelivered(input: string, i: nat, k: nat, j: nat, strtod: string -> Option<real>)
    requires i <= k <= |input| && L.AllWhitespace(input[i..k]) && (k == |input| || input[k] == '\0')
    ensures IsDelivered(input, i, EndOfInput, j, strtod)
  {
    forall t: Token, m: nat | IsDelimitedAt(input, i, t, m, strtod)
      ensures false
    {
      StartOf(input, i, k, t, m, strtod);
      SpelledStarts(input[k..m], t, strtod);
    }
  }

  method GetToken(lexer: L.Lexer, strtod: string -> Option<real>) returns (token: Token)
    requires lexer.Valid()
    modifies lexer
    ensures lexer.Valid()
    ensures IsDelivered(lexer.input, old(lexer.Begin()), token, lexer.Begin(), strtod)
  {
    hide IsDelivered, L.IsLexeme, L.NoToken, EndsAt;
    ghost var i := lexer.Begin();
    var kind, k := lexer.Scan();
    token := TokenOf(kind, lexer.tokenBuffer, lexer.valueUnsigned, lexer.valueInteger, strtod);
    EndOf(lexer.input, i, k);
    if kind == L.EndOfInput {
      EndIsDelivered(lexer.input, i, k, lexer.Begin(), strtod);
    } else if kind == L.ParseError {
      NothingIsDelivered(lexer.input, i, k, lexer.Begin(), strtod);
    } else {
      ScannedIsDelivered(lexer.input, i, k, kind, lexer.NextIndex(), lexer.tokenBuffer, lexer.valueUnsigned,
                         lexer.valueInteger, strtod);
    }
  }

  /** All that the parser gets from the lexer; it asks for nothing behind an error. */
  method GetTokens(lexer: L.Lexer, strtod: string -> Option<real>) returns (tokens: seq<Token>)
    requires lexer.Valid()
    modifies lexer
    ensures AllDelivered(lexer.input, old(lexer.Begin()), tokens, strtod)
    decreases |lexer.input| - lexer.Begin()
  {
    hide IsTokenAt, IsDelimitedAt, EndsAt;
    var token := GetToken(lexer, strtod);
    if token == EndOfInput {
      return [];
    }
    tokens := [];
    if token != ParseError {
      tokens := GetTokens(lexer, strtod);
    }
    assert ([token] + tokens)[1..] == tokens;
    tokens := [token] + tokens;
  }

  // --- the tokens of a text stand apart ---

  predicate Separates(token: Token) {
    token == ValueSeparator || token == EndArray || token == EndObject
  }

  /** Behind a number there is always a separator, so that it ends where it should. */
  predicate Separated(ts: seq<Token>) {
    && ParseError !in ts && EndOfInput !in ts
    && forall i :: 0 <= i < |ts| - 1 && IsNumberToken(ts[i]) ==> Separates(ts[i + 1])
  }

  lemma Join(a: seq<Token>, b: seq<Token>)
    requires Separated(a) && Separated(b)
    requires a == [] || b == [] || !IsNumberToken(a[|a| - 1]) || Separates(b[0])
    ensures Separated(a + b)
  {
  }

  lemma {:induction false} TokensAreSeparated(t: Text)
    requires WellFormed(t)
    ensures Separated(Tokens(t))
  {
    match t
    case Scalar(token) =>
    case ArrayText(elements) =>
      ElementsAreSeparated(elements);
      Join([BeginArray], ElementTokens(elements));
      Join([BeginArray] + ElementTokens(elements), [EndArray]);
    case ObjectText(members) =>
      MembersAreSeparated(members);
      Join([BeginObject], MemberTokens(members));
      Join([BeginObject] + MemberTokens(members), [EndObject]);
  }

  lemma {:induction false} ElementsAreSeparated(elements: seq<Text>)
    requires forall e :: e in elements ==> WellFormed(e)
    ensures Separated(ElementTokens(elements))
  {
    if elements != [] {
      TokensAreSeparated(elements[0]);
      if 1 < |elements| {
        ElementsAreSeparated(elements[1..]);
        Join(Tokens(elements[0]), [ValueSeparator]);
        Join(Tokens(elements[0]) + [ValueSeparator], ElementTokens(elements[1..]));
      }
    }
  }

  lemma {:induction false} MembersAreSeparated(members: seq<Member>)
    requires forall m :: m in members ==> WellFormed(m.value)
    ensures Separated(MemberTokens(members))
  {
    if members != [] {
      var key, value := [ValueString(members[0].key), NameSeparator], Tokens(members[0].value);
      TokensAreSeparated(members[0].value);
      Join(key, value);
      if 1 < |members| {
        MembersAreSeparated(members[1..]);
        Join([ValueSeparator], MemberTokens(members[1..]));
        Join(key + value, [ValueSeparator] + MemberTokens(members[1..]));
      } else {
        assert MemberTokens(members) == key + value;
      }
    }
  }

  // --- the lexer delivers the tokens of a text ---

  /** A number in a text is followed by a delimiter. */
  lemma TokenIsDelimited(input: string, i: nat, ts: seq<Token>, j: nat, strtod: string -> Option<real>)
    requires ts != [] && Separated(ts) && IsTokenAt(input, i, ts[0], j, strtod) && Spelled(input, j, ts[1..], strtod)
    ensures IsDelimitedAt(input, i, ts[0], j, strtod)
  {
    hide Spells, L.IsLexeme;
    if IsNumberToken(ts[0]) && j < |input| {
      if |ts| == 1 {
        var k: nat :| j <= k <= |input| && L.AllWhitespace(input[j..k]) && (k == |input| || input[k] == '\0');
        if j < k {
          StillWhitespace(input, j, j, k);
        }
      } else {
        var n: nat :| IsTokenAt(input, j, ts[1..][0], n, strtod) && Spelled(input, n, ts[1..][1..], strtod);
        assert ts[1..][0] == ts[1];
        var k: nat :| j <= k <= n <= |input| && L.AllWhitespace(input[j..k]) && Spells(input[k..n], ts[1], strtod);
        if j < k {
          StillWhitespace(input, j, j, k);
        } else {
          SpelledStarts(input[k..n], ts[1], strtod);
        }
      }
    }
  }

  lemma TokenIsNoEnd(input: string, i: nat, token: Token, j: nat, strtod: string -> Option<real>)
    requires IsTokenAt(input, i, token, j, strtod)
    ensures !EndsAt(input, i)
  {
    hide Spells, L.AllWhitespace, L.IsWhitespace;
    var k: nat :| i <= k <= j <= |input| && L.AllWhitespace(input[i..k]) && Spells(input[k..j], token, strtod);
    SpelledStarts(input[k..j], token, strtod);
    EndOf(input, i, k);
  }

  lemma {:induction false} SpelledIsDelivered(input: string, i: nat, ts: seq<Token>, tokens: seq<Token>,
                                             strtod: string -> Option<real>)
    requires Spelled(input, i, ts, strtod) && Separated(ts) && AllDelivered(input, i, tokens, strtod)
    ensures tokens == ts
    decreases |ts|
  {
    hide EndsAt, IsTokenAt, IsDelimitedAt;
    if ts != [] {
      var j: nat :| IsTokenAt(input, i, ts[0], j, strtod) && Spelled(input, j, ts[1..], strtod);
      TokenIsDelimited(input, i, ts, j, strtod);
      TokenIsNoEnd(input, i, ts[0], j, strtod);
      assert tokens != [] && tokens[0] == ts[0];
      SpelledIsDelivered(input, j, ts[1..], tokens[1..], strtod);
      assert ts == [ts[0]] + ts[1..] && tokens == [tokens[0]] + tokens[1..];
    }
  }

  lemma {:induction false} DeliveredIsSpelled(input: string, i: nat, tokens: seq<Token>, strtod: string -> Option<real>)
    requires AllDelivered(input, i, tokens, strtod)
    ensures EndOfInput !in tokens
    ensures ParseError !in tokens ==> Spelled(input, i, tokens, strtod)
    decreases |tokens|
  {
    hide EndsAt, IsTokenAt, IsDelimitedAt;
    if tokens != [] && tokens[0] != ParseError {
      var j: nat :| IsDelivered(input, i, tokens[0], j, strtod) && AllDelivered(input, j, tokens[1..], strtod);
      DeliveredIsSpelled(input, j, tokens[1..], strtod);
    }
  }

  /** The tokens delivered are those of a text if and only if it is what was written. */
  lemma TextIsDelivered(input: string, tokens: seq<Token>, t: Text, strtod: string -> Option<real>)
    requires AllDelivered(input, L.BomLength(input), tokens, strtod)
    ensures IsJsonText(input, t, strtod) <==> IsWholeText(tokens, t, true)
  {
    hide AllDelivered, Spelled, IsWholeText, WellFormed, Tokens;
    WholeTextIsGrammar(tokens, t, true);
    DeliveredIsSpelled(input, L.BomLength(input), tokens, strtod);
    if WellFormed(t) {
      TokensAreSeparated(t);
      if IsWholeText(tokens, t, true) {
        var n :| 0 <= n <= |tokens| && Tokens(t) == tokens[..n] && TokenAt(tokens, n) == EndOfInput;
        assert n == |tokens| && tokens[..n] == tokens;
      }
      if IsJsonText(input, t, strtod) {
        SpelledIsDelivered(input, L.BomLength(input), Tokens(t), tokens, strtod);
        assert tokens[..|tokens|] == tokens;
      }
    }
  }

  /** parse() of a text. */
  method ParseText(input: string, strtod: string -> Option<real>) returns (result: Option<Json>)
    ensures result.Some? <==> exists t :: IsJsonText(input, t, strtod)
    ensures forall t :: IsJsonText(input, t, strtod) ==> result == Some(Value(t))
    ensures result.Some? <==> exists t :: IsRfcText(UpToZero(input), t, strtod)
    ensures forall t :: IsRfcText(UpToZero(input), t, strtod) ==> result == Some(Value(t))
  {
    hide AllDelivered, IsJsonText, IsRfcText, IsWholeText, UpToZero;
    var lexer := new L.Lexer(input);
    var tokens := GetTokens(lexer, strtod);
    forall t: Text
      ensures IsJsonText(input, t, strtod) <==> IsWholeText(tokens, t, true)
    {
      TextIsDelivered(input, tokens, t, strtod);
    }
    SomeTextEndsAtZero(input, strtod);
    result := Parse(tokens, true);
  }

  /** accept() of a text. */
  method AcceptText(input: string, strtod: string -> Option<real>) returns (ok: bool)
    ensures ok <==> exists t :: IsJsonText(input, t, strtod)
    ensures ok <==> exists t :: IsRfcText(UpToZero(input), t, strtod)
  {
    hide AllDelivered, IsJsonText, IsRfcText, IsWholeText, UpToZero;
    var lexer := new L.Lexer(input);
    var tokens := GetTokens(lexer, strtod);
    forall t: Text
      ensures IsJsonText(input, t, strtod) <==> IsWholeText(tokens, t, true)
    {
      TextIsDelivered(input, tokens, t, strtod);
    }
    SomeTextEndsAtZero(input, strtod);
    ok := Accept(tokens, true);
  }
}
