/** What dump() writes for a value is parsed back to the same value. */
module DumpParsing {
  import opened DigitGen
  import opened JsonValues
  import opened JsonPointers
  import opened Options
  import opened JsonGrammar
  import opened JsonTexts
  import opened NumberText
  import opened Serializing
  import NumberGrammar
  import S = StringGrammar
  import U = Utf8
  import L = Lexers
  import ToChars = ToCharsPrinting

  // --- numbers ---

  /** How a number may be written: as an integer of 64 bits, or as a float that strtod reads as that number. */
  ghost predicate IsTextOfNumber(text: string, n: real, strtod: string -> Option<real>) {
    || (exists i: int :: -0x8000_0000_0000_0000 <= i < 0x1_0000_0000_0000_0000 && n == i as real && text == IntText(i))
    || (exists v: real :: IsFloatTextOf(text, v) && strtod(text) == Some(n))
  }

  /** Every number in the tree is written so. */
  ghost predicate NumbersAreWritten(j: Json, style: Style, strtod: string -> Option<real>) {
    match j
    case Number(n) => IsTextOfNumber(style.numbers(n), n, strtod)
    case Array(elements) => forall x :: x in elements ==> NumbersAreWritten(x, style, strtod)
    case Object(members) => forall k :: k in members ==> NumbersAreWritten(members[k], style, strtod)
    case _ => true
  }

  lemma NatIsNumber(n: nat)
    ensures NumberGrammar.IsNumber(NatText(n)) && NumberGrammar.IsUnsignedNumber(NatText(n))
  {
    var s := NatText(n);
    assert s + "" == s;
    hide NatText, NumberOf;
    WholeThen(s, "");
    assert s[0] != '-';
  }

  lemma IntegerIsSpelled(i: int, strtod: string -> Option<real>) returns (token: Token)
    requires -0x8000_0000_0000_0000 <= i < 0x1_0000_0000_0000_0000
    ensures Spells(IntText(i), token, strtod) && ScalarValue(token) == Some(Number(i as real))
  {
    hide NatText, NumberOf, NumberGrammar.IsUnsignedNumber;
    if i < 0 {
      var s := IntText(i);
      NatIsNumber(-i);
      assert s[1..] == NatText(-i);
      token := ValueInteger(i);
    } else {
      NatIsNumber(i);
      token := ValueUnsigned(i);
    }
  }

  lemma FloatIsSpelled(text: string, v: real, n: real, strtod: string -> Option<real>)
    requires IsFloatTextOf(text, v) && strtod(text) == Some(n)
    ensures Spells(text, ValueFloat(Some(n)), strtod)
  {
    hide NumberGrammar.IsNumber, NumberGrammar.LongestViable, NumberGrammar.LongestNumber, NumberValue, L.Classified;
    ToChars.PrintedTextIsScanned(text, v, "");
  }

  ghost predicate IsTokenFor(token: Token, text: string, n: real, strtod: string -> Option<real>) {
    Spells(text, token, strtod) && ScalarValue(token) == Some(Number(n))
  }

  lemma NumberHasToken(text: string, n: real, strtod: string -> Option<real>)
    requires IsTextOfNumber(text, n, strtod)
    ensures exists token :: IsTokenFor(token, text, n, strtod)
  {
    hide Spells, IsFloatTextOf;
    if i: int :| -0x8000_0000_0000_0000 <= i < 0x1_0000_0000_0000_0000 && n == i as real && text == IntText(i) {
      var token := IntegerIsSpelled(i, strtod);
      assert IsTokenFor(token, text, n, strtod);
    } else {
      var v: real :| IsFloatTextOf(text, v) && strtod(text) == Some(n);
      FloatIsSpelled(text, v, n, strtod);
      assert IsTokenFor(ValueFloat(Some(n)), text, n, strtod);
    }
  }

  // --- strings ---

  /** The item of a literal that is written for a code point. */
  function ItemFor(cp: nat, ensureAscii: bool): (item: S.Item)
    requires U.IsScalar(cp)
    ensures item.Pair? ==> 0xFFFF < cp
    ensures item.Unit? ==> cp <= 0xFFFF
  {
    if cp == 0x08 then S.Short('b')
    else if cp == 0x09 then S.Short('t')
    else if cp == 0x0A then S.Short('n')
    else if cp == 0x0C then S.Short('f')
    else if cp == 0x0D then S.Short('r')
    else if cp == 0x22 then S.Short('"')
    else if cp == 0x5C then S.Short('\\')
    else if cp <= 0x1F || (ensureAscii && 0x7F <= cp) then
      if cp <= 0xFFFF then S.Unit(HexText(cp)) else S.Pair(HexText(0xD7C0 + cp / 0x400), HexText(0xDC00 + cp % 0x400))
    else S.Plain(cp)
  }

  lemma UnitItem(cp: nat)
    requires U.IsScalar(cp) && cp <= 0xFFFF
    ensures S.Unit(HexText(cp)).Valid() && S.Unit(HexText(cp)).CodePoint() == cp
    ensures S.Unit(HexText(cp)).Text() == "\\u" + HexText(cp)
  {
    hide HexText, S.Hex4, S.IsHex4;
  }

  lemma PairItem(cp: nat)
    requires U.IsScalar(cp) && 0xFFFF < cp
    ensures 0xD7C0 + cp / 0x400 <= 0xDBFF && 0xDC00 + cp % 0x400 <= 0xDFFF
    ensures var item := S.Pair(HexText(0xD7C0 + cp / 0x400), HexText(0xDC00 + cp % 0x400));
            && item.Valid() && item.CodePoint() == cp
            && item.Text() == "\\u" + HexText(0xD7C0 + cp / 0x400) + "\\u" + HexText(0xDC00 + cp % 0x400)
  {
    hide HexText, S.Hex4, S.IsHex4;
  }

  lemma ItemIsRight(cp: nat, ensureAscii: bool)
    requires U.IsScalar(cp)
    ensures var item := ItemFor(cp, ensureAscii);
            item.Valid() && item.Text() == EscapedPoint(cp, ensureAscii) && item.CodePoint() == cp
  {
    hide HexText, U.Encode;
    match ItemFor(cp, ensureAscii)
    case Unit(_) =>
      UnitItem(cp);
      hide S.Item.Valid, S.Item.CodePoint, S.Item.Text;
    case Pair(_, _) =>
      PairItem(cp);
      hide S.Item.Valid, S.Item.CodePoint, S.Item.Text;
    case _ =>
  }

  function ItemsFor(cps: seq<nat>, ensureAscii: bool): (items: seq<S.Item>)
    requires U.AllScalar(cps)
    ensures |items| == |cps| && forall i :: 0 <= i < |cps| ==> items[i] == ItemFor(cps[i], ensureAscii)
  {
    seq(|cps|, i requires 0 <= i < |cps| => ItemFor(cps[i], ensureAscii))
  }

  lemma {:induction false} ItemsAreWritten(cps: seq<nat>, ensureAscii: bool)
    requires U.AllScalar(cps)
    ensures var items := ItemsFor(cps, ensureAscii);
            S.AllValid(items) && S.TextOf(items) == EscapedPoints(cps, ensureAscii) && S.CodePoints(items) == cps
    decreases |cps|
  {
    hide S.Item.Valid, S.Item.Text, S.Item.CodePoint, EscapedPoint, U.IsScalar, ItemFor;
    if cps != [] {
      var front, last := cps[..|cps| - 1], cps[|cps| - 1];
      ItemsAreWritten(front, ensureAscii);
      ItemIsRight(last, ensureAscii);
      var items := ItemsFor(cps, ensureAscii);
      assert items == ItemsFor(front, ensureAscii) + [ItemFor(last, ensureAscii)];
      assert items[..|items| - 1] == ItemsFor(front, ensureAscii);
      assert S.CodePoints(items) == S.CodePoints(ItemsFor(front, ensureAscii)) + [last];
    }
  }

  lemma ItemsDenote(items: seq<S.Item>, literal: string, value: string)
    requires S.AllValid(items) && literal == S.TextOf(items) + "\"" && value == U.EncodeAll(S.CodePoints(items))
    ensures S.Denotes(literal, value)
  {
    hide S.Item.Valid, S.Item.Text, S.Item.CodePoint, S.TextOf, S.CodePoints, U.EncodeAll;
  }

  /** Behind its opening quote, a quoted string is a literal that denotes the string. */
  lemma QuotedDenotes(s: string, ensureAscii: bool)
    requires Decoded(s).Some?
    ensures S.Denotes(Quoted(s, ensureAscii)[1..], s)
  {
    hide S.AllValid, S.TextOf, S.CodePoints, S.Denotes, EscapedPoints, Decoded, ItemsFor;
    var cps := Decoded(s).value;
    ItemsAreWritten(cps, ensureAscii);
    assert Quoted(s, ensureAscii)[1..] == EscapedPoints(cps, ensureAscii) + "\"";
    ItemsDenote(ItemsFor(cps, ensureAscii), Quoted(s, ensureAscii)[1..], s);
  }

  lemma StringIsSpelled(s: string, ensureAscii: bool, strtod: string -> Option<real>)
    requires Decoded(s).Some?
    ensures Spells(Quoted(s, ensureAscii), ValueString(s), strtod)
  {
    hide S.Denotes, Decoded;
    QuotedDenotes(s, ensureAscii);
  }

  // --- texts as tokens with white space in front of them ---

  ghost predicate Written(s: string, ts: seq<Token>, strtod: string -> Option<real>)
    decreases |ts|
  {
    if ts == [] then s == []
    else exists k: nat, i: nat :: i <= |s| && FirstIs(s, k, i, ts[0], strtod) && Written(s[i..], ts[1..], strtod)
  }

  ghost predicate FirstIs(s: string, k: nat, i: nat, token: Token, strtod: string -> Option<real>) {
    k <= i <= |s| && L.AllWhitespace(s[..k]) && Spells(s[k..i], token, strtod)
  }

  lemma TokenIsWritten(s: string, token: Token, strtod: string -> Option<real>)
    requires Spells(s, token, strtod)
    ensures Written(s, [token], strtod)
  {
    hide Spells;
    assert s[0..|s|] == s && s[|s|..] == [] && [token][1..] == [];
    assert FirstIs(s, 0, |s|, [token][0], strtod);
  }

  lemma {:induction false} WrittenAppend(a: string, x: seq<Token>, b: string, y: seq<Token>, strtod: string -> Option<real>)
    requires Written(a, x, strtod) && Written(b, y, strtod)
    ensures Written(a + b, x + y, strtod)
    decreases |x|
  {
    hide FirstIs;
    if x == [] {
      assert a + b == b && x + y == y;
    } else {
      var k: nat, i: nat :| i <= |a| && FirstIs(a, k, i, x[0], strtod) && Written(a[i..], x[1..], strtod);
      WrittenAppend(a[i..], x[1..], b, y, strtod);
      FirstStays(a, b, k, i, x[0], strtod);
      assert (x + y)[1..] == x[1..] + y && (x + y)[0] == x[0];
      assert Written((a + b)[i..], (x + y)[1..], strtod);
    }
  }

  lemma FirstStays(a: string, b: string, k: nat, i: nat, token: Token, strtod: string -> Option<real>)
    requires FirstIs(a, k, i, token, strtod)
    ensures FirstIs(a + b, k, i, token, strtod) && (a + b)[i..] == a[i..] + b
  {
    hide Spells, L.AllWhitespace;
    assert (a + b)[..k] == a[..k] && (a + b)[k..i] == a[k..i];
  }

  /** White space may stand in front of a first token. */
  lemma SpaceBefore(w: string, s: string, ts: seq<Token>, strtod: string -> Option<real>)
    requires L.AllWhitespace(w) && ts != [] && Written(s, ts, strtod)
    ensures Written(w + s, ts, strtod)
  {
    hide Spells, FirstIs;
    var k: nat, i: nat :| i <= |s| && FirstIs(s, k, i, ts[0], strtod) && Written(s[i..], ts[1..], strtod);
    Shifted(w, s, k, i, ts[0], strtod);
    assert FirstIs(w + s, |w| + k, |w| + i, ts[0], strtod);
  }

  lemma Shifted(w: string, s: string, k: nat, i: nat, token: Token, strtod: string -> Option<real>)
    requires L.AllWhitespace(w) && FirstIs(s, k, i, token, strtod)
    ensures FirstIs(w + s, |w| + k, |w| + i, token, strtod) && (w + s)[|w| + i..] == s[i..]
  {
    hide Spells;
    assert (w + s)[..|w| + k] == w + s[..k] && (w + s)[|w| + k..|w| + i] == s[k..i];
  }

  /** Such a text is what the lexer is to deliver the tokens of. */
  lemma {:induction false} WrittenIsSpelled(p: string, s: string, ts: seq<Token>, strtod: string -> Option<real>)
    requires Written(s, ts, strtod)
    ensures SpelledToEnd(p + s, |p|, ts, strtod)
    decreases |ts|
  {
    hide FirstIs, IsTokenAt;
    if ts == [] {
      assert (p + s)[|p|..] == [];
    } else {
      var k: nat, i: nat :| i <= |s| && FirstIs(s, k, i, ts[0], strtod) && Written(s[i..], ts[1..], strtod);
      WrittenIsSpelled(p + s[..i], s[i..], ts[1..], strtod);
      FirstIsAt(p, s, k, i, ts[0], strtod);
    }
  }

  lemma FirstIsAt(p: string, s: string, k: nat, i: nat, token: Token, strtod: string -> Option<real>)
    requires FirstIs(s, k, i, token, strtod)
    ensures i <= |s| && IsTokenAt(p + s, |p|, token, |p| + i, strtod) && p + s[..i] + s[i..] == p + s
  {
    hide Spells, L.AllWhitespace;
    var j := |p| + k;
    assert (p + s)[|p|..j] == s[..k] && (p + s)[j..|p| + i] == s[k..i];
  }

  // --- the text a tree is dumped as ---

  ghost function NumberToken(text: string, n: real, strtod: string -> Option<real>): (token: Token)
    requires IsTextOfNumber(text, n, strtod)
    ensures IsTokenFor(token, text, n, strtod)
  {
    NumberHasToken(text, n, strtod);
    var token :| IsTokenFor(token, text, n, strtod);
    token
  }

  ghost function TextFor(j: Json, style: Style, strtod: string -> Option<real>): (t: Text)
    requires NumbersAreWritten(j, style, strtod)
    ensures WellFormed(t)
    decreases j, 1, 0
  {
    match j
    case Null => Scalar(LiteralNull)
    case Boolean(b) => Scalar(if b then LiteralTrue else LiteralFalse)
    case Number(n) => Scalar(NumberToken(style.numbers(n), n, strtod))
    case String(s) => Scalar(ValueString(s))
    case Array(elements) => ArrayText(ElementTexts(j, |elements|, style, strtod))
    case Object(members) => ObjectText(MemberTexts(j, |members|, style, strtod))
  }

  ghost function ElementTexts(j: Json, n: nat, style: Style, strtod: string -> Option<real>): (texts: seq<Text>)
    requires j.Array? && NumbersAreWritten(j, style, strtod) && n <= |j.elements|
    ensures |texts| == n && forall e :: e in texts ==> WellFormed(e)
    decreases j, 0, n
  {
    if n == 0 then [] else ElementTexts(j, n - 1, style, strtod) + [TextFor(j.elements[n - 1], style, strtod)]
  }

  ghost function MemberTexts(j: Json, n: nat, style: Style, strtod: string -> Option<real>): (texts: seq<Member>)
    requires j.Object? && NumbersAreWritten(j, style, strtod) && n <= |j.members|
    ensures |texts| == n && forall m :: m in texts ==> WellFormed(m.value)
    decreases j, 0, n
  {
    if n == 0 then []
    else
      var key := Ordered(j.members.Keys)[n - 1];
      KeyIsThere(j.members, n - 1);
      MemberTexts(j, n - 1, style, strtod) + [Member(key, TextFor(j.members[key], style, strtod))]
  }

  // --- the dump is that text ---

  lemma FixedToken(token: Token, strtod: string -> Option<real>)
    requires L.FixedText(KindOf(token)) != []
    ensures Written(L.FixedText(KindOf(token)), [token], strtod)
  {
    hide Written;
    TokenIsWritten(L.FixedText(KindOf(token)), token, strtod);
  }

  lemma LiteralsAreWritten(strtod: string -> Option<real>)
    ensures Written("null", [LiteralNull], strtod) && Written("true", [LiteralTrue], strtod)
    ensures Written("false", [LiteralFalse], strtod)
  {
    hide Written;
    FixedToken(LiteralNull, strtod);
    FixedToken(LiteralTrue, strtod);
    FixedToken(LiteralFalse, strtod);
  }

  lemma SignsAreWritten(strtod: string -> Option<real>)
    ensures Written("[", [BeginArray], strtod) && Written("]", [EndArray], strtod)
    ensures Written("{", [BeginObject], strtod) && Written("}", [EndObject], strtod)
    ensures Written(":", [NameSeparator], strtod) && Written(",", [ValueSeparator], strtod)
  {
    hide Written;
    FixedToken(BeginArray, strtod);
    FixedToken(EndArray, strtod);
    FixedToken(BeginObject, strtod);
    FixedToken(EndObject, strtod);
    FixedToken(NameSeparator, strtod);
    FixedToken(ValueSeparator, strtod);
  }

  lemma EmptyIsWritten(strtod: string -> Option<real>)
    ensures Written("[]", [BeginArray] + ElementTokens([]) + [EndArray], strtod)
    ensures Written("{}", [BeginObject] + MemberTokens([]) + [EndObject], strtod)
  {
    hide Written;
    SignsAreWritten(strtod);
    WrittenAppend("[", [BeginArray], "]", [EndArray], strtod);
    WrittenAppend("{", [BeginObject], "}", [EndObject], strtod);
    assert "[" + "]" == "[]" && "{" + "}" == "{}";
    assert [BeginArray] + ElementTokens([]) + [EndArray] == [BeginArray] + [EndArray];
    assert [BeginObject] + MemberTokens([]) + [EndObject] == [BeginObject] + [EndObject];
  }

  lemma NewLineIsWhitespace(style: Style, indent: nat)
    ensures L.AllWhitespace(NewLine(style, indent)) && L.AllWhitespace(" ") && L.AllWhitespace("")
  {
  }

  /** The closing bracket on a line of its own, or at once. */
  lemma Bracketed(open: string, a: Token, s: string, ts: seq<Token>, style: Style, indent: nat, close: string, b: Token,
                  strtod: string -> Option<real>)
    requires Written(open, [a], strtod) && Written(s, ts, strtod) && Written(close, [b], strtod)
    ensures Written(open + s + NewLine(style, indent) + close, [a] + ts + [b], strtod)
  {
    hide Written, L.AllWhitespace, NewLine;
    NewLineIsWhitespace(style, indent);
    SpaceBefore(NewLine(style, indent), close, [b], strtod);
    WrittenAppend(open, [a], s, ts, strtod);
    WrittenAppend(open + s, [a] + ts, NewLine(style, indent) + close, [b], strtod);
    assert open + s + (NewLine(style, indent) + close) == open + s + NewLine(style, indent) + close;
  }

  lemma {:induction false} DumpIsWritten(j: Json, style: Style, indent: nat, strtod: string -> Option<real>)
    requires Encodable(j) && NumbersAreWritten(j, style, strtod)
    ensures Written(Dumped(j, style, indent), Tokens(TextFor(j, style, strtod)), strtod)
    decreases j, 1, 0
  {
    hide Written, Spells, Quoted, DumpedElements, DumpedMembers, ElementTexts, MemberTexts, ElementTokens, MemberTokens;
    LiteralsAreWritten(strtod);
    match j
    case Null =>
    case Boolean(_) =>
    case Number(n) =>
      TokenIsWritten(style.numbers(n), NumberToken(style.numbers(n), n, strtod), strtod);
    case String(s) =>
      StringIsSpelled(s, style.ensureAscii, strtod);
      TokenIsWritten(Quoted(s, style.ensureAscii), ValueString(s), strtod);
    case Array(_) =>
      ArrayIsWritten(j, style, indent, strtod);
    case Object(_) =>
      ObjectIsWritten(j, style, indent, strtod);
  }

  lemma TokensFor(j: Json, style: Style, strtod: string -> Option<real>)
    requires NumbersAreWritten(j, style, strtod)
    ensures j.Array? ==>
              Tokens(TextFor(j, style, strtod)) ==
              [BeginArray] + ElementTokens(ElementTexts(j, |j.elements|, style, strtod)) + [EndArray]
    ensures j.Object? ==>
              Tokens(TextFor(j, style, strtod)) ==
              [BeginObject] + MemberTokens(MemberTexts(j, |j.members|, style, strtod)) + [EndObject]
  {
    hide ElementTexts, ElementTokens, MemberTexts, MemberTokens;
  }

  lemma {:induction false} ArrayIsWritten(j: Json, style: Style, indent: nat, strtod: string -> Option<real>)
    requires j.Array? && Encodable(j) && NumbersAreWritten(j, style, strtod)
    ensures Written(Dumped(j, style, indent), Tokens(TextFor(j, style, strtod)), strtod)
    decreases j, 0, |j.elements| + 1
  {
    hide Written, DumpedElements, ElementTexts, ElementTokens, TextFor, Tokens;
    var texts := ElementTexts(j, |j.elements|, style, strtod);
    TokensFor(j, style, strtod);
    if j.elements == [] {
      EmptyIsWritten(strtod);
      assert texts == [];
    } else {
      SignsAreWritten(strtod);
      var inner := DumpedElements(j, |j.elements|, style, indent + style.step);
      ElementsAreWritten(j, |j.elements|, style, indent + style.step, strtod);
      Bracketed("[", BeginArray, inner, ElementTokens(texts), style, indent, "]", EndArray, strtod);
      WholeArray(j, style, indent);
    }
  }

  lemma {:induction false} ElementsAreWritten(j: Json, n: nat, style: Style, indent: nat, strtod: string -> Option<real>)
    requires j.Array? && Encodable(j) && NumbersAreWritten(j, style, strtod) && n <= |j.elements|
    ensures Written(DumpedElements(j, n, style, indent), ElementTokens(ElementTexts(j, n, style, strtod)), strtod)
    decreases j, 0, n
  {
    hide Written, Dumped, TextFor, NewLine, L.AllWhitespace, Tokens, WellFormed;
    if n == 0 {
      NothingIsWritten(strtod);
    } else {
      var before, texts := DumpedElements(j, n - 1, style, indent), ElementTexts(j, n - 1, style, strtod);
      var last, t := Dumped(j.elements[n - 1], style, indent), TextFor(j.elements[n - 1], style, strtod);
      ElementsAreWritten(j, n - 1, style, indent, strtod);
      DumpIsWritten(j.elements[n - 1], style, indent, strtod);
      FirstToken(t);
      NewLineIsWhitespace(style, indent);
      SpaceBefore(NewLine(style, indent), last, Tokens(t), strtod);
      OneMoreElement(before, texts, NewLine(style, indent) + last, t, strtod);
      Assemble(before, if n == 1 then "" else ",", NewLine(style, indent), last);
    }
  }

  lemma Assemble(a: string, b: string, c: string, d: string)
    ensures a + b + c + d == a + b + (c + d)
  {
  }

  lemma NothingIsWritten(strtod: string -> Option<real>)
    ensures Written([], [], strtod) && ElementTokens([]) == [] && MemberTokens([]) == []
  {
  }

  lemma OneMoreElement(a: string, texts: seq<Text>, s: string, t: Text, strtod: string -> Option<real>)
    requires Written(a, ElementTokens(texts), strtod) && Written(s, Tokens(t), strtod) && (texts == [] ==> a == [])
    ensures Written(a + (if texts == [] then "" else ",") + s, ElementTokens(texts + [t]), strtod)
  {
    hide Written, ElementTokens, Tokens;
    SignsAreWritten(strtod);
    if texts == [] {
      OneElement(t);
      assert a + "" + s == s;
    } else {
      ElementTokensSnoc(texts, t);
      WrittenAppend(a, ElementTokens(texts), ",", [ValueSeparator], strtod);
      WrittenAppend(a + ",", ElementTokens(texts) + [ValueSeparator], s, Tokens(t), strtod);
    }
  }

  lemma OneElement(t: Text)
    ensures ElementTokens([] + [t]) == Tokens(t)
  {
    assert [] + [t] == [t];
  }

  lemma {:induction false} ObjectIsWritten(j: Json, style: Style, indent: nat, strtod: string -> Option<real>)
    requires j.Object? && Encodable(j) && NumbersAreWritten(j, style, strtod)
    ensures Written(Dumped(j, style, indent), Tokens(TextFor(j, style, strtod)), strtod)
    decreases j, 0, |j.members| + 1
  {
    hide Written, DumpedMembers, MemberTexts, MemberTokens, TextFor, Tokens, Ordered;
    var texts := MemberTexts(j, |j.members|, style, strtod);
    TokensFor(j, style, strtod);
    if j.members == map[] {
      EmptyIsWritten(strtod);
      assert texts == [];
    } else {
      SignsAreWritten(strtod);
      var inner := DumpedMembers(j, |j.members|, style, indent + style.step);
      MembersAreWritten(j, |j.members|, style, indent + style.step, strtod);
      Bracketed("{", BeginObject, inner, MemberTokens(texts), style, indent, "}", EndObject, strtod);
      WholeObject(j, style, indent);
    }
  }

  lemma MemberTextsStep(j: Json, n: nat, key: string, style: Style, strtod: string -> Option<real>)
    requires j.Object? && NumbersAreWritten(j, style, strtod) && n < |j.members| && key == Ordered(j.members.Keys)[n]
    ensures key in j.members
    ensures MemberTexts(j, n + 1, style, strtod) ==
      MemberTexts(j, n, style, strtod) + [Member(key, TextFor(j.members[key], style, strtod))]
  {
    hide TextFor, WellFormed, Ordered;
    KeyIsThere(j.members, n);
  }

  /** One more member behind some that are written. */
  lemma MemberGoesOn(before: string, texts: seq<Member>, key: string, last: string, t: Text, style: Style, indent: nat,
                     strtod: string -> Option<real>)
    requires Written(before, MemberTokens(texts), strtod) && (texts == [] ==> before == [])
    requires Decoded(key).Some? && Written(last, Tokens(t), strtod) && Tokens(t) != []
    ensures Written(before + (if texts == [] then "" else ",") + NewLine(style, indent) + Quoted(key, style.ensureAscii)
                    + (if style.pretty then ": " else ":") + last, MemberTokens(texts + [Member(key, t)]), strtod)
  {
    hide Written, NewLine, MemberTokens, Tokens, Quoted, Decoded;
    var colon := if style.pretty then ": " else ":";
    MemberIsWritten(key, last, t, style, indent, strtod);
    OneMoreMember(before, texts, NewLine(style, indent) + Quoted(key, style.ensureAscii) + colon + last, Member(key, t),
                  strtod);
    AssembleMember(before, if texts == [] then "" else ",", NewLine(style, indent), Quoted(key, style.ensureAscii), colon,
                   last);
  }

  lemma {:induction false} MembersAreWritten(j: Json, n: nat, style: Style, indent: nat, strtod: string -> Option<real>)
    requires j.Object? && Encodable(j) && NumbersAreWritten(j, style, strtod) && n <= |j.members|
    ensures Written(DumpedMembers(j, n, style, indent), MemberTokens(MemberTexts(j, n, style, strtod)), strtod)
    decreases j, 0, n
  {
    hide Written, Dumped, DumpedMembers, TextFor, MemberTexts, MemberTokens, NewLine, Tokens, WellFormed, Ordered, Quoted,
         Decoded, Encodable, NumbersAreWritten;
    if n == 0 {
      NoMembersAreWritten(j, style, indent, strtod);
    } else {
      var key := Ordered(j.members.Keys)[n - 1];
      MembersStep(j, n - 1, key, style, indent);
      MemberTextsStep(j, n - 1, key, style, strtod);
      OneMember(j, key, style, strtod);
      var t := TextFor(j.members[key], style, strtod);
      MembersAreWritten(j, n - 1, style, indent, strtod);
      DumpIsWritten(j.members[key], style, indent, strtod);
      FirstToken(t);
      NothingBeforeTheFirst(j, n - 1, style, indent);
      MemberGoesOn(DumpedMembers(j, n - 1, style, indent), MemberTexts(j, n - 1, style, strtod), key,
                   Dumped(j.members[key], style, indent), t, style, indent, strtod);
    }
  }

  lemma OneMember(j: Json, key: string, style: Style, strtod: string -> Option<real>)
    requires j.Object? && Encodable(j) && NumbersAreWritten(j, style, strtod) && key in j.members
    ensures Decoded(key).Some? && Encodable(j.members[key]) && NumbersAreWritten(j.members[key], style, strtod)
  {
    hide Decoded;
  }

  lemma NoMembersAreWritten(j: Json, style: Style, indent: nat, strtod: string -> Option<real>)
    requires j.Object? && Encodable(j) && NumbersAreWritten(j, style, strtod)
    ensures Written(DumpedMembers(j, 0, style, indent), MemberTokens(MemberTexts(j, 0, style, strtod)), strtod)
  {
    NothingIsWritten(strtod);
  }

  lemma NothingBeforeTheFirst(j: Json, n: nat, style: Style, indent: nat)
    requires j.Object? && Encodable(j) && n <= |j.members|
    ensures n == 0 ==> DumpedMembers(j, n, style, indent) == []
  {
    hide Ordered;
  }

  lemma AssembleMember(a: string, b: string, c: string, d: string, e: string, f: string)
    ensures a + b + c + d + e + f == a + b + (c + d + e + f)
  {
  }

  lemma MemberIsWritten(key: string, last: string, t: Text, style: Style, indent: nat, strtod: string -> Option<real>)
    requires Decoded(key).Some? && Written(last, Tokens(t), strtod) && Tokens(t) != []
    ensures Written(NewLine(style, indent) + Quoted(key, style.ensureAscii) + (if style.pretty then ": " else ":") + last,
                    [ValueString(key), NameSeparator] + Tokens(t), strtod)
  {
    hide Written, Spells, NewLine, L.AllWhitespace, Tokens, Quoted, Decoded;
    var line, quoted, gap := NewLine(style, indent), Quoted(key, style.ensureAscii), if style.pretty then " " else "";
    SignsAreWritten(strtod);
    NewLineIsWhitespace(style, indent);
    StringIsSpelled(key, style.ensureAscii, strtod);
    TokenIsWritten(quoted, ValueString(key), strtod);
    SpaceBefore(line, quoted, [ValueString(key)], strtod);
    SpaceBefore(gap, last, Tokens(t), strtod);
    WrittenAppend(line + quoted, [ValueString(key)], ":", [NameSeparator], strtod);
    WrittenAppend(line + quoted + ":", [ValueString(key)] + [NameSeparator], gap + last, Tokens(t), strtod);
    assert [ValueString(key)] + [NameSeparator] == [ValueString(key), NameSeparator];
    JoinMember(line + quoted, gap, last, if style.pretty then ": " else ":");
  }

  lemma JoinMember(front: string, gap: string, last: string, colon: string)
    requires colon == ":" + gap
    ensures front + ":" + (gap + last) == front + colon + last
  {
  }

  lemma OneMoreMember(a: string, texts: seq<Member>, s: string, m: Member, strtod: string -> Option<real>)
    requires Written(a, MemberTokens(texts), strtod) && (texts == [] ==> a == [])
    requires Written(s, [ValueString(m.key), NameSeparator] + Tokens(m.value), strtod)
    ensures Written(a + (if texts == [] then "" else ",") + s, MemberTokens(texts + [m]), strtod)
  {
    hide Written, MemberTokens, Tokens;
    var tokens := [ValueString(m.key), NameSeparator] + Tokens(m.value);
    SignsAreWritten(strtod);
    MemberTokensSnoc(texts, m);
    NothingIsWritten(strtod);
    if texts == [] {
      assert a + "" + s == s;
      assert MemberTokens(texts + [m]) == tokens;
    } else {
      WrittenAppend(a, MemberTokens(texts), ",", [ValueSeparator], strtod);
      WrittenAppend(a + ",", MemberTokens(texts) + [ValueSeparator], s, tokens, strtod);
      assert MemberTokens(texts + [m]) == MemberTokens(texts) + [ValueSeparator] + tokens;
    }
  }

  // --- and denotes the tree ---

  lemma {:induction false} TextDenotes(j: Json, style: Style, strtod: string -> Option<real>)
    requires NumbersAreWritten(j, style, strtod)
    ensures Value(TextFor(j, style, strtod)) == j
    decreases j, 1, 0
  {
    hide ElementTexts, MemberTexts, Values, MemberValues, Ordered, Spells;
    match j
    case Array(elements) =>
      ElementsDenote(j, |elements|, style, strtod);
      assert elements[..|elements|] == elements;
    case Object(members) =>
      MembersDenote(j, |members|, style, strtod);
      AllKeys(members);
    case _ =>
  }

  lemma {:induction false} ElementsDenote(j: Json, n: nat, style: Style, strtod: string -> Option<real>)
    requires j.Array? && NumbersAreWritten(j, style, strtod) && n <= |j.elements|
    ensures Values(ElementTexts(j, n, style, strtod)) == j.elements[..n]
    decreases j, 0, n
  {
    hide TextFor, WellFormed, Value;
    if 0 < n {
      ElementsDenote(j, n - 1, style, strtod);
      TextDenotes(j.elements[n - 1], style, strtod);
      var texts := ElementTexts(j, n, style, strtod);
      assert texts[..n - 1] == ElementTexts(j, n - 1, style, strtod);
    }
  }

  function Restricted(members: map<string, Json>, keys: seq<string>): map<string, Json> {
    map k | k in members && k in keys :: members[k]
  }

  lemma RestrictedSnoc(members: map<string, Json>, front: seq<string>, key: string)
    requires key in members
    ensures Restricted(members, front + [key]) == Restricted(members, front)[key := members[key]]
  {
  }

  lemma AllKeys(members: map<string, Json>)
    ensures Restricted(members, Ordered(members.Keys)[..|members|]) == members
  {
    hide Less;
    var keys := Ordered(members.Keys);
    assert keys[..|members|] == keys;
    OnlyKeys(members, keys);
  }

  lemma OnlyKeys(members: map<string, Json>, keys: seq<string>)
    requires forall k :: k in keys <==> k in members.Keys
    ensures Restricted(members, keys) == members
  {
  }

  lemma ValuesSnoc(texts: seq<Member>, key: string, t: Text)
    requires (forall m :: m in texts ==> WellFormed(m.value)) && WellFormed(t)
    ensures forall m :: m in texts + [Member(key, t)] ==> WellFormed(m.value)
    ensures MemberValues(texts + [Member(key, t)]) == MemberValues(texts)[key := Value(t)]
  {
    hide WellFormed, Value;
    var all := texts + [Member(key, t)];
    assert all[..|all| - 1] == texts;
  }

  lemma {:induction false} MembersDenote(j: Json, n: nat, style: Style, strtod: string -> Option<real>)
    requires j.Object? && NumbersAreWritten(j, style, strtod) && n <= |j.members|
    ensures MemberValues(MemberTexts(j, n, style, strtod)) == Restricted(j.members, Ordered(j.members.Keys)[..n])
    decreases j, 0, n
  {
    hide TextFor, WellFormed, Value, Ordered, MemberValues, Restricted, MemberTexts;
    var keys := Ordered(j.members.Keys);
    if n == 0 {
      NoMembersDenote(j, style, strtod);
    } else {
      var key := keys[n - 1];
      MemberTextsStep(j, n - 1, key, style, strtod);
      MembersDenote(j, n - 1, style, strtod);
      TextDenotes(j.members[key], style, strtod);
      ValuesSnoc(MemberTexts(j, n - 1, style, strtod), key, TextFor(j.members[key], style, strtod));
      RestrictedSnoc(j.members, keys[..n - 1], key);
      assert keys[..n] == keys[..n - 1] + [key];
    }
  }

  lemma NoMembersDenote(j: Json, style: Style, strtod: string -> Option<real>)
    requires j.Object? && NumbersAreWritten(j, style, strtod)
    ensures MemberValues(MemberTexts(j, 0, style, strtod)) == Restricted(j.members, Ordered(j.members.Keys)[..0])
  {
    hide Ordered;
  }

  // --- the theorem ---

  /** Parsing what dump() writes, in any style, gives the value back. */
  method ParseDumped(text: string, ghost j: Json, ghost style: Style, strtod: string -> Option<real>)
    returns (result: Option<Json>)
    requires Encodable(j) && NumbersAreWritten(j, style, strtod) && text == Dumped(j, style, 0)
    ensures result == Some(j)
  {
    hide IsRfcText, IsJsonText, UpToZero, Dumped, TextFor, Value;
    ghost var t := TextFor(j, style, strtod);
    DumpIsText(j, style, strtod);
    RfcTextIffNoZero(text, t, strtod);
    TextDenotes(j, style, strtod);
    result := ParseText(text, strtod);
  }

  lemma DumpIsText(j: Json, style: Style, strtod: string -> Option<real>)
    requires Encodable(j) && NumbersAreWritten(j, style, strtod)
    ensures IsRfcText(Dumped(j, style, 0), TextFor(j, style, strtod), strtod)
  {
    hide Written, Dumped, TextFor, SpelledToEnd;
    var s, ts := Dumped(j, style, 0), Tokens(TextFor(j, style, strtod));
    DumpIsWritten(j, style, 0, strtod);
    FirstToken(TextFor(j, style, strtod));
    WrittenIsSpelled([], s, ts, strtod);
    assert [] + s == s;
    NoBomInDump(j, style, strtod);
  }

  lemma NoBomInDump(j: Json, style: Style, strtod: string -> Option<real>)
    requires Encodable(j) && NumbersAreWritten(j, style, strtod)
    ensures L.BomLength(Dumped(j, style, 0)) == 0
  {
    hide DumpedElements, DumpedMembers, EscapedPoints, Decoded, Ordered;
    match j
    case Number(n) =>
      hide Spells, IsTextOfNumber;
      var token := NumberToken(style.numbers(n), n, strtod);
      SpelledStarts(style.numbers(n), token, strtod);
      NoBom(style.numbers(n));
    case _ => NoBom(Dumped(j, style, 0));
  }

  /** dump() and parse(): the value comes back from every text that is written, and one is written if all strings are UTF-8. */
  method DumpAndParse(j: Json, indent: int, ensureAscii: bool, numbers: real -> string, strtod: string -> Option<real>)
    returns (text: Result<string>, result: Option<Json>)
    requires NumbersAreWritten(j, StyleOf(indent, ensureAscii, numbers), strtod)
    ensures text.Ok? <==> StringsAreUtf8(j)
    ensures text.Ok? ==> result == Some(j)
    ensures text.Err? ==> text.id == 316
  {
    hide Encodable, NumbersAreWritten, Dumped, StringsAreUtf8;
    EncodableIffUtf8(j);
    text := DumpValue(j, indent, ensureAscii, numbers);
    result := None;
    if text.Ok? {
      result := ParseDumped(text.value, j, StyleOf(indent, ensureAscii, numbers), strtod);
    }
  }

  /** All strings and keys in a tree are well-formed UTF-8 in section 4 of RFC 3629. */
  ghost predicate StringsAreUtf8(j: Json) {
    match j
    case String(s) => U.WellFormed(s)
    case Array(elements) => forall x :: x in elements ==> StringsAreUtf8(x)
    case Object(members) => forall k :: k in members ==> U.WellFormed(k) && StringsAreUtf8(members[k])
    case _ => true
  }

  lemma {:induction false} EncodableIffUtf8(j: Json)
    ensures Encodable(j) <==> StringsAreUtf8(j)
  {
    hide Decoded, U.WellFormed;
    match j
    case String(s) =>
      DecodedIffWellFormed(s);
    case Array(elements) =>
      forall x | x in elements
        ensures Encodable(x) <==> StringsAreUtf8(x)
      {
        EncodableIffUtf8(x);
      }
    case Object(members) =>
      forall k | k in members
        ensures Decoded(k).Some? <==> U.WellFormed(k)
        ensures Encodable(members[k]) <==> StringsAreUtf8(members[k])
      {
        DecodedIffWellFormed(k);
        EncodableIffUtf8(members[k]);
      }
    case _ =>
  }
}
