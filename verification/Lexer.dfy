/** The lexer: one byte of look-ahead, and the scanners for numbers and strings. */
module Lexers {
  import opened DigitGen
  import opened NumberGrammar
  import opened Options
  import opened StringGrammar
  import opened Utf8

  /** What get() returns at the end of the input. */
  const EOF := -1

  datatype TokenType =
    | BeginArray | EndArray | BeginObject | EndObject | NameSeparator | ValueSeparator
    | LiteralTrue | LiteralFalse | LiteralNull
    | ValueUnsigned | ValueInteger | ValueFloat | ValueString | ParseError | EndOfInput

  predicate HasFractionOrExponent(s: string) {
    '.' in s || 'e' in s || 'E' in s
  }

  /** The digits of an integer, without its sign. */
  function Magnitude(s: string): string {
    if s != [] && s[0] == '-' then s[1..] else s
  }

  predicate IsIntegerText(s: string) {
    AllDigits(Magnitude(s)) && !HasFractionOrExponent(s)
  }

  /** Digits alone are unsigned if they fit 64 bits, after a minus sign they are an integer if it fits 64 bits. */
  function Classified(s: string): TokenType {
    if AllDigits(s) && NumberOf(s) < 0x1_0000_0000_0000_0000 then ValueUnsigned
    else if s != [] && s[0] == '-' && AllDigits(s[1..]) && NumberOf(s[1..]) <= 0x8000_0000_0000_0000 then ValueInteger
    else ValueFloat
  }

  /** An integer is kept as one exactly if it fits into 64 bits, without or with a sign. */
  lemma IntegersFit(digits: string)
    requires digits != [] && AllDigits(digits)
    ensures Classified(digits) == ValueUnsigned <==> NumberOf(digits) <= 18446744073709551615
    ensures Classified("-" + digits) == ValueInteger <==> NumberOf(digits) <= 9223372036854775808
    ensures Classified(digits) != ValueInteger && Classified("-" + digits) != ValueUnsigned
  {
    hide NumberOf;
    var s := "-" + digits;
    assert s[1..] == digits && s[0] == '-' && !IsDigit(s[0]);
    assert IsDigit(digits[0]);
  }

  predicate IsChar(c: int, expected: char) {
    c == expected as int
  }

  predicate IsDigitByte(c: int) {
    '0' as int <= c <= '9' as int
  }

  /** What each state says about the text read so far. */
  predicate Shape(q: State, s: string) {
    match q
    case Init => s == []
    case Minus => s == "-"
    case Zero | Any1 => IsIntegerText(s) && Magnitude(s) != []
    case Decimal1 | Decimal2 => s != [] && '.' in s
    case Exponent | Sign | Any2 => s != [] && ('e' in s || 'E' in s)
  }

  /** The type a number has before range checks. */
  function NumberType(s: string): TokenType {
    if HasFractionOrExponent(s) then ValueFloat
    else if s != [] && s[0] == '-' then ValueInteger
    else ValueUnsigned
  }

  lemma ShapeStep(q: State, s: string, c: char)
    requires Shape(q, s) && Next(q, c).Some?
    ensures Shape(Next(q, c).value, s + [c])
    ensures Next(q, c).value.Decimal1? || Next(q, c).value.Exponent? || q.Init? || NumberType(s + [c]) == NumberType(s)
  {
    if s != [] {
      assert (s + [c])[0] == s[0];
    }
    if q.Init? && c == '-' {
      assert s + [c] == "-";
    }
    if IsDigit(c) {
      assert Magnitude(s + [c]) == Magnitude(s) + [c];
    }
  }

  lemma FirstByte(c: char)
    requires c == '-' || IsDigit(c)
    ensures Run(Init, [c]) == Some(if c == '-' then Minus else if c == '0' then Zero else Any1)
    ensures Shape(Run(Init, [c]).value, [c])
    ensures NumberType([c]) == if c == '-' then ValueInteger else ValueUnsigned
  {
    assert [c][1..] == [];
  }

  lemma NumberGoesOn(p: string, q: State, c: char, r: State)
    requires Run(Init, p) == Some(q) && Shape(q, p) && !q.Init? && Next(q, c) == Some(r)
    ensures Run(Init, p + [c]) == Some(r) && Shape(r, p + [c]) && !r.Init?
    ensures r.Minus? || r.Decimal1? || r.Exponent? || NumberType(p + [c]) == NumberType(p)
  {
    hide NumberType, Run, Shape;
    RunSnoc(p, c);
    ShapeStep(q, p, c);
  }

  lemma TypeInState(q: State, s: string)
    requires Shape(q, s)
    ensures q.Minus? ==> NumberType(s) == ValueInteger
    ensures q.Decimal1? || q.Exponent? ==> NumberType(s) == ValueFloat
    ensures Accepting(q) && NumberType(s) != ValueFloat ==> AllDigits(Magnitude(s))
  {
  }

  /** The contribution of the first hexadecimal digits of four. */
  function HexPart(s: string): (n: nat)
    requires |s| <= 4 && forall i :: 0 <= i < |s| ==> IsHexDigit(s[i])
    ensures |s| == 4 ==> n == Hex4(s)
  {
    (if 0 < |s| then HexValue(s[0]) * 0x1000 else 0) + (if 1 < |s| then HexValue(s[1]) * 0x100 else 0)
    + (if 2 < |s| then HexValue(s[2]) * 0x10 else 0) + (if 3 < |s| then HexValue(s[3]) else 0)
  }

  predicate InRanges(s: string, ranges: seq<(int, int)>) {
    |ranges| <= |s| && forall i :: 0 <= i < |ranges| ==> ranges[i].0 <= s[i] as int <= ranges[i].1
  }

  /** The ranges of the bytes after a lead byte, or none for the bytes that start no longer sequence. */
  function RangesAfter(lead: int): (ranges: seq<(int, int)>)
    ensures forall i :: 0 <= i < |ranges| ==> 0 <= ranges[i].0 && ranges[i].1 < 0x100
  {
    if 0xC2 <= lead <= 0xDF then [(0x80, 0xBF)]
    else if lead == 0xE0 then [(0xA0, 0xBF), (0x80, 0xBF)]
    else if 0xE1 <= lead <= 0xEC || 0xEE <= lead <= 0xEF then [(0x80, 0xBF), (0x80, 0xBF)]
    else if lead == 0xED then [(0x80, 0x9F), (0x80, 0xBF)]
    else if lead == 0xF0 then [(0x90, 0xBF), (0x80, 0xBF), (0x80, 0xBF)]
    else if 0xF1 <= lead <= 0xF3 then [(0x80, 0xBF), (0x80, 0xBF), (0x80, 0xBF)]
    else if lead == 0xF4 then [(0x80, 0x8F), (0x80, 0xBF), (0x80, 0xBF)]
    else []
  }

  /** The ranges describe the multi-byte sequences of UTF-8. */
  lemma RangesDescribeSequences(e: string)
    requires e != [] && 0x80 <= e[0] as int
    ensures IsSequence(e) <==>
      RangesAfter(e[0] as int) != [] && |e| == 1 + |RangesAfter(e[0] as int)| && InRanges(e[1..], RangesAfter(e[0] as int))
  {
    hide Encode;
    var r := RangesAfter(e[0] as int);
    if |e| == 1 + |r| {
      assert forall i :: 0 <= i < |r| ==> e[1..][i] == e[i + 1];
      if |r| == 1 {
        assert InRanges(e[1..], r) <==> r[0].0 <= e[1] as int <= r[0].1;
      } else if |r| == 2 {
        assert InRanges(e[1..], r) <==> r[0].0 <= e[1] as int <= r[0].1 && r[1].0 <= e[2] as int <= r[1].1;
      } else if |r| == 3 {
        assert InRanges(e[1..], r) <==>
          r[0].0 <= e[1] as int <= r[0].1 && r[1].0 <= e[2] as int <= r[1].1 && r[2].0 <= e[3] as int <= r[2].1;
      }
    }
  }

  lemma NoSequence(s: string)
    requires s != [] && 0x80 <= s[0] as int
    requires RangesAfter(s[0] as int) == [] || !InRanges(s[1..], RangesAfter(s[0] as int))
    ensures forall e: string :: e <= s ==> !IsSequence(e)
  {
    forall e: string | e <= s
      ensures !IsSequence(e)
    {
      if e != [] {
        RangesDescribeSequences(e);
        assert forall i :: 0 <= i < |e| - 1 ==> e[1..][i] == s[1..][i];
      }
    }
  }

  /** The item a multi-byte sequence at the start of s is. */
  lemma PlainOf(s: string, n: nat) returns (item: Item)
    requires 2 <= n <= |s| && n == 1 + |RangesAfter(s[0] as int)| && InRanges(s[1..], RangesAfter(s[0] as int))
    ensures item.Valid() && item.Text() == s[..n] == Encode(item.CodePoint())
  {
    var e := s[..n];
    assert e[1..] == s[1..][..n - 1];
    RangesDescribeSequences(e);
    SequencesAreEncodings(e);
    item := Plain(Decode(e));
  }

  /** Every reading of a literal at the start of s begins with these items. */
  ghost predicate StartsEveryReading(items: seq<Item>, s: string) {
    forall all: seq<Item> :: IsReading(all, s) ==> items <= all
  }

  ghost predicate IsReading(all: seq<Item>, s: string) {
    AllValid(all) && TextOf(all) + "\"" <= s
  }

  ghost predicate NoLiteral(s: string) {
    forall literal, value :: literal <= s ==> !Denotes(literal, value)
  }

  /** Where no item starts and no quote stands, no reading of the text goes on. */
  lemma NoReading(items: seq<Item>, s: string)
    requires AllValid(items) && TextOf(items) <= s && StartsEveryReading(items, s)
    requires var rest := s[|TextOf(items)|..]; (rest == [] || rest[0] != '"') && !StartsWithItem(rest)
    ensures NoLiteral(s)
  {
    hide Item.Valid, Item.Text, Item.CodePoint, TextOf;
    forall literal, value | literal <= s
      ensures !Denotes(literal, value)
    {
      if Denotes(literal, value) {
        var all: seq<Item> :| AllValid(all) && literal == TextOf(all) + "\"" && value == EncodeAll(CodePoints(all));
        NotAReading(items, all, s);
      }
    }
  }

  lemma NotAReading(items: seq<Item>, all: seq<Item>, s: string)
    requires AllValid(items) && TextOf(items) <= s && (IsReading(all, s) ==> items <= all)
    requires var rest := s[|TextOf(items)|..]; (rest == [] || rest[0] != '"') && !StartsWithItem(rest)
    ensures !IsReading(all, s)
  {
    hide Item.Valid, Item.Text, Item.CodePoint, TextOf;
    if IsReading(all, s) {
      assert all[..|items|] == items;
      var rest := RestOfReading(all, |items|, s);
    }
  }

  lemma EmptyReading(s: string)
    ensures TextOf([]) == "" && EncodeAll(CodePoints([])) == "" && StartsEveryReading([], s)
  {
  }

  lemma Snoc(items: seq<Item>, item: Item)
    requires AllValid(items) && item.Valid()
    ensures AllValid(items + [item]) && TextOf(items + [item]) == TextOf(items) + item.Text()
    ensures EncodeAll(CodePoints(items + [item])) == EncodeAll(CodePoints(items)) + Encode(item.CodePoint())
  {
    hide Item.Valid, Item.Text, Item.CodePoint, Encode, IsScalar;
    var more := items + [item];
    assert more[..|items|] == items;
    assert CodePoints(more)[..|items|] == CodePoints(items);
  }

  /** One more item belongs to every reading. */
  lemma OneMore(items: seq<Item>, item: Item, s: string)
    requires AllValid(items) && item.Valid() && TextOf(items) <= s && item.Text() <= s[|TextOf(items)|..]
    requires StartsEveryReading(items, s)
    ensures TextOf(items) + item.Text() <= s
    ensures StartsEveryReading(items + [item], s)
  {
    hide Item.Valid, Item.Text, Item.CodePoint, TextOf;
    forall all: seq<Item> | IsReading(all, s)
      ensures items + [item] <= all
    {
      assert all[..|items|] == items;
      ReadingGoesOn(all, |items|, item, s);
    }
  }

  lemma LiteralGoesOn(items: seq<Item>, item: Item, s: string)
    requires AllValid(items) && item.Valid() && TextOf(items) <= s && item.Text() <= s[|TextOf(items)|..]
    requires StartsEveryReading(items, s)
    ensures AllValid(items + [item]) && TextOf(items + [item]) <= s && StartsEveryReading(items + [item], s)
    ensures |TextOf(items + [item])| == |TextOf(items)| + |item.Text()|
    ensures EncodeAll(CodePoints(items + [item])) == EncodeAll(CodePoints(items)) + Encode(item.CodePoint())
  {
    hide Item.Valid, Item.Text, Item.CodePoint, TextOf, EncodeAll, Encode, StartsEveryReading;
    Snoc(items, item);
    OneMore(items, item, s);
  }

  /** A quote behind some items ends their literal. */
  lemma LiteralEnds(items: seq<Item>, input: string, start: nat, end: nat)
    requires AllValid(items) && start < end <= |input| && TextOf(items) <= input[start..]
    requires end == start + |TextOf(items)| + 1 && input[end - 1] == '"'
    ensures Denotes(input[start..end], EncodeAll(CodePoints(items))) && WellFormed(EncodeAll(CodePoints(items)))
  {
    hide Item.Valid, Item.Text, Item.CodePoint, TextOf, EncodeAll, WellFormed;
    assert input[start..][..end - 1 - start] == input[start..end - 1] == TextOf(items);
    assert input[start..end] == input[start..end - 1] + [input[end - 1]];
    EncodeAllIsWellFormed(CodePoints(items));
  }

  /** What is stored for the character behind a backslash, or -1 if it must not stand there. */
  function EscapedByte(c: int): int {
    if IsChar(c, '"') || IsChar(c, '\\') || IsChar(c, '/') then c
    else if IsChar(c, 'b') then 0x08
    else if IsChar(c, 'f') then 0x0C
    else if IsChar(c, 'n') then 0x0A
    else if IsChar(c, 'r') then 0x0D
    else if IsChar(c, 't') then 0x09
    else -1
  }

  lemma NothingEscaped()
    ensures EscapedByte(EOF) == -1
  {
  }

  /** A two-character escape stands for one character below U+0080. */
  lemma ShortItem(s: string)
    requires s != [] && s[0] == '\\'
    ensures 2 <= |s| ==> (EscapedByte(s[1] as int) == -1 <==> s[1] !in "\"\\/bfnrt")
    ensures 2 <= |s| && s[1] in "\"\\/bfnrt" ==>
      && Short(s[1]).Valid() && Short(s[1]).Text() <= s && |Short(s[1]).Text()| == 2
      && 0 <= EscapedByte(s[1] as int) < 0x80
      && Encode(Short(s[1]).CodePoint()) == [EscapedByte(s[1] as int) as char]
  {
  }

  /** A \u escape that is no surrogate. */
  lemma UnitItem(s: string)
    requires 6 <= |s| && s[0] == '\\' && s[1] == 'u' && IsHex4(s[2..6])
    requires !IsHighSurrogate(Hex4(s[2..6])) && !IsLowSurrogate(Hex4(s[2..6]))
    ensures Unit(s[2..6]).Valid() && Unit(s[2..6]).Text() == s[..6] && Unit(s[2..6]).CodePoint() == Hex4(s[2..6])
  {
    hide IsHex4, Hex4;
  }

  /** Two \u escapes that are a surrogate pair. */
  lemma PairItem(s: string)
    requires 6 <= |s| && s[0] == '\\' && s[1] == 'u' && IsHex4(s[2..6]) && IsHighSurrogate(Hex4(s[2..6]))
    requires LowSurrogateFollows(s)
    ensures var item := Pair(s[2..6], s[8..12]);
            item.Valid() && item.Text() == s[..12] && item.CodePoint() == Hex4(s[2..6]) * 0x400 + Hex4(s[8..12]) - 0x35FDC00
  {
    hide IsHex4, Hex4;
  }

  /**
   * The grammar in section 7 of RFC 8259 admits every \u escape with four hexadecimal digits. Here it is an item exactly
   * if it is no low surrogate, and a high one only together with a low one behind it.
   */
  lemma UnicodeEscapeIsItemIff(s: string)
    requires 6 <= |s| && s[0] == '\\' && s[1] == 'u' && IsHex4(s[2..6])
    ensures StartsWithItem(s) <==>
      !IsLowSurrogate(Hex4(s[2..6])) && (IsHighSurrogate(Hex4(s[2..6])) ==> LowSurrogateFollows(s))
  {
    hide StartsWithItem, Hex4, IsHex4, Item.Valid, Item.Text, Item.CodePoint;
    if IsHighSurrogate(Hex4(s[2..6])) && LowSurrogateFollows(s) {
      PairItem(s);
      StartsWith(s, Pair(s[2..6], s[8..12]), 12);
    } else if IsHighSurrogate(Hex4(s[2..6])) || IsLowSurrogate(Hex4(s[2..6])) {
      NoEscape(s);
    } else {
      UnitItem(s);
      StartsWith(s, Unit(s[2..6]), 6);
    }
  }

  lemma StartsWith(s: string, item: Item, n: nat)
    requires item.Valid() && n <= |s| && item.Text() == s[..n]
    ensures StartsWithItem(s)
  {
    hide Item.Valid, Item.Text;
  }

  lemma LoneSurrogateIsNoItem()
    ensures !StartsWithItem("\\uD800")
  {
    var s := "\\uD800";
    assert s[2..6] == "D800" && IsHex4("D800") && Hex4("D800") == 0xD800;
    UnicodeEscapeIsItemIff(s);
  }

  // --- lexemes ---

  predicate IsWhitespace(c: char) {
    c == ' ' || c == '\t' || c == '\n' || c == '\r'
  }

  predicate AllWhitespace(s: string) {
    forall i :: 0 <= i < |s| ==> IsWhitespace(s[i])
  }

  predicate IsNumberType(kind: TokenType) {
    kind.ValueUnsigned? || kind.ValueInteger? || kind.ValueFloat?
  }

  /** The text of the tokens that have only one. */
  function FixedText(kind: TokenType): string {
    match kind
    case BeginArray => "["
    case EndArray => "]"
    case BeginObject => "{"
    case EndObject => "}"
    case NameSeparator => ":"
    case ValueSeparator => ","
    case LiteralTrue => "true"
    case LiteralFalse => "false"
    case LiteralNull => "null"
    case _ => ""
  }

  /** A text of a type; strings and numbers leave something in the token buffer. */
  ghost predicate IsLexeme(s: string, kind: TokenType, buffer: string) {
    if kind.ValueString? then s != [] && s[0] == '"' && Denotes(s[1..], buffer)
    else if IsNumberType(kind) then IsNumber(s) && kind == Classified(s) && buffer == s
    else FixedText(kind) != [] && s == FixedText(kind)
  }

  /** How a token of a type starts. */
  predicate Starts(c: char, kind: TokenType) {
    if kind.ValueString? then c == '"'
    else if IsNumberType(kind) then c == '-' || IsDigit(c)
    else FixedText(kind) != [] && c == FixedText(kind)[0]
  }

  lemma LexemeStarts(s: string, kind: TokenType, buffer: string)
    requires IsLexeme(s, kind, buffer)
    ensures s != [] && Starts(s[0], kind)
  {
    hide Denotes, Classified;
  }

  /** What may stand behind a number in a JSON text. */
  predicate Delimits(c: char) {
    IsWhitespace(c) || c == ',' || c == ']' || c == '}' || c == '\0'
  }

  predicate Delimited(input: string, kind: TokenType, j: nat)
    requires j <= |input|
  {
    IsNumberType(kind) ==> j == |input| || Delimits(input[j])
  }

  /** A number before a delimiter is all the scanner can take. */
  lemma NumberIsLongest(input: string, k: nat, j: nat)
    requires k <= j <= |input| && IsNumber(input[k..j]) && (j == |input| || Delimits(input[j]))
    ensures LongestViable(input[k..j], input[k..])
  {
    hide IsNumber, LongestViable;
    AcceptsIffCompletes(Init, input[k..j]);
    assert input[k..j] <= input[k..] && (j < |input| ==> input[k..][j - k] == input[j]);
    StuckMeansLongest(input[k..j], input[k..]);
  }

  lemma LongestIsUnique(p: string, q: string, s: string)
    requires LongestViable(p, s) && LongestViable(q, s)
    ensures p == q
  {
    hide Viable;
    assert |p| < |q| ==> p < q;
    assert |q| < |p| ==> q < p;
  }

  /** Two lexemes at one place are one, if numbers are as long as they can be. */
  lemma LexemesAreUnique(input: string, k: nat, j1: nat, t1: TokenType, b1: string, j2: nat, t2: TokenType, b2: string)
    requires k <= j1 <= |input| && IsLexeme(input[k..j1], t1, b1)
    requires IsNumberType(t1) ==> LongestViable(input[k..j1], input[k..])
    requires k <= j2 <= |input| && IsLexeme(input[k..j2], t2, b2) && Delimited(input, t2, j2)
    ensures t1 == t2 && j1 == j2 && (t1.ValueString? || IsNumberType(t1) ==> b1 == b2)
  {
    hide Denotes, Classified, IsNumber, LongestViable;
    LexemeStarts(input[k..j1], t1, b1);
    LexemeStarts(input[k..j2], t2, b2);
    if t1.ValueString? {
      assert input[k..j1][1..] == input[k + 1..j1] <= input[k + 1..];
      assert input[k..j2][1..] == input[k + 1..j2] <= input[k + 1..];
      ReadingsAreUnique(input[k + 1..j1], b1, input[k + 1..j2], b2, input[k + 1..]);
    } else if IsNumberType(t1) {
      NumberIsLongest(input, k, j2);
      LongestIsUnique(input[k..j1], input[k..j2], input[k..]);
    }
  }

  /** No token stands at a position. */
  ghost predicate NoToken(input: string, k: nat)
    requires k <= |input|
  {
    forall kind, buffer, j :: k <= j <= |input| && Delimited(input, kind, j) ==> !IsLexeme(input[k..j], kind, buffer)
  }

  lemma NothingStarts(input: string, k: nat)
    requires k <= |input| && (k == |input| || forall kind :: !Starts(input[k], kind))
    ensures NoToken(input, k)
  {
    hide IsLexeme;
    forall kind, buffer, j | k <= j <= |input|
      ensures !IsLexeme(input[k..j], kind, buffer)
    {
      if IsLexeme(input[k..j], kind, buffer) {
        LexemeStarts(input[k..j], kind, buffer);
      }
    }
  }

  lemma FixedIsPrefix(input: string, k: nat, j: nat, kind: TokenType, buffer: string)
    requires k <= j <= |input| && IsLexeme(input[k..j], kind, buffer) && FixedText(kind) != []
    ensures FixedText(kind) <= input[k..]
  {
  }

  lemma OtherLiteral(input: string, k: nat, expected: TokenType)
    requires k < |input| && (expected.LiteralTrue? || expected.LiteralFalse? || expected.LiteralNull?)
    requires Starts(input[k], expected) && !(FixedText(expected) <= input[k..])
    ensures NoToken(input, k)
  {
    hide IsNumber, Denotes, Classified;
    forall kind, buffer, j | k <= j <= |input|
      ensures !IsLexeme(input[k..j], kind, buffer)
    {
      if IsLexeme(input[k..j], kind, buffer) {
        LexemeStarts(input[k..j], kind, buffer);
        FixedIsPrefix(input, k, j, kind, buffer);
      }
    }
  }

  lemma NoString(input: string, k: nat)
    requires k < |input| && input[k] == '"' && NoLiteral(input[k + 1..])
    ensures NoToken(input, k)
  {
    hide IsNumber, Denotes, Classified;
    forall kind, buffer, j | k <= j <= |input|
      ensures !IsLexeme(input[k..j], kind, buffer)
    {
      if IsLexeme(input[k..j], kind, buffer) {
        LexemeStarts(input[k..j], kind, buffer);
        StringLexeme(input, k, j, buffer);
      }
    }
  }

  lemma StringLexeme(input: string, k: nat, j: nat, buffer: string)
    requires k <= j <= |input| && IsLexeme(input[k..j], ValueString, buffer)
    ensures k < j && Denotes(input[k + 1..j], buffer) && input[k + 1..j] <= input[k + 1..]
  {
    hide Denotes;
    assert input[k..j][1..] == input[k + 1..j];
  }

  lemma FixedLexeme(kind: TokenType)
    requires FixedText(kind) != []
    ensures !kind.ValueString? && !IsNumberType(kind)
    ensures forall buffer :: IsLexeme(FixedText(kind), kind, buffer)
  {
  }

  lemma NoPrefix(text: string, s: string, i: nat)
    requires i < |text| && (|s| <= i || s[i] != text[i])
    ensures !(text <= s)
  {
  }

  lemma LongestIsPrefix(p: string, input: string, k: nat)
    requires k <= |input| && LongestViable(p, input[k..])
    ensures k + |p| <= |input| && input[k..k + |p|] == p
  {
    hide Viable;
  }

  lemma NumbersAreClassified(s: string)
    ensures IsNumberType(Classified(s))
  {
  }

  lemma NumberStarts(c: char, kind: TokenType)
    requires Starts(c, kind) && (c == '-' || IsDigit(c))
    ensures IsNumberType(kind)
  {
  }

  lemma NoNumber(input: string, k: nat, p: string)
    requires k < |input| && (input[k] == '-' || IsDigit(input[k]))
    requires LongestViable(p, input[k..]) && !IsNumber(p)
    ensures NoToken(input, k)
  {
    hide IsNumber, Denotes, Classified, LongestViable, Delimits, FixedText;
    forall kind, buffer, j | k <= j <= |input| && Delimited(input, kind, j)
      ensures !IsLexeme(input[k..j], kind, buffer)
    {
      if IsLexeme(input[k..j], kind, buffer) {
        LexemeStarts(input[k..j], kind, buffer);
        NumberStarts(input[k], kind);
        NumberIsLongest(input, k, j);
        LongestIsUnique(p, input[k..j], input[k..]);
      }
    }
  }

  /** The number of bytes of the byte order mark in front of the text. */
  function BomLength(input: string): nat {
    if 3 <= |input| && input[0] as int == 0xEF && input[1] as int == 0xBB && input[2] as int == 0xBF then 3 else 0
  }

  /** What a structural character is, and an error for any other. */
  function StructuralType(c: int): TokenType {
    if IsChar(c, '[') then BeginArray
    else if IsChar(c, ']') then EndArray
    else if IsChar(c, '{') then BeginObject
    else if IsChar(c, '}') then EndObject
    else if IsChar(c, ':') then NameSeparator
    else if IsChar(c, ',') then ValueSeparator
    else ParseError
  }

  class Lexer {
    const input: string
    var pos: nat
    var current: int
    var nextUnget: bool
    var tokenBuffer: string
    var valueUnsigned: nat
    var valueInteger: int

    ghost predicate Valid()
      reads this
    {
      && pos <= |input|
      && (current != EOF ==> 0 < pos && current == input[pos - 1] as int)
      && (nextUnget && current == EOF ==> pos == |input|)
    }

    /** The index of the byte the next get() returns. */
    ghost function NextIndex(): (i: nat)
      requires Valid()
      reads this
      ensures i <= |input|
    {
      if nextUnget && current != EOF then pos - 1 else pos
    }

    constructor (input: string)
      ensures Valid() && this.input == input && pos == 0 == NextIndex()
    {
      this.input := input;
      pos := 0;
      current := EOF;
      nextUnget := false;
      tokenBuffer := [];
      valueUnsigned := 0;
      valueInteger := 0;
    }

    method Get() returns (c: int)
      requires Valid()
      modifies this`pos, this`current, this`nextUnget
      ensures Valid() && !nextUnget && c == current
      ensures old(NextIndex()) < |input| ==> c == input[old(NextIndex())] as int && NextIndex() == old(NextIndex()) + 1
      ensures old(NextIndex()) == |input| ==> c == EOF && NextIndex() == |input|
    {
      if nextUnget {
        nextUnget := false;
      } else if pos < |input| {
        current := input[pos] as int;
        pos := pos + 1;
      } else {
        current := EOF;
      }
      c := current;
    }

    method Unget()
      requires Valid() && !nextUnget && (current == EOF ==> pos == |input|)
      modifies this`nextUnget
      ensures Valid()
      ensures NextIndex() == if current == EOF then old(NextIndex()) else old(NextIndex()) - 1
    {
      nextUnget := true;
    }

    method Add(c: int)
      requires 0 <= c < 0xD800
      modifies this`tokenBuffer
      ensures tokenBuffer == old(tokenBuffer) + [c as char]
    {
      tokenBuffer := tokenBuffer + [c as char];
    }

    /** strtoull and strtoll without a range error, or else the text is kept as a float. */
    method ConvertNumber(numberType: TokenType) returns (token: TokenType)
      requires Valid() && numberType == NumberType(tokenBuffer)
      requires numberType != ValueFloat ==> AllDigits(Magnitude(tokenBuffer))
      modifies this`valueUnsigned, this`valueInteger
      ensures token != ParseError && token == Classified(tokenBuffer)
      ensures token == ValueUnsigned ==> valueUnsigned == NumberOf(tokenBuffer)
      ensures token == ValueInteger ==> valueInteger == 0 - NumberOf(tokenBuffer[1..])
    {
      if numberType == ValueUnsigned {
        var x := NumberOf(tokenBuffer);
        if x < 0x1_0000_0000_0000_0000 {
          valueUnsigned := x;
          return ValueUnsigned;
        }
      } else if numberType == ValueInteger {
        var x := 0 - NumberOf(tokenBuffer[1..]);
        if -0x8000_0000_0000_0000 <= x {
          valueInteger := x;
          return ValueInteger;
        }
      }
      return ValueFloat;
    }

    /** Reads one byte in a state of the number scanner and adds it if the scanner moves on. */
    method ScanNumberByte(state: State) returns (next: Option<State>)
      requires Valid() && !nextUnget && !state.Init?
      modifies this`pos, this`current, this`nextUnget, this`tokenBuffer
      ensures Valid() && !nextUnget
      ensures old(pos) == |input| ==> pos == |input| && current == EOF && next == None
      ensures old(pos) < |input| ==>
        && pos == old(pos) + 1 && current == input[old(pos)] as int
        && next == Next(state, input[old(pos)])
      ensures next.Some? ==> 0 <= current < 0xD800 && tokenBuffer == old(tokenBuffer) + [current as char]
      ensures next.None? ==> tokenBuffer == old(tokenBuffer)
    {
      var c := Get();
      next := None;
      match state {
        case Minus =>
          if IsChar(c, '0') {
            next := Some(Zero);
          } else if IsDigitByte(c) {
            next := Some(Any1);
          }
        case Zero =>
          if IsChar(c, '.') {
            next := Some(Decimal1);
          } else if IsChar(c, 'e') || IsChar(c, 'E') {
            next := Some(Exponent);
          }
        case Any1 =>
          if IsDigitByte(c) {
            next := Some(Any1);
          } else if IsChar(c, '.') {
            next := Some(Decimal1);
          } else if IsChar(c, 'e') || IsChar(c, 'E') {
            next := Some(Exponent);
          }
        case Decimal1 =>
          if IsDigitByte(c) {
            next := Some(Decimal2);
          }
        case Decimal2 =>
          if IsDigitByte(c) {
            next := Some(Decimal2);
          } else if IsChar(c, 'e') || IsChar(c, 'E') {
            next := Some(Exponent);
          }
        case Exponent =>
          if IsChar(c, '+') || IsChar(c, '-') {
            next := Some(Sign);
          } else if IsDigitByte(c) {
            next := Some(Any2);
          }
        case Sign =>
          if IsDigitByte(c) {
            next := Some(Any2);
          }
        case Any2 =>
          if IsDigitByte(c) {
            next := Some(Any2);
          }
      }
      if next.Some? {
        Add(c);
      }
    }

    /** Runs the number scanner from the current byte to the first byte it cannot use. */
    method ScanNumberText() returns (numberType: TokenType, ok: bool)
      requires Valid() && !nextUnget && current != EOF
      requires IsChar(current, '-') || IsDigitByte(current)
      modifies this`pos, this`current, this`nextUnget, this`tokenBuffer
      ensures Valid() && !nextUnget && (current == EOF ==> pos == |input|)
      ensures LongestViable(tokenBuffer, input[old(pos) - 1..])
      ensures ok <==> IsNumber(tokenBuffer)
      ensures pos == old(pos) + |tokenBuffer| - if current == EOF then 1 else 0
      ensures ok ==> numberType == NumberType(tokenBuffer)
      ensures ok && numberType != ValueFloat ==> AllDigits(Magnitude(tokenBuffer))
    {
      ghost var start := pos - 1;
      tokenBuffer := [];
      numberType := ValueUnsigned;
      var state := if IsChar(current, '-') then Minus else if IsChar(current, '0') then Zero else Any1;
      Add(current);
      assert current as char == input[start] && tokenBuffer == [input[start]] == input[start..pos];
      hide NumberType, IsNumber, LongestViable, Shape, Run, Next, AllDigits, Magnitude;
      FirstByte(input[start]);
      while true
        invariant Valid() && !nextUnget && current != EOF && NumberSoFar(start, state, numberType)
        decreases |input| - pos
      {
        var next;
        next, numberType := ScanNumberOn(state, numberType, start);
        if next.None? {
          return numberType, Accepting(state);
        }
        state := next.value;
      }
    }

    /** The number scanner has read the token buffer from position start on and is in a state. */
    ghost predicate NumberSoFar(start: nat, state: State, numberType: TokenType)
      reads this
    {
      && start < pos <= |input| && tokenBuffer == input[start..pos]
      && Run(Init, tokenBuffer) == Some(state) && Shape(state, tokenBuffer) && !state.Init?
      && (state.Minus? || state.Decimal1? || state.Exponent? || numberType == NumberType(tokenBuffer))
    }

    /** One state of the number scanner. */
    method ScanNumberOn(state: State, before: TokenType, ghost start: nat)
      returns (next: Option<State>, numberType: TokenType)
      requires Valid() && !nextUnget && NumberSoFar(start, state, before)
      modifies this`pos, this`current, this`nextUnget, this`tokenBuffer
      ensures Valid() && !nextUnget
      ensures next.Some? ==> current != EOF && old(pos) < pos && NumberSoFar(start, next.value, numberType)
      ensures next.None? ==>
        && (current == EOF ==> pos == |input|)
        && LongestViable(tokenBuffer, input[start..]) && (Accepting(state) <==> IsNumber(tokenBuffer))
        && pos == start + |tokenBuffer| + (if current == EOF then 0 else 1)
        && numberType == NumberType(tokenBuffer)
        && (Accepting(state) && numberType != ValueFloat ==> AllDigits(Magnitude(tokenBuffer)))
    {
      hide NumberType, IsNumber, LongestViable, Shape, Run, Next, AllDigits, Magnitude;
      ghost var p, text := tokenBuffer, input[start..];
      numberType := if state.Minus? then ValueInteger else if state.Decimal1? || state.Exponent? then ValueFloat else before;
      TypeInState(state, p);
      next := ScanNumberByte(state);
      if next.None? {
        assert p <= text && (|p| < |text| ==> text[|p|] == input[start + |p|]);
        StuckMeansLongest(p, text);
      } else {
        ghost var c := input[pos - 1];
        assert input[start..pos] == p + [c] == tokenBuffer;
        NumberGoesOn(p, state, c, next.value);
      }
    }

    /** The number at the current byte. The longest viable text is consumed; it must be a number. */
    method ScanNumber() returns (token: TokenType)
      requires Valid() && !nextUnget && current != EOF
      requires IsChar(current, '-') || IsDigitByte(current)
      modifies this
      ensures Valid()
      ensures LongestViable(tokenBuffer, input[old(pos) - 1..])
      ensures token == ParseError <==> !IsNumber(tokenBuffer)
      ensures token != ParseError ==>
        && LongestNumber(tokenBuffer, input[old(pos) - 1..])
        && NextIndex() == old(pos) - 1 + |tokenBuffer|
        && token == Classified(tokenBuffer)
      ensures token == ValueUnsigned ==> valueUnsigned == NumberOf(tokenBuffer)
      ensures token == ValueInteger ==> valueInteger == 0 - NumberOf(tokenBuffer[1..])
    {
      hide IsNumber, LongestViable, LongestNumber, Classified;
      var numberType, ok := ScanNumberText();
      if !ok {
        return ParseError;
      }
      LongestViableNumber(tokenBuffer, input[old(pos) - 1..]);
      Unget();
      token := ConvertNumber(numberType);
    }

    /** The code unit of the four hexadecimal digits that follow, or -1. */
    method GetCodepoint() returns (codepoint: int)
      requires Valid() && !nextUnget && IsChar(current, 'u')
      modifies this`pos, this`current, this`nextUnget
      ensures Valid() && !nextUnget
      ensures codepoint != -1 <==> old(pos) + 4 <= |input| && IsHex4(input[old(pos)..old(pos) + 4])
      ensures codepoint != -1 ==> pos == old(pos) + 4 && codepoint == Hex4(input[old(pos)..old(pos) + 4])
    {
      var factors := [0x1000, 0x100, 0x10, 0x1];
      codepoint := 0;
      ghost var start, digits := pos, [];
      for i := 0 to 4
        invariant Valid() && !nextUnget && pos == start + i
        invariant digits == input[start..pos]
        invariant forall k :: 0 <= k < |digits| ==> IsHexDigit(digits[k])
        invariant codepoint == HexPart(digits)
      {
        var c := Get();
        if c != EOF {
          digits := digits + [input[start + i]];
        }
        if '0' as int <= c <= '9' as int {
          codepoint := codepoint + (c - 0x30) * factors[i];
        } else if 'A' as int <= c <= 'F' as int {
          codepoint := codepoint + (c - 0x37) * factors[i];
        } else if 'a' as int <= c <= 'f' as int {
          codepoint := codepoint + (c - 0x57) * factors[i];
        } else {
          return -1;
        }
      }
    }

    /** Adds the current byte and then each next one, as long as they are in the given ranges. */
    method NextByteInRange(ranges: seq<(int, int)>) returns (ok: bool)
      requires Valid() && !nextUnget && 0 <= current < 0x100
      requires forall i :: 0 <= i < |ranges| ==> 0 <= ranges[i].0 && ranges[i].1 < 0x100
      modifies this`pos, this`current, this`nextUnget, this`tokenBuffer
      ensures Valid() && !nextUnget
      ensures ok <==> InRanges(input[old(pos)..], ranges)
      ensures ok ==>
        && pos == old(pos) + |ranges|
        && tokenBuffer == old(tokenBuffer) + input[old(pos) - 1..pos]
    {
      ghost var start := pos;
      assert current as char == input[start - 1];
      Add(current);
      for i := 0 to |ranges|
        invariant Valid() && !nextUnget && pos == start + i
        invariant forall k :: 0 <= k < i ==> ranges[k].0 <= input[start + k] as int <= ranges[k].1
        invariant tokenBuffer == old(tokenBuffer) + input[start - 1..pos]
      {
        var c := Get();
        if ranges[i].0 <= c <= ranges[i].1 {
          assert input[start - 1..pos] == input[start - 1..pos - 1] + [c as char];
          Add(c);
        } else {
          assert i < |input[start..]| ==> input[start..][i] as int == c;
          return false;
        }
      }
      ok := true;
    }

    /** Adds the UTF-8 bytes of a code point; the operands the source joins with | have no bit in common. */
    method AddCodepoint(codepoint: nat)
      requires IsScalar(codepoint)
      modifies this`tokenBuffer
      ensures tokenBuffer == old(tokenBuffer) + Encode(codepoint)
    {
      if codepoint < 0x80 {
        Add(codepoint);
      } else if codepoint <= 0x7FF {
        Add(0xC0 + codepoint / 0x40);
        Add(0x80 + codepoint % 0x40);
      } else if codepoint <= 0xFFFF {
        Add(0xE0 + codepoint / 0x1000);
        Add(0x80 + codepoint / 0x40 % 0x40);
        Add(0x80 + codepoint % 0x40);
      } else {
        Add(0xF0 + codepoint / 0x4_0000);
        Add(0x80 + codepoint / 0x1000 % 0x40);
        Add(0x80 + codepoint / 0x40 % 0x40);
        Add(0x80 + codepoint % 0x40);
      }
    }

    /** The low surrogate that must follow a high one, or -1. */
    method GetLowSurrogate() returns (codepoint: int)
      requires Valid() && !nextUnget && 6 <= pos
      modifies this`pos, this`current, this`nextUnget
      ensures Valid() && !nextUnget
      ensures codepoint != -1 <==> LowSurrogateFollows(input[old(pos) - 6..])
      ensures codepoint != -1 ==> pos == old(pos) + 6 && codepoint == Hex4(input[old(pos) - 6..][8..12])
    {
      ghost var s := input[pos - 6..];
      assert 12 <= |s| ==> s[8..12] == input[pos + 2..pos + 6];
      var c := Get();
      if !IsChar(c, '\\') {
        return -1;
      }
      c := Get();
      if !IsChar(c, 'u') {
        return -1;
      }
      codepoint := GetCodepoint();
      if codepoint != -1 && !IsLowSurrogate(codepoint) {
        return -1;
      }
    }

    /** The item is what was read from position start on, and its code point was added to the token buffer. */
    ghost predicate ItemRead(item: Item, start: nat, before: string)
      reads this
    {
      && start <= |input| && item.Valid() && item.Text() <= input[start..]
      && pos == start + |item.Text()| && tokenBuffer == before + Encode(item.CodePoint())
    }

    /** The escape that starts with the two bytes last read, a backslash and a "u". */
    method ScanUnicodeEscape() returns (ok: bool, ghost item: Item)
      requires Valid() && !nextUnget && 2 <= pos && input[pos - 2] == '\\' && IsChar(current, 'u')
      modifies this`pos, this`current, this`nextUnget, this`tokenBuffer
      ensures Valid() && !nextUnget
      ensures ok ==> ItemRead(item, old(pos) - 2, old(tokenBuffer))
      ensures !ok ==> !StartsWithItem(input[old(pos) - 2..])
    {
      hide Encode, Hex4, IsHex4, StartsWithItem, IsLowSurrogate, IsHighSurrogate, LowSurrogateFollows,
           Item.Valid, Item.Text, Item.CodePoint;
      ghost var start := pos - 2;
      ghost var s := input[start..];
      item := Short('/');
      assert s[0] == '\\' && s[1] == 'u';
      assert 6 <= |s| ==> s[2..6] == input[start + 2..start + 6];
      var codepoint := GetCodepoint();
      if codepoint == -1 {
        NoEscape(s);
        return false, item;
      }
      if IsHighSurrogate(codepoint) {
        var codepoint2 := GetLowSurrogate();
        if codepoint2 == -1 {
          NoEscape(s);
          return false, item;
        }
        PairItem(s);
        codepoint := codepoint * 0x400 + codepoint2 - 0x35FDC00;
        item := Pair(s[2..6], s[8..12]);
      } else {
        if IsLowSurrogate(codepoint) {
          NoEscape(s);
          return false, item;
        }
        UnitItem(s);
        item := Unit(s[2..6]);
      }
      AddCodepoint(codepoint);
      ok := true;
    }

    /** The escape at position start that has only one character, which was read last. */
    method ScanShortEscape(ghost start: nat) returns (ok: bool, ghost item: Item)
      requires start < |input| && input[start] == '\\' && !IsChar(current, 'u')
      requires if start + 1 < |input| then current == input[start + 1] as int && pos == start + 2 else current == EOF
      modifies this`tokenBuffer
      ensures ok ==> ItemRead(item, start, old(tokenBuffer))
      ensures !ok ==> !StartsWithItem(input[start..])
    {
      hide Encode, EscapedByte, StartsWithItem, Item.CodePoint;
      ghost var s := input[start..];
      ShortItem(s);
      NothingEscaped();
      var escaped := EscapedByte(current);
      if escaped == -1 {
        NoEscape(s);
        return false, Short('/');
      }
      Add(escaped);
      return true, Short(s[1]);
    }

    /** The escape that starts with the backslash last read. */
    method ScanEscape() returns (ok: bool, ghost item: Item)
      requires Valid() && !nextUnget && 1 <= pos && input[pos - 1] == '\\'
      modifies this`pos, this`current, this`nextUnget, this`tokenBuffer
      ensures Valid() && !nextUnget
      ensures ok ==> ItemRead(item, old(pos) - 1, old(tokenBuffer))
      ensures !ok ==> !StartsWithItem(input[old(pos) - 1..])
    {
      hide Encode, EscapedByte, StartsWithItem, Item.Valid, Item.Text, Item.CodePoint;
      var c := Get();
      if IsChar(c, 'u') {
        ok, item := ScanUnicodeEscape();
      } else {
        ok, item := ScanShortEscape(old(pos) - 1);
      }
    }

    /** The character whose first byte was read last; it is neither a quote nor a backslash. */
    method ScanPlain() returns (ok: bool, ghost item: Item)
      requires Valid() && !nextUnget && current != EOF && !IsChar(current, '"') && !IsChar(current, '\\')
      modifies this`pos, this`current, this`nextUnget, this`tokenBuffer
      ensures Valid() && !nextUnget
      ensures ok ==> ItemRead(item, old(pos) - 1, old(tokenBuffer))
      ensures !ok ==> !StartsWithItem(input[old(pos) - 1..])
    {
      ghost var start := pos - 1;
      ghost var s := input[start..];
      item := Plain(0x20);
      if current < 0x20 {
        NoPlain(s);
        return false, item;
      }
      if current <= 0x7F {
        assert Encode(current) == [s[0]];
        item := Plain(current);
        Add(current);
        return true, item;
      }
      var ranges := RangesAfter(current);
      assert input[pos..] == s[1..];
      if ranges == [] {
        NoSequence(s);
        NoPlain(s);
        return false, item;
      }
      ok := NextByteInRange(ranges);
      if !ok {
        NoSequence(s);
        NoPlain(s);
        return;
      }
      item := PlainOf(s, |ranges| + 1);
      assert input[start..pos] == s[..|ranges| + 1];
    }

    /** The literal behind the opening quote last read; its value is collected in the token buffer. */
    method ScanString() returns (token: TokenType)
      requires Valid() && !nextUnget && IsChar(current, '"')
      modifies this
      ensures Valid() && (token == ValueString || token == ParseError)
      ensures token == ValueString ==>
        && old(pos) <= NextIndex()
        && Denotes(input[old(pos)..NextIndex()], tokenBuffer)
        && WellFormed(tokenBuffer)
      ensures token == ParseError ==> NoLiteral(input[old(pos)..])
    {
      hide Item.Valid, Item.Text, Item.CodePoint, IsScalar, WellFormed, StartsWithItem, StartsEveryReading, NoLiteral, TextOf,
           EncodeAll, Encode, Denotes;
      tokenBuffer := [];
      ghost var start := pos;
      ghost var text := input[start..];
      ghost var items: seq<Item> := [];
      EmptyReading(text);
      while true
        invariant Valid() && !nextUnget
        invariant AllValid(items) && TextOf(items) <= text && pos == start + |TextOf(items)|
        invariant tokenBuffer == EncodeAll(CodePoints(items))
        invariant StartsEveryReading(items, text)
        decreases |input| - pos
      {
        ghost var at := pos;
        assert input[at..] == text[|TextOf(items)|..];
        var c := Get();
        if c == EOF {
          NoPlain(input[at..]);
          NoReading(items, text);
          return ParseError;
        }
        if IsChar(c, '"') {
          LiteralEnds(items, input, start, pos);
          return ValueString;
        }
        var ok: bool;
        ghost var item: Item;
        if IsChar(c, '\\') {
          ok, item := ScanEscape();
        } else {
          ok, item := ScanPlain();
        }
        if !ok {
          NoReading(items, text);
          return ParseError;
        }
        LiteralGoesOn(items, item, text);
        items := items + [item];
      }
    }

    /** The byte at position k was read last, or the end was met there. */
    ghost predicate At(k: nat)
      reads this
    {
      && !nextUnget && k <= |input|
      && if k < |input| then pos == k + 1 && current == input[k] as int else pos == |input| && current == EOF
    }

    /** A lexeme from position k to the next byte was scanned; a number is as long as it can be. */
    ghost predicate Scanned(k: nat, token: TokenType)
      requires Valid()
      reads this
    {
      && k <= NextIndex() && IsLexeme(input[k..NextIndex()], token, tokenBuffer)
      && (IsNumberType(token) ==> LongestViable(input[k..NextIndex()], input[k..]))
      && (token.ValueUnsigned? ==> valueUnsigned == NumberOf(tokenBuffer))
      && (token.ValueInteger? ==> valueInteger == 0 - NumberOf(tokenBuffer[1..]))
    }

    /** A complete byte order mark is skipped, part of one is an error. */
    method SkipBom() returns (ok: bool)
      requires Valid() && pos == 0
      modifies this`pos, this`current, this`nextUnget
      ensures Valid()
      ensures ok ==> NextIndex() == BomLength(input)
      ensures !ok ==> BomLength(input) == 0 && input != [] && input[0] as int == 0xEF
    {
      var c := Get();
      if c == 0xEF {
        c := Get();
        if c != 0xBB {
          return false;
        }
        c := Get();
        return c == 0xBF;
      }
      Unget();
      ok := true;
    }

    method SkipWhitespace() returns (ghost k: nat)
      requires Valid()
      modifies this`pos, this`current, this`nextUnget
      ensures Valid() && At(k) && (k < |input| ==> !IsWhitespace(input[k]))
      ensures old(NextIndex()) <= k && AllWhitespace(input[old(NextIndex())..k])
    {
      k := NextIndex();
      var c := Get();
      while IsChar(c, ' ') || IsChar(c, '\t') || IsChar(c, '\n') || IsChar(c, '\r')
        invariant Valid() && At(k) && c == current
        invariant old(NextIndex()) <= k && AllWhitespace(input[old(NextIndex())..k])
        decreases |input| - k
      {
        assert input[old(NextIndex())..k + 1] == input[old(NextIndex())..k] + [input[k]];
        c := Get();
        k := k + 1;
      }
    }

    /** scan_literal(): the first character was read last. */
    method ScanLiteral(text: string, kind: TokenType, ghost k: nat) returns (token: TokenType)
      requires Valid() && At(k) && k < |input| && Starts(input[k], kind)
      requires (kind.LiteralTrue? || kind.LiteralFalse? || kind.LiteralNull?) && text == FixedText(kind)
      modifies this`pos, this`current, this`nextUnget
      ensures Valid()
      ensures (token == kind && Scanned(k, token)) || (token == ParseError && NoToken(input, k))
    {
      hide IsLexeme, NoToken;
      for i := 1 to |text|
        invariant Valid() && !nextUnget && pos == k + i && text[..i] == input[k..pos]
      {
        var c := Get();
        if !IsChar(c, text[i]) {
          NoPrefix(text, input[k..], i);
          OtherLiteral(input, k, kind);
          return ParseError;
        }
        assert input[k..pos] == input[k..pos - 1] + [text[i]];
      }
      FixedLexeme(kind);
      assert text[..|text|] == text;
      token := kind;
    }

    method ScanStringToken(ghost k: nat) returns (token: TokenType)
      requires Valid() && At(k) && k < |input| && input[k] == '"'
      modifies this
      ensures Valid()
      ensures (token == ValueString && Scanned(k, token)) || (token == ParseError && NoToken(input, k))
    {
      hide NoLiteral, Denotes, NoToken;
      token := ScanString();
      if token == ParseError {
        NoString(input, k);
      } else {
        assert input[k..NextIndex()][1..] == input[k + 1..NextIndex()];
      }
    }

    method ScanNumberToken(ghost k: nat) returns (token: TokenType)
      requires Valid() && At(k) && k < |input| && (input[k] == '-' || IsDigit(input[k]))
      modifies this
      ensures Valid()
      ensures (IsNumberType(token) && Scanned(k, token)) || (token == ParseError && NoToken(input, k))
    {
      hide IsNumber, LongestViable, LongestNumber, NoToken, Classified;
      token := ScanNumber();
      if token == ParseError {
        NoNumber(input, k, tokenBuffer);
      } else {
        LongestIsPrefix(tokenBuffer, input, k);
        NumbersAreClassified(tokenBuffer);
      }
    }

    /** The switch of scan(). */
    method ScanToken(ghost k: nat) returns (token: TokenType)
      requires Valid() && At(k)
      modifies this
      ensures Valid()
      ensures token == EndOfInput <==> k == |input| || input[k] == '\0'
      ensures token == ParseError ==> NoToken(input, k)
      ensures token != ParseError && token != EndOfInput ==> Scanned(k, token)
    {
      hide IsLexeme, NoToken, IsNumber, LongestViable;
      if current == EOF || IsChar(current, '\0') {
        return EndOfInput;
      }
      if IsChar(current, 't') {
        token := ScanLiteral("true", LiteralTrue, k);
      } else if IsChar(current, 'f') {
        token := ScanLiteral("false", LiteralFalse, k);
      } else if IsChar(current, 'n') {
        token := ScanLiteral("null", LiteralNull, k);
      } else if IsChar(current, '"') {
        token := ScanStringToken(k);
      } else if IsChar(current, '-') || IsDigitByte(current) {
        token := ScanNumberToken(k);
      } else {
        token := StructuralType(current);
        if token == ParseError {
          NothingStarts(input, k);
        } else {
          FixedLexeme(token);
          assert input[k..k + 1] == FixedText(token);
        }
      }
    }

    /** Where the next token may start: behind the byte order mark at first. */
    ghost function Begin(): nat
      requires Valid()
      reads this
    {
      if pos == 0 then BomLength(input) else NextIndex()
    }

    /** scan(): the token at position k behind the whitespace. */
    method Scan() returns (token: TokenType, ghost k: nat)
      requires Valid()
      modifies this
      ensures Valid()
      ensures old(Begin()) <= k <= |input| && AllWhitespace(input[old(Begin())..k])
      ensures k < |input| ==> !IsWhitespace(input[k])
      ensures token == EndOfInput <==> k == |input| || input[k] == '\0'
      ensures token == ParseError ==> NoToken(input, k)
      ensures token != ParseError && token != EndOfInput ==> Scanned(k, token)
    {
      hide NoToken, Scanned;
      if pos == 0 {
        var ok := SkipBom();
        if !ok {
          NothingStarts(input, 0);
          return ParseError, 0;
        }
      }
      k := SkipWhitespace();
      token := ScanToken(k);
    }
  }
}
