/** The text that dump() writes for a value. */
module Serializing {
  import opened DigitGen
  import opened JsonValues
  import opened JsonPointers
  import opened Options
  import opened StringGrammar
  import opened Utf8

  // --- the code points of a string ---

  /** The number of bytes of the UTF-8 sequence a string starts with, or 0. */
  function SequenceLength(s: string): (n: nat)
    ensures n <= |s| && (0 < n ==> IsSequence(s[..n]))
  {
    if 1 <= |s| && IsSequence(s[..1]) then 1
    else if 2 <= |s| && IsSequence(s[..2]) then 2
    else if 3 <= |s| && IsSequence(s[..3]) then 3
    else if 4 <= |s| && IsSequence(s[..4]) then 4
    else 0
  }

  lemma {:induction false} EncodeAllCons(cp: nat, cps: seq<nat>)
    requires IsScalar(cp) && AllScalar(cps)
    ensures AllScalar([cp] + cps) && EncodeAll([cp] + cps) == Encode(cp) + EncodeAll(cps)
  {
    hide Encode, IsScalar;
    var all := [cp] + cps;
    assert AllScalar(all);
    if cps == [] {
      assert all == [cp] && all[..0] == [];
    } else {
      assert all[..|all| - 1] == [cp] + cps[..|cps| - 1];
      EncodeAllCons(cp, cps[..|cps| - 1]);
    }
  }

  /** The code points of a string, or none if it is not well-formed UTF-8. */
  function Decoded(s: string): (r: Option<seq<nat>>)
    ensures r.Some? ==> AllScalar(r.value) && EncodeAll(r.value) == s
    decreases |s|
  {
    if s == [] then Some([])
    else
      var n := SequenceLength(s);
      if n == 0 then None
      else
        var rest := Decoded(s[n..]);
        if rest.None? then None
        else
          FirstIsDecoded(s, n, rest.value);
          Some([Decode(s[..n])] + rest.value)
  }

  lemma FirstIsDecoded(s: string, n: nat, rest: seq<nat>)
    requires n <= |s| && IsSequence(s[..n]) && AllScalar(rest) && EncodeAll(rest) == s[n..]
    ensures AllScalar([Decode(s[..n])] + rest) && EncodeAll([Decode(s[..n])] + rest) == s
  {
    hide IsSequence, Decode, Encode, IsScalar;
    SequencesAreEncodings(s[..n]);
    EncodeAllCons(Decode(s[..n]), rest);
    assert s == s[..n] + s[n..];
  }

  lemma FirstSequence(cp: nat, rest: string)
    requires IsScalar(cp)
    ensures var s := Encode(cp) + rest;
            SequenceLength(s) == |Encode(cp)| && s[..|Encode(cp)|] == Encode(cp) && s[|Encode(cp)|..] == rest
  {
    EncodingsAreSequences(cp);
    var e, s := Encode(cp), Encode(cp) + rest;
    assert s[..|e|] == e && s[|e|..] == rest;
    forall n | 1 <= n < |e|
      ensures !IsSequence(s[..n])
    {
      assert s[..n][0] == e[0];
    }
  }

  lemma DecodedCons(cp: nat, rest: string)
    requires IsScalar(cp)
    ensures Decoded(Encode(cp) + rest) == if Decoded(rest).None? then None else Some([cp] + Decoded(rest).value)
  {
    hide Encode, Decode, SequenceLength;
    FirstSequence(cp, rest);
    EncodingsAreSequences(cp);
  }

  lemma {:induction false} DecodedPrefix(cps: seq<nat>, rest: string)
    requires AllScalar(cps)
    ensures Decoded(EncodeAll(cps) + rest) == if Decoded(rest).None? then None else Some(cps + Decoded(rest).value)
    decreases |cps|
  {
    hide Decoded, Encode, IsScalar;
    if cps == [] {
      assert EncodeAll(cps) + rest == rest;
      assert Decoded(rest).Some? ==> cps + Decoded(rest).value == Decoded(rest).value;
    } else {
      var cp, more := cps[0], cps[1..];
      assert cps == [cp] + more;
      DecodedPrefix(more, rest);
      EncodeAllCons(cp, more);
      assert EncodeAll(cps) + rest == Encode(cp) + (EncodeAll(more) + rest);
      DecodedCons(cp, EncodeAll(more) + rest);
      assert Decoded(rest).Some? ==> [cp] + (more + Decoded(rest).value) == cps + Decoded(rest).value;
    }
  }

  lemma NothingIsDecoded()
    ensures Decoded([]) == Some([])
  {
  }

  lemma EncodedIsDecoded(cps: seq<nat>)
    requires AllScalar(cps)
    ensures Decoded(EncodeAll(cps)) == Some(cps)
  {
    hide Decoded;
    DecodedPrefix(cps, []);
    NothingIsDecoded();
    assert EncodeAll(cps) + [] == EncodeAll(cps) && cps + [] == cps;
  }

  lemma {:induction false} WellFormedIsEncoded(s: string) returns (cps: seq<nat>)
    requires WellFormed(s)
    ensures AllScalar(cps) && EncodeAll(cps) == s
    decreases |s|
  {
    hide IsSequence, Decode, Encode, IsScalar;
    if s == [] {
      cps := [];
    } else {
      var k :| 0 <= k < |s| && IsSequence(s[k..]) && WellFormed(s[..k]);
      var front := WellFormedIsEncoded(s[..k]);
      SequencesAreEncodings(s[k..]);
      cps := front + [Decode(s[k..])];
      assert cps[..|front|] == front && s == s[..k] + s[k..];
    }
  }

  /** Exactly the well-formed strings have code points. */
  lemma DecodedIffWellFormed(s: string)
    ensures Decoded(s).Some? <==> WellFormed(s)
  {
    hide Decoded;
    if Decoded(s).Some? {
      EncodeAllIsWellFormed(Decoded(s).value);
    }
    if WellFormed(s) {
      var cps := WellFormedIsEncoded(s);
      EncodedIsDecoded(cps);
    }
  }

  // --- strings ---

  function HexChar(d: nat): (c: char)
    requires d < 16
    ensures IsHexDigit(c) && HexValue(c) == d
  {
    if d < 10 then ('0' as int + d) as char else ('a' as int + d - 10) as char
  }

  lemma FourDigits(u: nat)
    requires u <= 0xFFFF
    ensures u / 0x1000 < 16
    ensures ((u / 0x1000 * 16 + u / 0x100 % 16) * 16 + u / 0x10 % 16) * 16 + u % 16 == u
  {
    assert u / 0x10 / 0x10 == u / 0x100 && u / 0x100 / 0x10 == u / 0x1000;
  }

  /** "%04x" */
  function HexText(u: nat): (s: string)
    requires u <= 0xFFFF
    ensures IsHex4(s) && Hex4(s) == u
  {
    FourDigits(u);
    [HexChar(u / 0x1000), HexChar(u / 0x100 % 16), HexChar(u / 0x10 % 16), HexChar(u % 16)]
  }

  /** How one code point is written. */
  function EscapedPoint(cp: nat, ensureAscii: bool): string
    requires IsScalar(cp)
  {
    if cp == 0x08 then "\\b"
    else if cp == 0x09 then "\\t"
    else if cp == 0x0A then "\\n"
    else if cp == 0x0C then "\\f"
    else if cp == 0x0D then "\\r"
    else if cp == 0x22 then "\\\""
    else if cp == 0x5C then "\\\\"
    else if cp <= 0x1F || (ensureAscii && 0x7F <= cp) then
      if cp <= 0xFFFF then "\\u" + HexText(cp)
      else "\\u" + HexText(0xD7C0 + cp / 0x400) + "\\u" + HexText(0xDC00 + cp % 0x400)
    else Encode(cp)
  }

  lemma HexExamples()
    ensures HexText(0x1F) == "001f" && HexText(0xE4) == "00e4"
  {
    SomeHexChars();
    hide HexChar;
  }

  lemma HexOfPair()
    ensures HexText(0xD83D) == "d83d" && HexText(0xDE00) == "de00"
  {
    SomeHexChars();
    hide HexChar;
  }

  lemma SomeHexChars()
    ensures HexChar(0) == '0' && HexChar(1) == '1' && HexChar(3) == '3' && HexChar(4) == '4' && HexChar(8) == '8'
    ensures HexChar(13) == 'd' && HexChar(14) == 'e' && HexChar(15) == 'f'
  {
  }

  lemma OneHexEscape(cp: nat, ensureAscii: bool)
    requires IsScalar(cp) && cp <= 0xFFFF && cp !in {8, 9, 10, 12, 13, 0x22, 0x5C}
    requires cp <= 0x1F || (ensureAscii && 0x7F <= cp)
    ensures EscapedPoint(cp, ensureAscii) == "\\u" + HexText(cp)
  {
    hide HexText, Encode;
  }

  lemma TwoHexEscapes(cp: nat)
    requires 0xFFFF < cp <= 0x10FFFF
    ensures EscapedPoint(cp, true) == "\\u" + HexText(0xD7C0 + cp / 0x400) + "\\u" + HexText(0xDC00 + cp % 0x400)
  {
    hide HexText, Encode;
  }

  /** U+001F, U+00E4 and U+1F600. */
  lemma EscapedExamples()
    ensures EscapedPoint(0x1F, false) == "\\u001f" && EscapedPoint(0xE4, true) == "\\u00e4"
    ensures EscapedPoint(0x1F600, true) == "\\ud83d\\ude00"
  {
    hide HexText, EscapedPoint;
    HexExamples();
    HexOfPair();
    OneHexEscape(0x1F, false);
    OneHexEscape(0xE4, true);
    TwoHexEscapes(0x1F600);
    assert "\\u" + "d83d" + "\\u" + "de00" == "\\ud83d\\ude00";
  }

  function EscapedPoints(cps: seq<nat>, ensureAscii: bool): string
    requires AllScalar(cps)
  {
    if cps == [] then [] else EscapedPoints(cps[..|cps| - 1], ensureAscii) + EscapedPoint(cps[|cps| - 1], ensureAscii)
  }

  /** A string in quotes. */
  function Quoted(s: string, ensureAscii: bool): string
    requires Decoded(s).Some?
  {
    "\"" + EscapedPoints(Decoded(s).value, ensureAscii) + "\""
  }

  // --- trees ---

  /** How a text is laid out, and how numbers are written in it. */
  datatype Style = Style(pretty: bool, ensureAscii: bool, step: nat, numbers: real -> string)

  /** All strings in it are well-formed UTF-8. */
  predicate Encodable(j: Json) {
    match j
    case String(s) => Decoded(s).Some?
    case Array(elements) => forall x :: x in elements ==> Encodable(x)
    case Object(members) => forall k :: k in members ==> Decoded(k).Some? && Encodable(members[k])
    case _ => true
  }

  function Spaces(n: nat): (s: string)
    ensures |s| == n
  {
    seq(n, _ => ' ')
  }

  /** A new line at some indentation, if the text is laid out in lines. */
  function NewLine(style: Style, indent: nat): string {
    if style.pretty then "\n" + Spaces(indent) else ""
  }

  function Dumped(j: Json, style: Style, indent: nat): string
    requires Encodable(j)
    decreases j, 1, 0
  {
    match j
    case Null => "null"
    case Boolean(b) => if b then "true" else "false"
    case Number(n) => style.numbers(n)
    case String(s) => Quoted(s, style.ensureAscii)
    case Array(elements) =>
      if elements == [] then "[]"
      else "[" + DumpedElements(j, |elements|, style, indent + style.step) + NewLine(style, indent) + "]"
    case Object(members) =>
      if members == map[] then "{}"
      else "{" + DumpedMembers(j, |members|, style, indent + style.step) + NewLine(style, indent) + "}"
  }

  /** The first n elements of an array. */
  function DumpedElements(j: Json, n: nat, style: Style, indent: nat): string
    requires j.Array? && Encodable(j) && n <= |j.elements|
    decreases j, 0, n
  {
    if n == 0 then []
    else
      DumpedElements(j, n - 1, style, indent) + (if n == 1 then "" else ",")
      + NewLine(style, indent) + Dumped(j.elements[n - 1], style, indent)
  }

  /** The first n members of an object, in the order of their keys. */
  function DumpedMembers(j: Json, n: nat, style: Style, indent: nat): string
    requires j.Object? && Encodable(j) && n <= |j.members|
    decreases j, 0, n
  {
    if n == 0 then []
    else
      var key := Ordered(j.members.Keys)[n - 1];
      KeyIsThere(j.members, n - 1);
      DumpedMembers(j, n - 1, style, indent) + (if n == 1 then "" else ",") + NewLine(style, indent)
      + Quoted(key, style.ensureAscii) + (if style.pretty then ": " else ":") + Dumped(j.members[key], style, indent)
  }

  lemma KeyIsThere(members: map<string, Json>, i: nat)
    requires i < |members|
    ensures Ordered(members.Keys)[i] in members
  {
    assert Ordered(members.Keys)[i] in members.Keys;
  }

  // --- the automaton that decodes UTF-8 ---

  const UTF8_ACCEPT: nat := 0
  const UTF8_REJECT: nat := 1

  /** The first part of the table: the class of each byte. */
  function ByteClass(b: nat): (c: nat)
    ensures c < 16
  {
    if b <= 0x7F then 0
    else if b <= 0x8F then 1
    else if b <= 0x9F then 9
    else if b <= 0xBF then 7
    else if b <= 0xC1 then 8
    else if b <= 0xDF then 2
    else if b == 0xE0 then 10
    else if b == 0xED then 4
    else if b <= 0xEF then 3
    else if b == 0xF0 then 11
    else if b <= 0xF3 then 6
    else if b == 0xF4 then 5
    else 8
  }

  /** The second part: the row of sixteen states for each state. */
  const ROWS: seq<seq<nat>> := [
    [0, 1, 2, 3, 5, 8, 7, 1, 1, 1, 4, 6, 1, 1, 1, 1],
    [1, 1, 1, 1, 1, 1, 1, 1, 1, 1, 1, 1, 1, 1, 1, 1],
    [1, 0, 1, 1, 1, 1, 1, 0, 1, 0, 1, 1, 1, 1, 1, 1],
    [1, 2, 1, 1, 1, 1, 1, 2, 1, 2, 1, 1, 1, 1, 1, 1],
    [1, 1, 1, 1, 1, 1, 1, 2, 1, 1, 1, 1, 1, 1, 1, 1],
    [1, 2, 1, 1, 1, 1, 1, 1, 1, 2, 1, 1, 1, 1, 1, 1],
    [1, 1, 1, 1, 1, 1, 1, 3, 1, 3, 1, 1, 1, 1, 1, 1],
    [1, 3, 1, 1, 1, 1, 1, 3, 1, 3, 1, 1, 1, 1, 1, 1],
    [1, 3, 1, 1, 1, 1, 1, 1, 1, 1, 1, 1, 1, 1, 1, 1]]

  /** 0xFF >> type, as the number of values its bits have. */
  function FirstValues(c: nat): (n: nat)
    ensures 0 < n
  {
    match c
    case 0 => 0x100
    case 1 => 0x80
    case 2 => 0x40
    case 3 => 0x20
    case 4 => 0x10
    case 5 => 8
    case 6 => 4
    case 7 => 2
    case _ => 1
  }

  /** decode() */
  function NextState(state: nat, b: nat): (r: nat)
    requires state < 9
    ensures r < 9
  {
    ROWS[state][ByteClass(b)]
  }

  function NextCodePoint(state: nat, codepoint: nat, b: nat): nat {
    if state != UTF8_ACCEPT then codepoint * 0x40 + b % 0x40 else b % FirstValues(ByteClass(b))
  }

  // --- what its states mean ---

  predicate SecondOfThree(p: string) {
    2 <= |p| &&
      (|| (InRange(p[0], 0xE0, 0xE0) && InRange(p[1], 0xA0, 0xBF))
       || (InRange(p[0], 0xE1, 0xEC) && IsTail(p[1]))
       || (InRange(p[0], 0xED, 0xED) && InRange(p[1], 0x80, 0x9F))
       || (InRange(p[0], 0xEE, 0xEF) && IsTail(p[1])))
  }

  predicate SecondOfFour(p: string) {
    2 <= |p| &&
      (|| (InRange(p[0], 0xF0, 0xF0) && InRange(p[1], 0x90, 0xBF))
       || (InRange(p[0], 0xF1, 0xF3) && IsTail(p[1]))
       || (InRange(p[0], 0xF4, 0xF4) && InRange(p[1], 0x80, 0x8F)))
  }

  /** The bytes of an unfinished sequence in each state, with the bits read so far. */
  predicate Unfinished(p: string, state: nat, codepoint: nat) {
    match state
    case 0 => p == []
    case 2 =>
      || (|p| == 1 && InRange(p[0], 0xC2, 0xDF) && codepoint == p[0] as int - 0xC0)
      || (|p| == 2 && SecondOfThree(p) && codepoint == (p[0] as int - 0xE0) * 0x40 + (p[1] as int - 0x80))
      || (|p| == 3 && SecondOfFour(p) && IsTail(p[2])
          && codepoint == ((p[0] as int - 0xF0) * 0x40 + (p[1] as int - 0x80)) * 0x40 + (p[2] as int - 0x80))
    case 3 =>
      || (|p| == 1 && (InRange(p[0], 0xE1, 0xEC) || InRange(p[0], 0xEE, 0xEF)) && codepoint == p[0] as int - 0xE0)
      || (|p| == 2 && SecondOfFour(p) && codepoint == (p[0] as int - 0xF0) * 0x40 + (p[1] as int - 0x80))
    case 4 => |p| == 1 && InRange(p[0], 0xE0, 0xE0) && codepoint == 0
    case 5 => |p| == 1 && InRange(p[0], 0xED, 0xED) && codepoint == 0xD
    case 6 => |p| == 1 && InRange(p[0], 0xF0, 0xF0) && codepoint == 0
    case 7 => |p| == 1 && InRange(p[0], 0xF1, 0xF3) && codepoint == p[0] as int - 0xF0
    case 8 => |p| == 1 && InRange(p[0], 0xF4, 0xF4) && codepoint == 4
    case _ => false
  }

  // --- the rows of the table as ranges of bytes ---

  lemma FirstRow(b: nat)
    ensures NextState(0, b) ==
      if b <= 0x7F then 0
      else if b < 0xC2 || 0xF4 < b then 1
      else if b <= 0xDF then 2
      else if b == 0xE0 then 4
      else if b == 0xED then 5
      else if b <= 0xEF then 3
      else if b == 0xF0 then 6
      else if b == 0xF4 then 8
      else 7
  {
  }

  lemma OtherRows(b: nat)
    ensures NextState(2, b) == if 0x80 <= b <= 0xBF then 0 else 1
    ensures NextState(3, b) == if 0x80 <= b <= 0xBF then 2 else 1
    ensures NextState(4, b) == if 0xA0 <= b <= 0xBF then 2 else 1
    ensures NextState(5, b) == if 0x80 <= b <= 0x9F then 2 else 1
  {
  }

  lemma LastRows(b: nat)
    ensures NextState(6, b) == if 0x90 <= b <= 0xBF then 3 else 1
    ensures NextState(7, b) == if 0x80 <= b <= 0xBF then 3 else 1
    ensures NextState(8, b) == if 0x80 <= b <= 0x8F then 3 else 1
  {
  }

  /** The bits the first byte of a sequence carries. */
  lemma FirstBits(codepoint: nat, b: nat)
    requires b <= 0x7F || 0xC2 <= b <= 0xF4
    ensures NextCodePoint(0, codepoint, b) ==
      if b <= 0x7F then b else if b <= 0xDF then b - 0xC0 else if b <= 0xEF then b - 0xE0 else b - 0xF0
  {
  }

  /** No sequence starts so. */
  ghost predicate StartsNothing(p: string) {
    forall s: string :: p <= s ==> SequenceLength(s) == 0
  }

  /** What one more byte makes of an unfinished sequence. */
  ghost predicate StepsRight(p: string, state: nat, codepoint: nat, c: char)
    requires state < 9
  {
    var next, n := NextState(state, c as nat), NextCodePoint(state, codepoint, c as nat);
    if next == UTF8_ACCEPT then IsSequence(p + [c]) && n == Decode(p + [c])
    else if next == UTF8_REJECT then StartsNothing(p + [c])
    else Unfinished(p + [c], next, n)
  }

  /** What the start of a sequence looks like. */
  lemma SequenceStarts(s: string)
    ensures 0 < SequenceLength(s) ==>
      || InRange(s[0], 0x00, 0x7F)
      || (2 <= |s| && InRange(s[0], 0xC2, 0xDF) && IsTail(s[1]))
      || (3 <= |s| && SecondOfThree(s) && IsTail(s[2]))
      || (4 <= |s| && SecondOfFour(s) && IsTail(s[2]) && IsTail(s[3]))
  {
    var n := SequenceLength(s);
    if 0 < n {
      var e := s[..n];
      assert forall i :: 0 <= i < n ==> e[i] == s[i];
    }
  }

  lemma WrongStart(p: string)
    requires p != [] && !InRange(p[0], 0x00, 0x7F)
    requires InRange(p[0], 0xC2, 0xDF) ==> 2 <= |p| && !IsTail(p[1])
    requires InRange(p[0], 0xE0, 0xEF) ==> (2 <= |p| && !SecondOfThree(p)) || (3 <= |p| && !IsTail(p[2]))
    requires InRange(p[0], 0xF0, 0xF4) ==> (2 <= |p| && !SecondOfFour(p)) || (3 <= |p| && !IsTail(p[2]))
                                           || (4 <= |p| && !IsTail(p[3]))
    ensures StartsNothing(p)
  {
    hide SequenceLength;
    forall s: string | p <= s
      ensures SequenceLength(s) == 0
    {
      SequenceStarts(s);
      assert forall i :: 0 <= i < |p| ==> p[i] == s[i];
    }
  }

  lemma FirstStep(codepoint: nat, c: char)
    ensures StepsRight([], 0, codepoint, c)
  {
    hide NextState, NextCodePoint, StartsNothing;
    FirstRow(c as nat);
    var p := [] + [c];
    assert p == [c] && p[0] == c;
    if c as nat <= 0x7F {
      FirstBits(codepoint, c as nat);
      assert IsSequence(p) && Decode(p) == c as nat;
    } else if 0xC2 <= c as nat <= 0xF4 {
      FirstBits(codepoint, c as nat);
    } else {
      WrongStart([c]);
    }
  }

  /** The last byte of a sequence of two. */
  lemma LastOfTwo(p: string, codepoint: nat, c: char)
    requires Unfinished(p, 2, codepoint) && |p| == 1
    ensures StepsRight(p, 2, codepoint, c)
  {
    hide NextState, StartsNothing;
    OtherRows(c as nat);
    if !IsTail(c) {
      WrongStart(p + [c]);
    }
  }

  lemma LastOfThree(p: string, codepoint: nat, c: char)
    requires Unfinished(p, 2, codepoint) && |p| == 2
    ensures StepsRight(p, 2, codepoint, c)
  {
    hide NextState, StartsNothing;
    OtherRows(c as nat);
    if !IsTail(c) {
      WrongStart(p + [c]);
    }
  }

  lemma LastOfFour(p: string, codepoint: nat, c: char)
    requires Unfinished(p, 2, codepoint) && |p| == 3
    ensures StepsRight(p, 2, codepoint, c)
  {
    hide NextState, StartsNothing;
    OtherRows(c as nat);
    if !IsTail(c) {
      WrongStart(p + [c]);
    }
  }

  /** Two bytes are missing. */
  lemma ThirdState(p: string, codepoint: nat, c: char)
    requires Unfinished(p, 3, codepoint)
    ensures StepsRight(p, 3, codepoint, c)
  {
    hide NextState, StartsNothing;
    OtherRows(c as nat);
    if !IsTail(c) {
      WrongStart(p + [c]);
    }
  }

  /** The second byte after E0, ED, F0 to F3 and F4. */
  lemma SecondByte(p: string, state: nat, codepoint: nat, c: char)
    requires 4 <= state < 9 && Unfinished(p, state, codepoint)
    ensures StepsRight(p, state, codepoint, c)
  {
    hide NextState, StartsNothing;
    OtherRows(c as nat);
    LastRows(c as nat);
    if NextState(state, c as nat) == UTF8_REJECT {
      WrongStart(p + [c]);
    }
  }

  /** One byte: the automaton accepts exactly the finished sequences and rejects exactly what starts none. */
  lemma AutomatonStep(p: string, state: nat, codepoint: nat, c: char)
    requires state < 9 && Unfinished(p, state, codepoint)
    ensures StepsRight(p, state, codepoint, c)
  {
    hide StepsRight;
    if state == 0 {
      FirstStep(codepoint, c);
    } else if state == 2 && |p| == 1 {
      LastOfTwo(p, codepoint, c);
    } else if state == 2 && |p| == 2 {
      LastOfThree(p, codepoint, c);
    } else if state == 2 {
      LastOfFour(p, codepoint, c);
    } else if state == 3 {
      ThirdState(p, codepoint, c);
    } else {
      SecondByte(p, state, codepoint, c);
    }
  }

  // --- reading a string code point by code point ---

  /** A string goes wrong where no sequence starts. */
  lemma WrongBytes(s: string, cps: seq<nat>, start: nat)
    requires start < |s| && AllScalar(cps) && s[..start] == EncodeAll(cps) && SequenceLength(s[start..]) == 0
    ensures Decoded(s).None?
  {
    hide SequenceLength;
    DecodedPrefix(cps, s[start..]);
    assert s == s[..start] + s[start..];
  }

  /** An unfinished sequence is none. */
  lemma UnfinishedIsNone(p: string, state: nat, codepoint: nat)
    requires Unfinished(p, state, codepoint) && state != UTF8_ACCEPT
    ensures p != [] && SequenceLength(p) == 0
  {
    SequenceStarts(p);
  }

  lemma OnePoint(s: string, start: nat, end: nat, cps: seq<nat>)
    requires start <= end <= |s| && AllScalar(cps) && s[..start] == EncodeAll(cps) && IsSequence(s[start..end])
    ensures var cp := Decode(s[start..end]);
            && IsScalar(cp) && Encode(cp) == s[start..end]
            && AllScalar(cps + [cp]) && s[..end] == EncodeAll(cps + [cp])
            && forall ensureAscii :: EscapedPoints(cps + [cp], ensureAscii) ==
                                     EscapedPoints(cps, ensureAscii) + EscapedPoint(cp, ensureAscii)
  {
    hide Encode, Decode, IsSequence, EscapedPoint, IsScalar;
    var cp := Decode(s[start..end]);
    SequencesAreEncodings(s[start..end]);
    assert (cps + [cp])[..|cps|] == cps && s[..end] == s[..start] + s[start..end];
  }

  // --- integers ---

  /** Decimal digits, with a minus sign in front of a negative number. */
  function IntText(i: int): string {
    if i < 0 then "-" + NatText(-i) else NatText(i)
  }

  /** count_digits() */
  method CountDigits(x: nat) returns (digits: nat)
    ensures digits == |NatText(x)|
  {
    hide NatText;
    digits := 1;
    var rest := x;
    while true
      invariant 1 <= digits && |NatText(x)| == digits - 1 + |NatText(rest)|
      decreases rest
    {
      TextLength(rest);
      if rest < 10 {
        return digits;
      }
      if rest < 100 {
        return digits + 1;
      }
      if rest < 1000 {
        return digits + 2;
      }
      if rest < 10000 {
        return digits + 3;
      }
      rest := rest / 10000;
      digits := digits + 4;
    }
  }

  lemma TextLength(n: nat)
    ensures |NatText(n)| ==
      if n < 10 then 1 else if n < 100 then 2 else if n < 1000 then 3 else if n < 10000 then 4
      else 4 + |NatText(n / 10000)|
  {
    assert n / 10 / 10 == n / 100 && n / 100 / 10 == n / 1000 && n / 1000 / 10 == n / 10000;
    assert |NatText(n)| == if n < 10 then 1 else 1 + |NatText(n / 10)|;
    assert |NatText(n / 10)| == if n < 100 then 1 else 1 + |NatText(n / 100)|;
    assert |NatText(n / 100)| == if n < 1000 then 1 else 1 + |NatText(n / 1000)|;
    assert |NatText(n / 1000)| == if n < 10000 then 1 else 1 + |NatText(n / 10000)|;
  }

  /** digits_to_99 */
  function TwoDigits(n: nat): (s: string)
    requires n < 100
    ensures |s| == 2
  {
    [DigitChar(n / 10), DigitChar(n % 10)]
  }

  lemma LastTwoDigits(n: nat)
    requires 10 <= n
    ensures n < 100 ==> NatText(n) == TwoDigits(n)
    ensures 100 <= n ==> NatText(n) == NatText(n / 100) + TwoDigits(n % 100)
  {
    assert n / 10 / 10 == n / 100 && n % 100 / 10 == n / 10 % 10 && n % 100 % 10 == n % 10;
    assert NatText(n) == NatText(n / 10) + [DigitChar(n % 10)];
    if n < 100 {
      assert NatText(n / 10) == [DigitChar(n / 10)];
    } else {
      assert NatText(n / 10) == NatText(n / 100) + [DigitChar(n / 10 % 10)];
    }
  }

  lemma AtMostTwenty(n: nat)
    requires n < 0x1_0000_0000_0000_0000
    ensures |NatText(n)| <= 20
  {
    hide NatText;
    TextLength(n);
    TextLength(n / 10000);
    TextLength(n / 10000 / 10000);
    TextLength(n / 10000 / 10000 / 10000);
    TextLength(n / 10000 / 10000 / 10000 / 10000);
  }

  // --- the program ---

  class Serializer {
    /** What was written so far. */
    var o: string
    const numberBuffer: array<char>
    const stringBuffer: array<char>

    ghost predicate Valid() {
      numberBuffer.Length == 64 && stringBuffer.Length == 512 && numberBuffer != stringBuffer
    }

    constructor ()
      ensures Valid() && o == "" && fresh(numberBuffer) && fresh(stringBuffer)
    {
      o := "";
      numberBuffer := new char[64];
      stringBuffer := new char[512];
    }

    /** Two digits in front of those already in the buffer. */
    method PutPair(at: nat, pair: nat)
      requires Valid() && at + 2 <= 64 && pair < 100
      modifies numberBuffer
      ensures numberBuffer[..at] == old(numberBuffer[..at]) && numberBuffer[at + 2..] == old(numberBuffer[at + 2..])
      ensures numberBuffer[at..at + 2] == TwoDigits(pair)
    {
      numberBuffer[at + 1] := DigitChar(pair % 10);
      numberBuffer[at] := DigitChar(pair / 10);
    }

    method DumpInteger(x: int)
      requires Valid() && -0x8000_0000_0000_0000 <= x < 0x1_0000_0000_0000_0000
      modifies this`o, numberBuffer
      ensures o == old(o) + IntText(x)
    {
      hide NatText, IntText;
      if x == 0 {
        ZeroText();
        o := o + "0";
        return;
      }
      var abs: nat := if x < 0 then -(x + 1) + 1 else x;
      var sign := if x < 0 then 1 else 0;
      AtMostTwenty(abs);
      var digits := CountDigits(abs);
      if x < 0 {
        numberBuffer[0] := '-';
      }
      var chars := sign + digits;
      ghost var front := numberBuffer[..sign];
      FillBackwards(abs, sign, chars);
      SignAndDigits(x, front, numberBuffer[..chars], NatText(abs));
      o := o + numberBuffer[..chars];
    }

    /** The digits of a number, two at a time, from the end of their place. */
    method FillBackwards(abs: nat, sign: nat, chars: nat)
      requires Valid() && sign <= 1 && chars == sign + |NatText(abs)| && chars <= 63
      modifies numberBuffer
      ensures numberBuffer[..sign] == old(numberBuffer[..sign])
      ensures numberBuffer[sign..chars] == NatText(abs)
    {
      hide NatText, TwoDigits;
      var rest, ptr := abs, chars;
      while 100 <= rest
        invariant ptr <= chars && ptr == sign + |NatText(rest)|
        invariant NatText(abs) == NatText(rest) + numberBuffer[ptr..chars]
        invariant numberBuffer[..sign] == old(numberBuffer[..sign])
      {
        LastTwoDigits(rest);
        ghost var before := numberBuffer[..];
        PutPair(ptr - 2, rest % 100);
        PairInFront(before, numberBuffer[..], ptr, chars, sign, TwoDigits(rest % 100));
        Regroup(NatText(rest / 100), TwoDigits(rest % 100), before[ptr..chars]);
        rest := rest / 100;
        ptr := ptr - 2;
      }
      ghost var before := numberBuffer[..];
      if 10 <= rest {
        LastTwoDigits(rest);
        PutPair(ptr - 2, rest);
        PairInFront(before, numberBuffer[..], ptr, chars, sign, TwoDigits(rest));
      } else {
        OneDigit(rest);
        numberBuffer[ptr - 1] := DigitChar(rest);
        assert numberBuffer[ptr - 1..chars] == [DigitChar(rest)] + before[ptr..chars];
        assert numberBuffer[..sign] == before[..sign];
      }
    }

    /** Writes a text into the buffer; one more character is needed for the 0 that snprintf puts behind it. */
    method Put(at: nat, text: string) returns (end: nat)
      requires Valid() && at + |text| < 512
      modifies stringBuffer
      ensures end == at + |text| && stringBuffer[..end] == old(stringBuffer[..at]) + text
    {
      forall i | 0 <= i < |text| {
        stringBuffer[at + i] := text[i];
      }
      end := at + |text|;
    }

    /** The case of a code point whose last byte is c. */
    method PutPoint(at: nat, codepoint: nat, c: char, ensureAscii: bool) returns (end: nat)
      requires Valid() && IsScalar(codepoint) && at + (if IsEscaped(codepoint, ensureAscii) then 13 else 2) <= 512
      modifies stringBuffer
      ensures end < 512
      ensures stringBuffer[..end] == old(stringBuffer[..at]) + if IsEscaped(codepoint, ensureAscii)
                then EscapedPoint(codepoint, ensureAscii) else [c]
    {
      hide HexText, Encode;
      if codepoint == 0x08 {
        end := Put(at, "\\b");
      } else if codepoint == 0x09 {
        end := Put(at, "\\t");
      } else if codepoint == 0x0A {
        end := Put(at, "\\n");
      } else if codepoint == 0x0C {
        end := Put(at, "\\f");
      } else if codepoint == 0x0D {
        end := Put(at, "\\r");
      } else if codepoint == 0x22 {
        end := Put(at, "\\\"");
      } else if codepoint == 0x5C {
        end := Put(at, "\\\\");
      } else if codepoint <= 0x1F || (ensureAscii && 0x7F <= codepoint) {
        if codepoint <= 0xFFFF {
          end := Put(at, "\\u" + HexText(codepoint));
        } else {
          end := Put(at, "\\u" + HexText(0xD7C0 + codepoint / 0x400) + "\\u" + HexText(0xDC00 + codepoint % 0x400));
        }
      } else {
        end := Put(at, [c]);
      }
    }

    /** write_characters, once there might be no room for another code point. */
    method FlushIfFull(bytes: nat) returns (left: nat)
      requires Valid() && bytes <= 512
      modifies this`o
      ensures left <= 499 && o + stringBuffer[..left] == old(o) + stringBuffer[..bytes]
    {
      left := bytes;
      if 512 - bytes < 13 {
        o := o + stringBuffer[..bytes];
        left := 0;
      }
    }

    method WritePoint(at: nat, codepoint: nat, c: char, ensureAscii: bool) returns (left: nat)
      requires Valid() && IsScalar(codepoint) && at + (if IsEscaped(codepoint, ensureAscii) then 13 else 2) <= 512
      modifies this`o, stringBuffer
      ensures left <= 499
      ensures o + stringBuffer[..left] == old(o) + old(stringBuffer[..at]) + if IsEscaped(codepoint, ensureAscii)
                then EscapedPoint(codepoint, ensureAscii) else [c]
    {
      hide EscapedPoint, IsEscaped;
      left := PutPoint(at, codepoint, c, ensureAscii);
      assert o + stringBuffer[..left] == o + old(stringBuffer[..at]) +
        if IsEscaped(codepoint, ensureAscii) then EscapedPoint(codepoint, ensureAscii) else [c];
      left := FlushIfFull(left);
    }

    /** dump_escaped(): the code points of a string with escapes, or exception 316 if it is not well-formed UTF-8. */
    method DumpEscaped(s: string, ensureAscii: bool) returns (r: Result<()>)
      requires Valid()
      modifies this`o, stringBuffer
      ensures r.Ok? <==> Decoded(s).Some?
      ensures r.Ok? ==> o == old(o) + EscapedPoints(Decoded(s).value, ensureAscii)
      ensures r.Err? ==> r.id == 316
    {
      hide Decoded, EscapedPoint, EscapedPoints, NextState, NextCodePoint, IsReading, IsEscaped, IsScalar, AllScalar;
      var codepoint: nat, state: nat, bytes: nat := 0, UTF8_ACCEPT, 0;
      ghost var start: nat, cps: seq<nat> := 0, [];
      NothingRead(s, ensureAscii);
      for i := 0 to |s|
        invariant state < 9 && start <= i && AllScalar(cps) && IsReading(s, i, start, cps, state, codepoint)
        invariant bytes <= 499 + if ensureAscii then 0 else i - start
        invariant i - start <= 3
        invariant o + stringBuffer[..bytes] == old(o) + EscapedPoints(cps, ensureAscii) + Copied(s, start, i, ensureAscii)
      {
        var c := s[i];
        ghost var before := codepoint;
        codepoint := NextCodePoint(state, codepoint, c as nat);
        if NextState(state, c as nat) == UTF8_ACCEPT {
          PointIsRead(s, i, start, cps, state, before, ensureAscii);
          ghost var written, tail := o + stringBuffer[..bytes],
                                     if IsEscaped(codepoint, ensureAscii) then EscapedPoint(codepoint, ensureAscii) else [c];
          bytes := WritePoint(bytes, codepoint, c, ensureAscii);
          OneMore(old(o), EscapedPoints(cps, ensureAscii), Copied(s, start, i, ensureAscii), tail);
          assert written + tail == old(o) + EscapedPoints(cps + [codepoint], ensureAscii);
          cps := cps + [codepoint];
          start := i + 1;
          NothingCopied(s, i + 1, ensureAscii, old(o) + EscapedPoints(cps, ensureAscii));
        } else if NextState(state, c as nat) == UTF8_REJECT {
          ReadingFails(s, i, start, cps, state, before);
          return Err(316);
        } else {
          BytesGoOn(s, i, start, cps, state, before);
          if !ensureAscii {
            ghost var copied := stringBuffer[..bytes];
            bytes := Put(bytes, [c]);
            Regroup(o, copied, [c]);
            CopiedMore(s, start, i, old(o) + EscapedPoints(cps, ensureAscii));
          }
        }
        state := NextState(state, c as nat);
      }
      ReadingEnds(s, start, cps, state, codepoint);
      if state == UTF8_ACCEPT {
        NothingCopied(s, |s|, ensureAscii, old(o) + EscapedPoints(cps, ensureAscii));
        o := o + stringBuffer[..bytes];
        r := Ok(());
      } else {
        r := Err(316);
      }
    }

    /** The indentation, if the text is laid out in lines. */
    method WriteIndent(style: Style, indent: nat)
      modifies this`o
      ensures o == old(o) + Indent(style, indent)
    {
      if style.pretty {
        o := o + Spaces(indent);
      }
    }

    /** dump() of a value; the output is of no use after the exception. */
    method Dump(val: Json, style: Style, currentIndent: nat) returns (r: Result<()>)
      requires Valid()
      modifies this`o, stringBuffer
      ensures r.Ok? <==> Encodable(val)
      ensures r.Ok? ==> o == old(o) + Dumped(val, style, currentIndent)
      ensures r.Err? ==> r.id == 316
      decreases val, 2
    {
      hide DumpedElements, DumpedMembers, Decoded, EscapedPoints, Ordered;
      r := Ok(());
      match val {
        case Object(members) =>
          if members == map[] {
            o := o + "{}";
          } else {
            r := DumpObject(val, style, currentIndent);
          }
        case Array(elements) =>
          if elements == [] {
            o := o + "[]";
          } else {
            r := DumpArray(val, style, currentIndent);
          }
        case String(s) =>
          r := DumpString(s, style.ensureAscii);
        case Boolean(b) =>
          if b {
            o := o + "true";
          } else {
            o := o + "false";
          }
        case Number(n) =>
          o := o + style.numbers(n);
        case Null =>
          o := o + "null";
      }
    }

    method DumpString(s: string, ensureAscii: bool) returns (r: Result<()>)
      requires Valid()
      modifies this`o, stringBuffer
      ensures r.Ok? <==> Decoded(s).Some?
      ensures r.Ok? ==> o == old(o) + Quoted(s, ensureAscii)
      ensures r.Err? ==> r.id == 316
    {
      hide Decoded, EscapedPoints;
      o := o + "\"";
      r := DumpEscaped(s, ensureAscii);
      o := o + "\"";
    }

    /** The closing bracket, on a line of its own if the text is laid out in lines. */
    method Close(style: Style, indent: nat, bracket: string)
      modifies this`o
      ensures o == old(o) + NewLine(style, indent) + bracket
    {
      hide Spaces;
      if style.pretty {
        o := o + "\n";
        WriteIndent(style, indent);
        assert old(o) + "\n" + Spaces(indent) == old(o) + ("\n" + Spaces(indent));
      }
      o := o + bracket;
    }

    method DumpArray(val: Json, style: Style, currentIndent: nat) returns (r: Result<()>)
      requires Valid() && val.Array? && val.elements != []
      modifies this`o, stringBuffer
      ensures r.Ok? <==> Encodable(val)
      ensures r.Ok? ==> o == old(o) + Dumped(val, style, currentIndent)
      ensures r.Err? ==> r.id == 316
      decreases val, 1, 1
    {
      hide Dumped, DumpedElements, ElementsAndComma, Indent, NewLine, Spaces;
      var newIndent := currentIndent + style.step;
      o := o + if style.pretty then "[\n" else "[";
      NoElements(val, style, newIndent);
      r := DumpElements(val, style, newIndent, old(o) + "[");
      if r.Err? {
        return;
      }
      Close(style, currentIndent, "]");
      WholeArray(val, style, currentIndent);
      RegroupFive(old(o), "[", DumpedElements(val, |val.elements|, style, newIndent), NewLine(style, currentIndent), "]");
    }

    /** The first n - 1 elements with commas, and the last one. */
    method DumpElements(val: Json, style: Style, indent: nat, ghost front: string) returns (r: Result<()>)
      requires Valid() && val.Array? && val.elements != []
      requires Encodable(val) ==> o == front + ElementsAndComma(val, 0, style, indent)
      modifies this`o, stringBuffer
      ensures r.Ok? <==> Encodable(val)
      ensures r.Ok? ==> o == front + DumpedElements(val, |val.elements|, style, indent)
      ensures r.Err? ==> r.id == 316
      decreases val, 1, 0
    {
      hide DumpedElements, ElementsAndComma;
      var n := |val.elements|;
      for i := 0 to n - 1
        invariant forall k :: 0 <= k < i ==> Encodable(val.elements[k])
        invariant Encodable(val) ==> o == front + ElementsAndComma(val, i, style, indent)
      {
        r := DumpElement(val, i, style, indent, front);
        if r.Err? {
          return;
        }
        o := o + if style.pretty then ",\n" else ",";
        if Encodable(val) {
          CommaBehind(val, i + 1, style, indent);
          Regroup(front, DumpedElements(val, i + 1, style, indent), if style.pretty then ",\n" else ",");
        }
      }
      r := DumpElement(val, n - 1, style, indent, front);
    }

    /** The next element with its indentation. */
    method DumpElement(val: Json, i: nat, style: Style, indent: nat, ghost front: string) returns (r: Result<()>)
      requires Valid() && val.Array? && i < |val.elements|
      requires Encodable(val) ==> o == front + ElementsAndComma(val, i, style, indent)
      modifies this`o, stringBuffer
      ensures r.Ok? <==> Encodable(val.elements[i])
      ensures r.Ok? && Encodable(val) ==> o == front + DumpedElements(val, i + 1, style, indent)
      ensures r.Err? ==> r.id == 316
      decreases val, 0
    {
      hide Dumped, Indent, ElementsAndComma;
      WriteIndent(style, indent);
      r := Dump(val.elements[i], style, indent);
      if Encodable(val) {
        OneMoreElement(val, i, style, indent);
        RegroupFour(front, ElementsAndComma(val, i, style, indent), Indent(style, indent),
                    Dumped(val.elements[i], style, indent));
      }
    }

    method DumpObject(val: Json, style: Style, currentIndent: nat) returns (r: Result<()>)
      requires Valid() && val.Object? && val.members != map[]
      modifies this`o, stringBuffer
      ensures r.Ok? <==> Encodable(val)
      ensures r.Ok? ==> o == old(o) + Dumped(val, style, currentIndent)
      ensures r.Err? ==> r.id == 316
      decreases val, 1, 1
    {
      hide Dumped, DumpedMembers, MembersAndComma, Encodable, Indent, NewLine, Spaces, Ordered;
      var newIndent := currentIndent + style.step;
      o := o + if style.pretty then "{\n" else "{";
      NoMembers(val, style, newIndent);
      r := DumpMembers(val, style, newIndent, old(o) + "{");
      if r.Err? {
        return;
      }
      Close(style, currentIndent, "}");
      WholeObject(val, style, currentIndent);
      RegroupFive(old(o), "{", DumpedMembers(val, |val.members|, style, newIndent), NewLine(style, currentIndent), "}");
    }

    /** The first n - 1 members with commas, and the last one. */
    method DumpMembers(val: Json, style: Style, indent: nat, ghost front: string) returns (r: Result<()>)
      requires Valid() && val.Object? && val.members != map[]
      requires Encodable(val) ==> o == front + MembersAndComma(val, 0, style, indent)
      modifies this`o, stringBuffer
      ensures r.Ok? <==> Encodable(val)
      ensures r.Ok? ==> o == front + DumpedMembers(val, |val.members|, style, indent)
      ensures r.Err? ==> r.id == 316
      decreases val, 1, 0
    {
      hide DumpedMembers, MembersAndComma, MemberIsEncodable, Encodable, Ordered;
      var keys := Ordered(val.members.Keys);
      var n := |keys|;
      for i := 0 to n - 1
        invariant forall k :: 0 <= k < i ==> MemberIsEncodable(val, keys[k])
        invariant Encodable(val) ==> o == front + MembersAndComma(val, i, style, indent)
      {
        r := DumpMember(val, i, keys[i], style, indent, front);
        if r.Err? {
          EveryMemberIsEncodable(val, i);
          return;
        }
        o := o + if style.pretty then ",\n" else ",";
        if Encodable(val) {
          CommaBehindMember(val, i + 1, style, indent);
          Regroup(front, DumpedMembers(val, i + 1, style, indent), if style.pretty then ",\n" else ",");
        }
      }
      r := DumpMember(val, n - 1, keys[n - 1], style, indent, front);
      if r.Err? {
        EveryMemberIsEncodable(val, n - 1);
      } else {
        AllMembersEncodable(val, keys);
      }
    }

    /** The next member with its indentation. */
    method DumpMember(val: Json, i: nat, key: string, style: Style, indent: nat, ghost front: string)
      returns (r: Result<()>)
      requires Valid() && val.Object? && i < |val.members| && key == Ordered(val.members.Keys)[i]
      requires Encodable(val) ==> o == front + MembersAndComma(val, i, style, indent)
      modifies this`o, stringBuffer
      ensures r.Ok? <==> MemberIsEncodable(val, key)
      ensures r.Ok? && Encodable(val) ==> o == front + DumpedMembers(val, i + 1, style, indent)
      ensures r.Err? ==> r.id == 316
      decreases val, 0
    {
      hide Dumped, Indent, MembersAndComma, Quoted, Decoded, Ordered;
      KeyIsThere(val.members, i);
      WriteIndent(style, indent);
      r := DumpString(key, style.ensureAscii);
      if r.Err? {
        return;
      }
      o := o + if style.pretty then ": " else ":";
      r := Dump(val.members[key], style, indent);
      if Encodable(val) {
        OneMoreMember(val, i, key, style, indent);
        RegroupSix(front, MembersAndComma(val, i, style, indent), Indent(style, indent), Quoted(key, style.ensureAscii),
                   if style.pretty then ": " else ":", Dumped(val.members[key], style, indent));
      }
    }
  }

  /** dump() of a value with the given number of spaces for an indentation, or on one line if it is negative. */
  method DumpValue(j: Json, indent: int, ensureAscii: bool, numbers: real -> string) returns (r: Result<string>)
    ensures r.Ok? <==> Encodable(j)
    ensures r.Ok? ==> r.value == Dumped(j, StyleOf(indent, ensureAscii, numbers), 0)
    ensures r.Err? ==> r.id == 316
  {
    hide Encodable, Dumped;
    var s := new Serializer();
    var outcome;
    if 0 <= indent {
      outcome := s.Dump(j, Style(true, ensureAscii, indent, numbers), 0);
    } else {
      outcome := s.Dump(j, Style(false, ensureAscii, 0, numbers), 0);
    }
    assert "" + s.o == s.o;
    r := if outcome.Ok? then Ok(s.o) else Err(outcome.id);
  }

  function StyleOf(indent: int, ensureAscii: bool, numbers: real -> string): Style {
    if 0 <= indent then Style(true, ensureAscii, indent, numbers) else Style(false, ensureAscii, 0, numbers)
  }

  // --- one more element or member ---

  /** What stands in front of an element on its line. */
  function Indent(style: Style, indent: nat): string {
    if style.pretty then Spaces(indent) else ""
  }

  function Break(style: Style): string {
    if style.pretty then "\n" else ""
  }

  lemma LineIsBreakAndIndent(style: Style, indent: nat)
    ensures NewLine(style, indent) == Break(style) + Indent(style, indent)
  {
  }

  /** The first n elements up to the line of the next one. */
  function ElementsAndComma(j: Json, n: nat, style: Style, indent: nat): string
    requires j.Array? && Encodable(j) && n <= |j.elements|
  {
    DumpedElements(j, n, style, indent) + (if n == 0 then "" else ",") + Break(style)
  }

  lemma NoElements(j: Json, style: Style, indent: nat)
    requires j.Array?
    ensures Encodable(j) ==>
      forall front :: front + (if style.pretty then "[\n" else "[") == front + "[" + ElementsAndComma(j, 0, style, indent)
  {
    assert "[" + "\n" == "[\n";
  }

  lemma CommaBehind(j: Json, n: nat, style: Style, indent: nat)
    requires j.Array? && Encodable(j) && 0 < n <= |j.elements|
    ensures DumpedElements(j, n, style, indent) + (if style.pretty then ",\n" else ",") == ElementsAndComma(j, n, style, indent)
  {
    hide DumpedElements;
    assert "," + "\n" == ",\n";
  }

  lemma ElementsStep(j: Json, i: nat, style: Style, indent: nat)
    requires j.Array? && Encodable(j) && i < |j.elements|
    ensures DumpedElements(j, i + 1, style, indent) ==
      DumpedElements(j, i, style, indent) + (if i == 0 then "" else ",")
      + NewLine(style, indent) + Dumped(j.elements[i], style, indent)
  {
    hide Dumped, NewLine;
  }

  lemma OneMoreElement(j: Json, i: nat, style: Style, indent: nat)
    requires j.Array? && Encodable(j) && i < |j.elements|
    ensures DumpedElements(j, i + 1, style, indent) ==
      ElementsAndComma(j, i, style, indent) + Indent(style, indent) + Dumped(j.elements[i], style, indent)
  {
    hide Dumped, DumpedElements, NewLine, Indent, Break;
    ElementsStep(j, i, style, indent);
    LineIsBreakAndIndent(style, indent);
    Regroup(DumpedElements(j, i, style, indent) + (if i == 0 then "" else ","), Break(style), Indent(style, indent));
  }

  lemma WholeArray(j: Json, style: Style, indent: nat)
    requires j.Array? && Encodable(j) && j.elements != []
    ensures Dumped(j, style, indent) ==
      "[" + DumpedElements(j, |j.elements|, style, indent + style.step) + NewLine(style, indent) + "]"
  {
    hide DumpedElements;
  }

  lemma WholeObject(j: Json, style: Style, indent: nat)
    requires j.Object? && Encodable(j) && j.members != map[]
    ensures Dumped(j, style, indent) ==
      "{" + DumpedMembers(j, |j.members|, style, indent + style.step) + NewLine(style, indent) + "}"
  {
    hide DumpedMembers;
  }

  lemma RegroupFive(a: string, b: string, c: string, d: string, e: string)
    ensures a + b + c + d + e == a + (b + c + d + e)
  {
  }

  lemma RegroupFour(a: string, b: string, c: string, d: string)
    ensures a + b + c + d == a + (b + c + d)
  {
  }

  predicate MemberIsEncodable(j: Json, key: string)
    requires j.Object?
  {
    key in j.members && Decoded(key).Some? && Encodable(j.members[key])
  }

  lemma EveryMemberIsEncodable(j: Json, i: nat)
    requires j.Object? && i < |j.members|
    ensures Encodable(j) ==> MemberIsEncodable(j, Ordered(j.members.Keys)[i])
  {
    KeyIsThere(j.members, i);
  }

  lemma AllMembersEncodable(j: Json, keys: seq<string>)
    requires j.Object? && keys == Ordered(j.members.Keys)
    requires forall i :: 0 <= i < |keys| ==> MemberIsEncodable(j, keys[i])
    ensures Encodable(j)
  {
    forall k | k in j.members
      ensures MemberIsEncodable(j, k)
    {
      assert k in j.members.Keys;
    }
  }

  function MembersAndComma(j: Json, n: nat, style: Style, indent: nat): string
    requires j.Object? && Encodable(j) && n <= |j.members|
  {
    DumpedMembers(j, n, style, indent) + (if n == 0 then "" else ",") + Break(style)
  }

  lemma NoMembers(j: Json, style: Style, indent: nat)
    requires j.Object?
    ensures Encodable(j) ==>
      forall front :: front + (if style.pretty then "{\n" else "{") == front + "{" + MembersAndComma(j, 0, style, indent)
  {
    assert "{" + "\n" == "{\n";
  }

  lemma CommaBehindMember(j: Json, n: nat, style: Style, indent: nat)
    requires j.Object? && Encodable(j) && 0 < n <= |j.members|
    ensures DumpedMembers(j, n, style, indent) + (if style.pretty then ",\n" else ",") == MembersAndComma(j, n, style, indent)
  {
    hide DumpedMembers;
    assert "," + "\n" == ",\n";
  }

  lemma MembersStep(j: Json, i: nat, key: string, style: Style, indent: nat)
    requires j.Object? && Encodable(j) && i < |j.members| && key == Ordered(j.members.Keys)[i]
    ensures key in j.members
    ensures DumpedMembers(j, i + 1, style, indent) ==
      DumpedMembers(j, i, style, indent) + (if i == 0 then "" else ",") + NewLine(style, indent)
      + Quoted(key, style.ensureAscii) + (if style.pretty then ": " else ":") + Dumped(j.members[key], style, indent)
  {
    hide Dumped, NewLine, Ordered, Quoted, Decoded;
    KeyIsThere(j.members, i);
  }

  lemma OneMoreMember(j: Json, i: nat, key: string, style: Style, indent: nat)
    requires j.Object? && Encodable(j) && i < |j.members| && key == Ordered(j.members.Keys)[i]
    ensures key in j.members
    ensures DumpedMembers(j, i + 1, style, indent) ==
      MembersAndComma(j, i, style, indent) + Indent(style, indent) + Quoted(key, style.ensureAscii)
      + (if style.pretty then ": " else ":") + Dumped(j.members[key], style, indent)
  {
    hide Dumped, DumpedMembers, NewLine, Indent, Break, Ordered, Quoted, Decoded;
    MembersStep(j, i, key, style, indent);
    LineIsBreakAndIndent(style, indent);
    Regroup(DumpedMembers(j, i, style, indent) + (if i == 0 then "" else ","), Break(style), Indent(style, indent));
  }

  lemma RegroupSix(a: string, b: string, c: string, d: string, e: string, f: string)
    ensures a + b + c + d + e + f == a + (b + c + d + e + f)
  {
  }

  /** Whether a code point is written as an escape. */
  predicate IsEscaped(cp: nat, ensureAscii: bool) {
    cp <= 0x1F || cp == 0x22 || cp == 0x5C || (ensureAscii && 0x7F <= cp)
  }

  lemma PairInFront(before: string, after: string, ptr: nat, chars: nat, sign: nat, pair: string)
    requires |before| == |after| && 2 <= ptr <= chars <= |before| && sign <= ptr - 2 && |pair| == 2
    requires after[..ptr - 2] == before[..ptr - 2] && after[ptr..] == before[ptr..] && after[ptr - 2..ptr] == pair
    ensures after[ptr - 2..chars] == pair + before[ptr..chars] && after[..sign] == before[..sign]
  {
    assert after[ptr..chars] == after[ptr..][..chars - ptr];
    assert before[ptr..chars] == before[ptr..][..chars - ptr];
    assert after[ptr - 2..chars] == after[ptr - 2..ptr] + after[ptr..chars];
    assert after[..sign] == after[..ptr - 2][..sign] && before[..sign] == before[..ptr - 2][..sign];
  }

  lemma OneMore(base: string, done: string, before: string, tail: string)
    ensures base + done + before + tail == base + (done + (before + tail))
  {
  }

  lemma Regroup(a: string, b: string, c: string)
    ensures a + b + c == a + (b + c)
  {
  }

  lemma ZeroText()
    ensures IntText(0) == "0"
  {
  }

  lemma SignAndDigits(x: int, sign: string, text: string, digits: string)
    requires sign == (if x < 0 then "-" else "") && digits == NatText(if x < 0 then -x else x)
    requires |sign| <= |text| && text[..|sign|] == sign && text[|sign|..] == digits
    ensures text == IntText(x)
  {
    hide NatText;
    assert text == text[..|sign|] + text[|sign|..];
  }

  lemma OneDigit(n: nat)
    requires n < 10
    ensures NatText(n) == [DigitChar(n)]
  {
  }

  /** The code points up to start have been read, and behind them the bytes of an unfinished sequence. */
  ghost predicate IsReading(s: string, i: nat, start: nat, cps: seq<nat>, state: nat, codepoint: nat) {
    && start <= i <= |s| && AllScalar(cps) && s[..start] == EncodeAll(cps)
    && state < 9 && Unfinished(s[start..i], state, codepoint)
  }

  /** The bytes of an unfinished sequence are copied at once, unless it may be written as an escape. */
  function Copied(s: string, start: nat, i: nat, ensureAscii: bool): string
    requires start <= i <= |s|
  {
    if ensureAscii then [] else s[start..i]
  }

  lemma NothingRead(s: string, ensureAscii: bool)
    ensures EscapedPoints([], ensureAscii) == [] && AllScalar([]) && Copied(s, 0, 0, ensureAscii) == []
    ensures IsReading(s, 0, 0, [], UTF8_ACCEPT, 0)
  {
    assert s[0..0] == [] && s[..0] == EncodeAll([]);
  }

  lemma NothingCopied(s: string, i: nat, ensureAscii: bool, front: string)
    requires i <= |s|
    ensures front + Copied(s, i, i, ensureAscii) == front
  {
  }

  lemma CopiedMore(s: string, start: nat, i: nat, front: string)
    requires start <= i < |s|
    ensures front + Copied(s, start, i, false) + [s[i]] == front + Copied(s, start, i + 1, false)
  {
    assert s[start..i] + [s[i]] == s[start..i + 1];
  }

  lemma PointIsRead(s: string, i: nat, start: nat, cps: seq<nat>, state: nat, codepoint: nat, ensureAscii: bool)
    requires i < |s| && IsReading(s, i, start, cps, state, codepoint)
    requires NextState(state, s[i] as nat) == UTF8_ACCEPT
    ensures var cp := NextCodePoint(state, codepoint, s[i] as nat);
            && IsScalar(cp) && AllScalar(cps) && AllScalar(cps + [cp])
            && IsReading(s, i + 1, i + 1, cps + [cp], UTF8_ACCEPT, cp)
            && EscapedPoints(cps + [cp], ensureAscii) == EscapedPoints(cps, ensureAscii) +
                 (Copied(s, start, i, ensureAscii) +
                  if IsEscaped(cp, ensureAscii) then EscapedPoint(cp, ensureAscii) else [s[i]])
            && (IsEscaped(cp, ensureAscii) && !ensureAscii ==> start == i)
  {
    hide NextState, NextCodePoint, IsSequence, Decode, Encode, EscapedPoint, EscapedPoints, IsEscaped, Unfinished;
    var p, cp := s[start..i], NextCodePoint(state, codepoint, s[i] as nat);
    AutomatonStep(p, state, codepoint, s[i]);
    assert p + [s[i]] == s[start..i + 1];
    OnePoint(s, start, i + 1, cps);
    PointText(p, s[i], cp, ensureAscii);
    NothingUnfinished(s[i + 1..i + 1], cp);
  }

  lemma NothingUnfinished(p: string, codepoint: nat)
    requires p == []
    ensures Unfinished(p, UTF8_ACCEPT, codepoint)
  {
  }

  lemma BytesGoOn(s: string, i: nat, start: nat, cps: seq<nat>, state: nat, codepoint: nat)
    requires i < |s| && IsReading(s, i, start, cps, state, codepoint)
    requires NextState(state, s[i] as nat) != UTF8_ACCEPT && NextState(state, s[i] as nat) != UTF8_REJECT
    ensures IsReading(s, i + 1, start, cps, NextState(state, s[i] as nat), NextCodePoint(state, codepoint, s[i] as nat))
    ensures i + 1 - start <= 3
  {
    hide NextState, NextCodePoint, IsSequence, Decode, Encode, Unfinished;
    var next, n := NextState(state, s[i] as nat), NextCodePoint(state, codepoint, s[i] as nat);
    AutomatonStep(s[start..i], state, codepoint, s[i]);
    assert s[start..i] + [s[i]] == s[start..i + 1];
    UnfinishedLength(s[start..i + 1], next, n);
  }

  lemma UnfinishedLength(p: string, state: nat, codepoint: nat)
    requires Unfinished(p, state, codepoint)
    ensures |p| <= 3
  {
  }

  lemma ReadingFails(s: string, i: nat, start: nat, cps: seq<nat>, state: nat, codepoint: nat)
    requires i < |s| && IsReading(s, i, start, cps, state, codepoint)
    requires NextState(state, s[i] as nat) == UTF8_REJECT
    ensures Decoded(s).None?
  {
    hide NextState, NextCodePoint, IsSequence, Decode, Encode, Unfinished, Decoded;
    AutomatonStep(s[start..i], state, codepoint, s[i]);
    assert s[start..i] + [s[i]] == s[start..i + 1];
    assert s[start..i + 1] <= s[start..];
    WrongBytes(s, cps, start);
  }

  lemma ReadingEnds(s: string, start: nat, cps: seq<nat>, state: nat, codepoint: nat)
    requires IsReading(s, |s|, start, cps, state, codepoint)
    ensures if state == UTF8_ACCEPT then Decoded(s) == Some(cps) && start == |s| else Decoded(s).None?
  {
    hide Decoded, Encode;
    assert s[start..|s|] == s[start..];
    if state == UTF8_ACCEPT {
      assert s[..start] == s;
      EncodedIsDecoded(cps);
    } else {
      UnfinishedIsNone(s[start..], state, codepoint);
      WrongBytes(s, cps, start);
    }
  }

  /** What the buffer gets for a code point, with the bytes copied before. */
  lemma PointText(p: string, c: char, codepoint: nat, ensureAscii: bool)
    requires IsSequence(p + [c]) && codepoint == Decode(p + [c])
    ensures IsScalar(codepoint) && (IsEscaped(codepoint, ensureAscii) && !ensureAscii ==> p == [])
    ensures EscapedPoint(codepoint, ensureAscii) ==
      (if ensureAscii then [] else p) + if IsEscaped(codepoint, ensureAscii) then EscapedPoint(codepoint, ensureAscii) else [c]
  {
    SequencesAreEncodings(p + [c]);
    if codepoint < 0x80 {
      assert |p| == 0;
    }
  }

  // --- an example of both layouts ---

  lemma QuotedLetter()
    ensures Decoded("a").Some? && Quoted("a", false) == "\"a\""
  {
    var cps := [0x61];
    assert cps[..0] == [] && EncodeAll(cps) == "a" && EscapedPoints(cps, false) == "a";
    EncodedIsDecoded(cps);
  }

  lemma OnlyKey(members: map<string, Json>, key: string)
    requires members.Keys == {key}
    ensures |members| == 1 && Ordered(members.Keys) == [key]
  {
    hide Less;
    assert Ordered(members.Keys)[0] in members.Keys;
  }

  lemma ExampleSpaces(style: Style)
    ensures style.pretty ==>
              NewLine(style, 0) == "\n" && NewLine(style, 2) == "\n  " && NewLine(style, 4) == "\n    "
    ensures !style.pretty ==> NewLine(style, 0) == NewLine(style, 2) == NewLine(style, 4) == ""
  {
    assert Spaces(2) == "  " && Spaces(4) == "    ";
  }

  /** [null, true] at an indentation of two. */
  lemma ArrayExample(style: Style)
    requires style.step == if style.pretty then 2 else 0
    ensures var indent := if style.pretty then 2 else 0;
            Dumped(Array([Null, Boolean(true)]), style, indent) ==
            if style.pretty then "[\n    null,\n    true\n  ]" else "[null,true]"
  {
    var j, indent := Array([Null, Boolean(true)]), if style.pretty then 2 else 0;
    var inner := indent + style.step;
    ExampleSpaces(style);
    WholeArray(j, style, indent);
    ElementsStep(j, 0, style, inner);
    ElementsStep(j, 1, style, inner);
    assert Dumped(j.elements[0], style, inner) == "null" && Dumped(j.elements[1], style, inner) == "true";
    assert DumpedElements(j, 0, style, inner) == "";
    hide *;
    ArrayPieces();
  }

  lemma ArrayPieces()
    ensures "[" + ("" + "" + "\n    " + "null" + "," + "\n    " + "true") + "\n  " + "]" == "[\n    null,\n    true\n  ]"
    ensures "[" + ("" + "" + "" + "null" + "," + "" + "true") + "" + "]" == "[null,true]"
  {
  }

  lemma PrettyPieces()
    ensures "{" + ("" + "" + "\n  " + "\"a\"" + ": " + "[\n    null,\n    true\n  ]") + "\n" + "}" ==
      "{\n  \"a\": [\n    null,\n    true\n  ]\n}"
  {
  }

  lemma CompactPieces()
    ensures "{" + ("" + "" + "" + "\"a\"" + ":" + "[null,true]") + "" + "}" == "{\"a\":[null,true]}"
  {
  }

  /** An object of one member. */
  lemma OneMember(key: string, value: Json, style: Style)
    requires Decoded(key).Some? && Encodable(value)
    ensures var j := Object(map[key := value]);
            && Encodable(j)
            && Dumped(j, style, 0) ==
                 "{" + ("" + "" + NewLine(style, style.step) + Quoted(key, style.ensureAscii)
                        + (if style.pretty then ": " else ":") + Dumped(value, style, style.step))
                 + NewLine(style, 0) + "}"
  {
    hide Dumped, DumpedMembers, Quoted, Decoded, NewLine, Ordered;
    var j := Object(map[key := value]);
    OnlyKey(j.members, key);
    WholeObject(j, style, 0);
    MembersStep(j, 0, key, style, style.step);
    NoMembersYet(j, style);
  }

  lemma NoMembersYet(j: Json, style: Style)
    requires j.Object? && Encodable(j)
    ensures DumpedMembers(j, 0, style, style.step) == ""
  {
    hide Ordered;
  }

  /** {"a": [null, true]} in lines with an indentation of two, and on one line. */
  lemma DumpExample(style: Style)
    requires !style.ensureAscii && style.step == if style.pretty then 2 else 0
    ensures var j := Object(map["a" := Array([Null, Boolean(true)])]);
            && Encodable(j)
            && Dumped(j, style, 0) ==
                 if style.pretty then "{\n  \"a\": [\n    null,\n    true\n  ]\n}" else "{\"a\":[null,true]}"
  {
    hide Dumped, Quoted, Decoded, NewLine;
    QuotedLetter();
    ExampleSpaces(style);
    ArrayExample(style);
    OneMember("a", Array([Null, Boolean(true)]), style);
    PrettyPieces();
    CompactPieces();
  }
}
