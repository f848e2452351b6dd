/** UTF-8 as section 3 of RFC 3629 defines it; bytes are chars below 256. */
module Utf8 {

  predicate IsScalar(cp: int) {
    0 <= cp <= 0xD7FF || 0xE000 <= cp <= 0x10FFFF
  }

  /** The bytes of one code point: the payload bits six at a time, highest first. */
  function Encode(cp: nat): (s: string)
    requires IsScalar(cp)
    ensures 1 <= |s| <= 4
  {
    if cp < 0x80 then [cp as char]
    else if cp < 0x800 then [(0xC0 + cp / 0x40) as char, Tail(cp)]
    else if cp < 0x1_0000 then [(0xE0 + cp / 0x1000) as char, Tail(cp / 0x40), Tail(cp)]
    else [(0xF0 + cp / 0x4_0000) as char, Tail(cp / 0x1000), Tail(cp / 0x40), Tail(cp)]
  }

  /** The continuation byte that carries the lowest six bits of n. */
  function Tail(n: nat): (c: char)
    ensures 0x80 <= c as int <= 0xBF
  {
    (0x80 + n % 0x40) as char
  }

  predicate AllScalar(cps: seq<nat>) {
    forall i :: 0 <= i < |cps| ==> IsScalar(cps[i])
  }

  function EncodeAll(cps: seq<nat>): string
    requires AllScalar(cps)
  {
    if cps == [] then [] else EncodeAll(cps[..|cps| - 1]) + Encode(cps[|cps| - 1])
  }

  predicate InRange(c: char, lo: nat, hi: nat) {
    lo <= c as int <= hi
  }

  predicate IsTail(c: char) {
    InRange(c, 0x80, 0xBF)
  }

  /** One UTF8-octets sequence in the grammar of section 4 of RFC 3629. */
  predicate IsSequence(s: string) {
    || (|s| == 1 && InRange(s[0], 0x00, 0x7F))
    || (|s| == 2 && InRange(s[0], 0xC2, 0xDF) && IsTail(s[1]))
    || (|s| == 3 && IsTail(s[2]) &&
        (|| (InRange(s[0], 0xE0, 0xE0) && InRange(s[1], 0xA0, 0xBF))
         || (InRange(s[0], 0xE1, 0xEC) && IsTail(s[1]))
         || (InRange(s[0], 0xED, 0xED) && InRange(s[1], 0x80, 0x9F))
         || (InRange(s[0], 0xEE, 0xEF) && IsTail(s[1]))))
    || (|s| == 4 && IsTail(s[2]) && IsTail(s[3]) &&
        (|| (InRange(s[0], 0xF0, 0xF0) && InRange(s[1], 0x90, 0xBF))
         || (InRange(s[0], 0xF1, 0xF3) && IsTail(s[1]))
         || (InRange(s[0], 0xF4, 0xF4) && InRange(s[1], 0x80, 0x8F))))
  }

  function Decode(s: string): (cp: nat)
    requires IsSequence(s)
  {
    if |s| == 1 then Payload(s, 0, 0)
    else if |s| == 2 then Payload(s, 0, 0xC0) * 0x40 + Payload(s, 1, 0x80)
    else if |s| == 3 then (Payload(s, 0, 0xE0) * 0x40 + Payload(s, 1, 0x80)) * 0x40 + Payload(s, 2, 0x80)
    else ((Payload(s, 0, 0xF0) * 0x40 + Payload(s, 1, 0x80)) * 0x40 + Payload(s, 2, 0x80)) * 0x40 + Payload(s, 3, 0x80)
  }

  function Payload(s: string, i: nat, mark: nat): (n: nat)
    requires i < |s| && mark <= s[i] as int
  {
    s[i] as int - mark
  }

  lemma Sixty4(q: nat, r: nat)
    requires r < 0x40
    ensures (q * 0x40 + r) / 0x40 == q && (q * 0x40 + r) % 0x40 == r
  {
  }

  lemma Shifts(cp: nat)
    ensures cp / 0x1000 == cp / 0x40 / 0x40 && cp / 0x4_0000 == cp / 0x40 / 0x40 / 0x40
  {
  }

  lemma ThreeBytes(a: nat, b: nat, c: nat)
    requires b < 0x40 && c < 0x40
    ensures var cp := (a * 0x40 + b) * 0x40 + c;
            cp / 0x1000 == a && cp / 0x40 % 0x40 == b && cp % 0x40 == c
  {
    Shifts((a * 0x40 + b) * 0x40 + c);
    Sixty4(a * 0x40 + b, c);
    Sixty4(a, b);
  }

  lemma FourBytes(a: nat, b: nat, c: nat, d: nat)
    requires b < 0x40 && c < 0x40 && d < 0x40
    ensures var cp := ((a * 0x40 + b) * 0x40 + c) * 0x40 + d;
            cp / 0x4_0000 == a && cp / 0x1000 % 0x40 == b && cp / 0x40 % 0x40 == c && cp % 0x40 == d
  {
    var high := (a * 0x40 + b) * 0x40 + c;
    ThreeBytes(a, b, c);
    Sixty4(high, d);
    Shifts(high * 0x40 + d);
  }

  lemma SequenceOfThree(s: string)
    requires IsSequence(s) && |s| == 3
    ensures IsScalar(Decode(s)) && Encode(Decode(s)) == s
  {
    ThreeBytes(Payload(s, 0, 0xE0), Payload(s, 1, 0x80), Payload(s, 2, 0x80));
  }

  lemma SequenceOfFour(s: string)
    requires IsSequence(s) && |s| == 4
    ensures IsScalar(Decode(s)) && Encode(Decode(s)) == s
  {
    FourBytes(Payload(s, 0, 0xF0), Payload(s, 1, 0x80), Payload(s, 2, 0x80), Payload(s, 3, 0x80));
  }

  /** The grammar of section 4 describes exactly the encodings of section 3. */
  lemma SequencesAreEncodings(s: string)
    requires IsSequence(s)
    ensures IsScalar(Decode(s)) && Encode(Decode(s)) == s
  {
    if |s| == 2 {
      Sixty4(Payload(s, 0, 0xC0), Payload(s, 1, 0x80));
    } else if |s| == 3 {
      SequenceOfThree(s);
    } else if |s| == 4 {
      SequenceOfFour(s);
    }
  }

  lemma EncodingsAreSequences(cp: nat)
    requires IsScalar(cp)
    ensures IsSequence(Encode(cp)) && Decode(Encode(cp)) == cp
  {
    Shifts(cp);
  }

  /** Well-formed UTF-8: a sequence of UTF8-octets sequences. */
  ghost predicate WellFormed(s: string)
    decreases |s|
  {
    s == [] || exists k :: 0 <= k < |s| && IsSequence(s[k..]) && WellFormed(s[..k])
  }

  lemma {:induction false} EncodeAllIsWellFormed(cps: seq<nat>)
    requires AllScalar(cps)
    ensures WellFormed(EncodeAll(cps))
  {
    if cps != [] {
      var front, last := EncodeAll(cps[..|cps| - 1]), Encode(cps[|cps| - 1]);
      EncodeAllIsWellFormed(cps[..|cps| - 1]);
      EncodingsAreSequences(cps[|cps| - 1]);
      var s, k := front + last, |front|;
      assert s[..k] == front && s[k..] == last;
    }
  }

  /** No encoding is a proper prefix of another, so a byte string has one reading. */
  lemma EncodingsArePrefixFree(x: nat, y: nat, s: string)
    requires IsScalar(x) && IsScalar(y) && Encode(x) <= s && Encode(y) <= s
    ensures x == y
  {
    EncodingsAreSequences(x);
    EncodingsAreSequences(y);
    var m, n := |Encode(x)|, |Encode(y)|;
    assert Encode(x) == s[..m] && Encode(y) == s[..n];
    assert s[..m][0] == s[0] && s[..n][0] == s[0];
  }

  /** Examples of section 7 of RFC 3629. */
  lemma StandardEncodings()
    ensures Encode(0x41) == ['\U{41}'] && Encode(0x2262) == ['\U{E2}', '\U{89}', '\U{A2}']
    ensures Encode(0x391) == ['\U{CE}', '\U{91}'] && Encode(0x233B4) == ['\U{F0}', '\U{A3}', '\U{8E}', '\U{B4}']
  {
  }
}
