/** The input adapters that turn UTF-16 and UTF-32 strings into the bytes of UTF-8. */
module WideStrings {
  import opened Utf8

  const EOF := -1

  /** The size of a character of the input in bytes. */
  datatype Width = Two | Four

  /** The UTF-16 code units of a code point (section 2.1 of RFC 2781). */
  function Utf16(cp: nat): (units: seq<nat>)
    requires IsScalar(cp)
  {
    if cp < 0x1_0000 then [cp] else [0xD800 + (cp - 0x1_0000) / 0x400, 0xDC00 + (cp - 0x1_0000) % 0x400]
  }

  /** The example of section 2.1 of RFC 2781. */
  lemma StandardPair()
    ensures Utf16(0x12345) == [0xD808, 0xDF45]
  {
  }

  function UnitsOf(width: Width, cp: nat): (units: seq<nat>)
    requires IsScalar(cp)
    ensures 1 <= |units| <= 2
  {
    if width == Two then Utf16(cp) else [cp]
  }

  /** A well-formed string of wide characters. */
  function WideString(width: Width, cps: seq<nat>): seq<nat>
    requires AllScalar(cps)
  {
    if cps == [] then [] else UnitsOf(width, cps[0]) + WideString(width, cps[1..])
  }

  /** A byte string as the integers an input adapter returns. */
  function Ints(s: string): (r: seq<int>)
    ensures |r| == |s| && forall i :: 0 <= i < |r| ==> r[i] == s[i] as int
  {
    seq(|s|, i requires 0 <= i < |s| => s[i] as int)
  }

  function Utf8Bytes(cps: seq<nat>): seq<int>
    requires AllScalar(cps)
  {
    if cps == [] then [] else Ints(Encode(cps[0])) + Utf8Bytes(cps[1..])
  }

  /** The bytes are those of the encoding of section 3 of RFC 3629. */
  lemma {:induction false} Utf8BytesAreEncodeAll(cps: seq<nat>)
    requires AllScalar(cps)
    ensures Utf8Bytes(cps) == Ints(EncodeAll(cps))
  {
    if cps != [] {
      var front, last := cps[..|cps| - 1], cps[|cps| - 1];
      Utf8BytesAreEncodeAll(front);
      assert cps == front + [last];
      Utf8BytesSnoc(front, last);
    }
  }

  lemma {:induction false} Utf8BytesSnoc(cps: seq<nat>, cp: nat)
    requires AllScalar(cps) && IsScalar(cp)
    ensures Utf8Bytes(cps + [cp]) == Utf8Bytes(cps) + Ints(Encode(cp))
  {
    hide Encode, IsScalar;
    if cps == [] {
      assert [cp][1..] == [];
      assert Utf8Bytes([cp]) == Ints(Encode(cp)) + [];
    } else {
      assert (cps + [cp])[1..] == cps[1..] + [cp];
      Utf8BytesSnoc(cps[1..], cp);
    }
  }

  // --- what one refill of the buffer produces ---

  /** The bytes of the character at a position; a unit that is no character is passed on. */
  function Refill(width: Width, units: seq<nat>, pos: nat): (bytes: seq<int>)
    requires pos < |units|
    ensures 1 <= |bytes| <= 4
  {
    var wc := units[pos];
    if wc < 0x80 then [wc]
    else if wc <= 0x7FF then [0xC0 + wc / 0x40 % 0x20, 0x80 + wc % 0x40]
    else if (width == Four && wc <= 0xFFFF) || (width == Two && (wc < 0xD800 || 0xE000 <= wc)) then
      [0xE0 + wc / 0x1000 % 0x10, 0x80 + wc / 0x40 % 0x40, 0x80 + wc % 0x40]
    else if width == Four && wc <= 0x10_FFFF then FourByteForm(wc)
    else if width == Two && pos + 1 < |units| then
      FourByteForm(0x1_0000 + wc % 0x400 * 0x400 + units[pos + 1] % 0x400)
    else [wc]
  }

  function FourByteForm(code: nat): seq<int> {
    [0xF0 + code / 0x4_0000, 0x80 + code / 0x1000 % 0x40, 0x80 + code / 0x40 % 0x40, 0x80 + code % 0x40]
  }

  function Taken(width: Width, units: seq<nat>, pos: nat): (n: nat)
    requires pos < |units|
    ensures 1 <= n && pos + n <= |units|
  {
    if width == Two && 0xD800 <= units[pos] < 0xE000 && pos + 1 < |units| then 2 else 1
  }

  /** All bytes from a position on. */
  function Rest(width: Width, units: seq<nat>, pos: nat): seq<int>
    requires pos <= |units|
    decreases |units| - pos
  {
    if pos == |units| then []
    else Refill(width, units, pos) + Rest(width, units, pos + Taken(width, units, pos))
  }

  lemma RefillIsEncode(width: Width, units: seq<nat>, pos: nat, cp: nat)
    requires IsScalar(cp) && pos + |UnitsOf(width, cp)| <= |units|
    requires units[pos..pos + |UnitsOf(width, cp)|] == UnitsOf(width, cp)
    ensures Refill(width, units, pos) == Ints(Encode(cp)) && Taken(width, units, pos) == |UnitsOf(width, cp)|
  {
    assert units[pos] == UnitsOf(width, cp)[0];
    if width == Two && 0x1_0000 <= cp {
      assert units[pos + 1] == UnitsOf(width, cp)[1];
      PairIsEncoded(units, pos, cp);
    } else {
      UnitIsEncoded(width, units, pos, cp);
    }
  }

  lemma UnitIsEncoded(width: Width, units: seq<nat>, pos: nat, cp: nat)
    requires IsScalar(cp) && pos < |units| && units[pos] == cp && (width == Four || cp < 0x1_0000)
    ensures Refill(width, units, pos) == Ints(Encode(cp)) && Taken(width, units, pos) == 1
  {
  }

  lemma PairIsEncoded(units: seq<nat>, pos: nat, cp: nat)
    requires 0x1_0000 <= cp <= 0x10_FFFF && pos + 1 < |units|
    requires units[pos] == 0xD800 + (cp - 0x1_0000) / 0x400 && units[pos + 1] == 0xDC00 + (cp - 0x1_0000) % 0x400
    ensures Refill(Two, units, pos) == Ints(Encode(cp)) && Taken(Two, units, pos) == 2
  {
    PairIsCodePoint(cp);
    CodeIsEncoded(cp);
    hide Encode, FourByteForm;
  }

  lemma CodeIsEncoded(cp: nat)
    requires 0x1_0000 <= cp <= 0x10_FFFF
    ensures FourByteForm(cp) == Ints(Encode(cp))
  {
  }

  lemma PairIsCodePoint(cp: nat)
    requires 0x1_0000 <= cp <= 0x10_FFFF
    ensures var high, low := 0xD800 + (cp - 0x1_0000) / 0x400, 0xDC00 + (cp - 0x1_0000) % 0x400;
            0xD800 <= high < 0xDC00 && 0x1_0000 + high % 0x400 * 0x400 + low % 0x400 == cp
  {
  }

  /** The character the adapter makes of a surrogate and the unit behind it. */
  function Joined(high: nat, low: nat): (cp: nat)
    ensures 0x1_0000 <= cp <= 0x10_FFFF
  {
    0x1_0000 + high % 0x400 * 0x400 + low % 0x400
  }

  /**
   * Section 2.2 of RFC 2781 makes it an error if a surrogate is not the first of a pair. The adapter takes any surrogate
   * for one and any unit for the second: that is right exactly if the two are a pair.
   */
  lemma SurrogateTakesTheNext(units: seq<nat>, pos: nat)
    requires pos + 1 < |units| && 0xD800 <= units[pos] < 0xE000 && units[pos + 1] <= 0xFFFF
    ensures Refill(Two, units, pos) == Ints(Encode(Joined(units[pos], units[pos + 1]))) && Taken(Two, units, pos) == 2
    ensures units[pos..pos + 2] == Utf16(Joined(units[pos], units[pos + 1]))
       <==> units[pos] < 0xDC00 && 0xDC00 <= units[pos + 1] < 0xE000
  {
    var high, low := units[pos], units[pos + 1];
    var cp := Joined(high, low);
    CodeIsEncoded(cp);
    assert units[pos..pos + 2] == [high, low];
    JoinedIsPair(high, low);
    assert Refill(Two, units, pos) == FourByteForm(cp);
  }

  lemma JoinedIsPair(high: nat, low: nat)
    requires 0xD800 <= high < 0xE000 && low <= 0xFFFF
    ensures Utf16(Joined(high, low)) == [0xD800 + high % 0x400, 0xDC00 + low % 0x400]
    ensures 0xD800 + high % 0x400 == high <==> high < 0xDC00
    ensures 0xDC00 + low % 0x400 == low <==> 0xDC00 <= low < 0xE000
  {
  }

  /** D800 before "A" comes out as U+10041. */
  lemma LoneSurrogateTakesLetter()
    ensures Rest(Two, [0xD800, 0x41], 0) == [0xF0, 0x90, 0x81, 0x81]
  {
    var units := [0xD800, 0x41];
    assert Refill(Two, units, 0) == [0xF0, 0x90, 0x81, 0x81] && Taken(Two, units, 0) == 2;
    assert Rest(Two, units, 2) == [];
  }

  /** From any position that starts well-formed text, the bytes are its UTF-8 encoding. */
  lemma {:induction false} RestIsUtf8(width: Width, units: seq<nat>, pos: nat, cps: seq<nat>)
    requires AllScalar(cps) && pos <= |units| && units[pos..] == WideString(width, cps)
    ensures Rest(width, units, pos) == Utf8Bytes(cps)
    decreases |cps|
  {
    hide UnitsOf, Refill, Taken, Encode, IsScalar;
    if cps != [] {
      var first, more := UnitsOf(width, cps[0]), WideString(width, cps[1..]);
      assert units[pos..][..|first|] == first && units[pos..][|first|..] == more;
      assert units[pos..pos + |first|] == first && units[pos + |first|..] == more;
      RefillIsEncode(width, units, pos, cps[0]);
      RestIsUtf8(width, units, pos + |first|, cps[1..]);
    }
  }

  // --- the adapter ---

  class WideStringAdapter {
    const width: Width
    const units: seq<nat>
    var pos: nat
    const utf8Bytes: array<int>
    var index: nat
    var filled: nat

    ghost predicate Valid()
      reads this, utf8Bytes
    {
      utf8Bytes.Length == 4 && index <= filled <= 4 && pos <= |units|
    }

    /** The bytes still to be delivered. */
    ghost function Pending(): seq<int>
      requires Valid()
      reads this, utf8Bytes
    {
      utf8Bytes[index..filled] + Rest(width, units, pos)
    }

    constructor (width: Width, units: seq<nat>)
      ensures Valid() && fresh(utf8Bytes) && this.width == width && this.units == units
      ensures Pending() == Rest(width, units, 0)
    {
      this.width := width;
      this.units := units;
      pos := 0;
      utf8Bytes := new int[4](_ => 0);
      index := 0;
      filled := 0;
    }

    method PutFour(code: nat)
      requires Valid()
      modifies this`filled, utf8Bytes
      ensures filled == 4 && utf8Bytes[..4] == FourByteForm(code)
    {
      utf8Bytes[0] := 0xF0 + code / 0x4_0000;
      utf8Bytes[1] := 0x80 + code / 0x1000 % 0x40;
      utf8Bytes[2] := 0x80 + code / 0x40 % 0x40;
      utf8Bytes[3] := 0x80 + code % 0x40;
      filled := 4;
    }

    /** fill_buffer() */
    method FillBuffer()
      requires Valid() && index == filled
      modifies this`pos, this`index, this`filled, utf8Bytes
      ensures Valid() && index == 0 < filled
      ensures old(pos) == |units| ==> utf8Bytes[..filled] == [EOF] && pos == |units|
      ensures old(pos) < |units| ==>
        && utf8Bytes[..filled] == Refill(width, units, old(pos))
        && pos == old(pos) + Taken(width, units, old(pos))
    {
      index := 0;
      if pos == |units| {
        utf8Bytes[0] := EOF;
        filled := 1;
        return;
      }
      var wc := units[pos];
      pos := pos + 1;
      if wc < 0x80 {
        utf8Bytes[0] := wc;
        filled := 1;
      } else if wc <= 0x7FF {
        utf8Bytes[0] := 0xC0 + wc / 0x40 % 0x20;
        utf8Bytes[1] := 0x80 + wc % 0x40;
        filled := 2;
      } else if (width == Four && wc <= 0xFFFF) || (width == Two && (wc < 0xD800 || 0xE000 <= wc)) {
        utf8Bytes[0] := 0xE0 + wc / 0x1000 % 0x10;
        utf8Bytes[1] := 0x80 + wc / 0x40 % 0x40;
        utf8Bytes[2] := 0x80 + wc % 0x40;
        filled := 3;
      } else if width == Four && wc <= 0x10_FFFF {
        PutFour(wc);
      } else if width == Two && pos < |units| {
        var wc2 := units[pos];
        pos := pos + 1;
        PutFour(0x1_0000 + wc % 0x400 * 0x400 + wc2 % 0x400);
      } else {
        utf8Bytes[0] := wc;
        filled := 1;
      }
    }

    method GetCharacter() returns (c: int)
      requires Valid()
      modifies this`pos, this`index, this`filled, utf8Bytes
      ensures Valid()
      ensures old(Pending()) != [] ==> c == old(Pending())[0] && Pending() == old(Pending())[1..]
      ensures old(Pending()) == [] ==> c == EOF && Pending() == []
    {
      hide Refill, Taken;
      if index == filled {
        FillBuffer();
      }
      c := utf8Bytes[index];
      index := index + 1;
    }

    /** Reads on to the end of the file. */
    method Drain(ghost all: seq<int>) returns (bytes: seq<int>)
      requires Valid() && Pending() == all && forall b :: b in all ==> b != EOF
      modifies this`pos, this`index, this`filled, utf8Bytes
      ensures bytes == all && Valid() && Pending() == []
    {
      hide WideStringAdapter.Valid, Pending;
      bytes := [];
      assert all != [] ==> all[0] in all;
      var c := GetCharacter();
      while c != EOF
        invariant Valid() && |bytes| <= |all| && bytes == all[..|bytes|]
        invariant c != EOF ==> |bytes| < |all| && c == all[|bytes|] && Pending() == all[|bytes| + 1..]
        invariant c == EOF ==> |bytes| == |all| && Pending() == []
        decreases |all| - |bytes|
      {
        ghost var n := |bytes|;
        assert n + 1 < |all| ==> all[n + 1] in all && all[n + 1..][0] == all[n + 1] && all[n + 1..][1..] == all[n + 2..];
        bytes := bytes + [c];
        c := GetCharacter();
      }
    }
  }

  /** Reading well-formed text to the end yields its UTF-8 encoding and then the end of the file. */
  method ReadAll(width: Width, units: seq<nat>, ghost cps: seq<nat>) returns (bytes: seq<int>)
    requires AllScalar(cps) && units == WideString(width, cps)
    ensures bytes == Ints(EncodeAll(cps))
  {
    var adapter := new WideStringAdapter(width, units);
    assert units[0..] == units;
    RestIsUtf8(width, units, 0, cps);
    Utf8BytesAreEncodeAll(cps);
    bytes := adapter.Drain(Ints(EncodeAll(cps)));
  }
}
