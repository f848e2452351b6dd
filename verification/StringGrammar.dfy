/** String literals in section 7 of RFC 8259, over the UTF-8 bytes of the text. */
module StringGrammar {
  import opened Utf8

  predicate IsHexDigit(c: char) {
    '0' <= c <= '9' || 'A' <= c <= 'F' || 'a' <= c <= 'f'
  }

  function HexValue(c: char): (d: nat)
    requires IsHexDigit(c)
    ensures d < 16
  {
    if c <= '9' then c as int - '0' as int else if c <= 'F' then c as int - 'A' as int + 10 else c as int - 'a' as int + 10
  }

  predicate IsHex4(s: string) {
    |s| == 4 && IsHexDigit(s[0]) && IsHexDigit(s[1]) && IsHexDigit(s[2]) && IsHexDigit(s[3])
  }

  /** The code unit four hexadecimal digits denote. */
  function Hex4(s: string): (u: nat)
    requires IsHex4(s)
    ensures u <= 0xFFFF
  {
    ((HexValue(s[0]) * 16 + HexValue(s[1])) * 16 + HexValue(s[2])) * 16 + HexValue(s[3])
  }

  predicate IsHighSurrogate(u: int) {
    0xD800 <= u <= 0xDBFF
  }

  predicate IsLowSurrogate(u: int) {
    0xDC00 <= u <= 0xDFFF
  }

  /** One character of a literal: itself, a two-character escape, one \u escape, or a surrogate pair of them. */
  datatype Item = Plain(cp: nat) | Short(c: char) | Unit(hex: string) | Pair(high: string, low: string)
  {
    predicate Valid() {
      match this
      case Plain(cp) => IsScalar(cp) && 0x20 <= cp && cp != 0x22 && cp != 0x5C
      case Short(c) => c in "\"\\/bfnrt"
      case Unit(hex) => IsHex4(hex) && !IsHighSurrogate(Hex4(hex)) && !IsLowSurrogate(Hex4(hex))
      case Pair(high, low) =>
        && IsHex4(high) && IsHighSurrogate(Hex4(high))
        && IsHex4(low) && IsLowSurrogate(Hex4(low))
    }

    function CodePoint(): (r: nat)
      requires Valid()
      ensures IsScalar(r)
    {
      match this
      case Plain(cp) => cp
      case Short(c) =>
        if c == 'b' then 0x08 else if c == 't' then 0x09 else if c == 'n' then 0x0A
        else if c == 'f' then 0x0C else if c == 'r' then 0x0D else c as int
      case Unit(hex) => Hex4(hex)
      case Pair(high, low) => 0x1_0000 + (Hex4(high) - 0xD800) * 0x400 + (Hex4(low) - 0xDC00)
    }

    function Text(): (s: string)
      requires Valid()
      ensures s != []
    {
      match this
      case Plain(cp) => Encode(cp)
      case Short(c) => ['\\', c]
      case Unit(hex) => ['\\', 'u'] + hex
      case Pair(high, low) => ['\\', 'u'] + high + ['\\', 'u'] + low
    }
  }

  predicate AllValid(items: seq<Item>) {
    forall i :: 0 <= i < |items| ==> items[i].Valid()
  }

  function TextOf(items: seq<Item>): string
    requires AllValid(items)
  {
    if items == [] then [] else TextOf(items[..|items| - 1]) + items[|items| - 1].Text()
  }

  function CodePoints(items: seq<Item>): (cps: seq<nat>)
    requires AllValid(items)
    ensures |cps| == |items| && forall i :: 0 <= i < |cps| ==> cps[i] == items[i].CodePoint()
  {
    seq(|items|, i requires 0 <= i < |items| => items[i].CodePoint())
  }

  /** The literal, from behind its opening quote to its closing one, denotes the code points value encodes. */
  ghost predicate Denotes(literal: string, value: string) {
    exists items | AllValid(items) :: literal == TextOf(items) + "\"" && value == EncodeAll(CodePoints(items))
  }

  ghost predicate StartsWithItem(s: string) {
    exists item: Item :: item.Valid() && item.Text() <= s
  }

  lemma {:induction false} TextOfAppend(a: seq<Item>, b: seq<Item>)
    requires AllValid(a) && AllValid(b)
    ensures TextOf(a + b) == TextOf(a) + TextOf(b)
  {
    hide Item.Valid, Item.Text, Item.CodePoint;
    if b == [] {
      assert a + b == a;
    } else {
      var front, last := b[..|b| - 1], b[|b| - 1];
      assert (a + b)[..|a + b| - 1] == a + front && (a + b)[|a + b| - 1] == last;
      TextOfAppend(a, front);
    }
  }

  lemma PlainStartsPlainly(item: Item)
    requires item.Valid()
    ensures item.Text()[0] != '"'
    ensures item.Text()[0] == '\\' <==> !item.Plain?
  {
    if item.Plain? {
      EncodingsAreSequences(item.cp);
    }
  }

  /** At most one item starts a given text. */
  lemma ItemsArePrefixFree(a: Item, b: Item, s: string)
    requires a.Valid() && b.Valid() && a.Text() <= s && b.Text() <= s
    ensures a == b
  {
    PlainStartsPlainly(a);
    PlainStartsPlainly(b);
    assert a.Text()[0] == s[0] == b.Text()[0];
    if a.Plain? {
      EncodingsArePrefixFree(a.cp, b.cp, s);
    } else {
      EscapeOf(a, s);
      EscapeOf(b, s);
    }
  }

  /** A surrogate pair needs a second escape behind the first. */
  predicate LowSurrogateFollows(s: string) {
    12 <= |s| && s[6] == '\\' && s[7] == 'u' && IsHex4(s[8..12]) && IsLowSurrogate(Hex4(s[8..12]))
  }

  /** No item starts behind a backslash that begins no escape. */
  lemma NoEscape(s: string)
    requires s != [] && s[0] == '\\'
    requires 2 <= |s| ==> s[1] !in "\"\\/bfnrt"
    requires 6 <= |s| && s[1] == 'u' && IsHex4(s[2..6]) ==>
      || IsLowSurrogate(Hex4(s[2..6]))
      || (IsHighSurrogate(Hex4(s[2..6])) && !LowSurrogateFollows(s))
    ensures !StartsWithItem(s)
  {
    forall item: Item | item.Valid()
      ensures !(item.Text() <= s)
    {
      if item.Text() <= s {
        PlainStartsPlainly(item);
        EscapeOf(item, s);
      }
    }
  }

  /** No item starts with bytes that begin no UTF-8 sequence. */
  lemma NoPlain(s: string)
    requires s == [] || s[0] != '\\'
    requires s != [] && s[0] != '"' && 0x20 <= s[0] as int ==> forall e: string :: e <= s ==> !IsSequence(e)
    ensures !StartsWithItem(s)
  {
    forall item: Item | item.Valid()
      ensures !(item.Text() <= s)
    {
      if item.Text() <= s {
        PlainStartsPlainly(item);
        EncodingsAreSequences(item.cp);
      }
    }
  }

  /** An escape is determined by the characters behind the backslash. */
  lemma EscapeOf(a: Item, s: string)
    requires a.Valid() && !a.Plain? && a.Text() <= s
    ensures 2 <= |s| && s[0] == '\\'
    ensures s[1] != 'u' ==> a == Short(s[1])
    ensures s[1] == 'u' ==>
      && 6 <= |s| && IsHex4(s[2..6])
      && if IsHighSurrogate(Hex4(s[2..6])) then 12 <= |s| && s[6] == '\\' && s[7] == 'u' && a == Pair(s[2..6], s[8..12])
         else a == Unit(s[2..6])
  {
    var t := a.Text();
    assert forall i :: 0 <= i < |t| ==> t[i] == s[i];
    match a
    case Short(c) =>
    case Unit(hex) =>
      assert t[2..6] == s[2..6] == hex;
    case Pair(high, low) =>
      assert t[2..6] == s[2..6] == high;
      assert t[8..12] == s[8..12] == low;
  }

  /** Every reading of the text that starts with some items goes on with the item found next. */
  lemma ReadingGoesOn(items: seq<Item>, n: nat, item: Item, s: string)
    requires AllValid(items) && n <= |items| && item.Valid()
    requires TextOf(items) + "\"" <= s
    requires TextOf(items[..n]) + item.Text() <= s
    ensures n < |items| && items[n] == item
  {
    hide Item.Valid, Item.Text, Item.CodePoint;
    var rest := RestOfReading(items, n, s);
    PlainStartsPlainly(item);
    var k := |TextOf(items[..n])|;
    assert (TextOf(items[..n]) + item.Text())[k..] == item.Text();
    assert item.Text() <= s[k..];
    if n < |items| {
      ItemsArePrefixFree(items[n], item, s[k..]);
    }
  }

  /** What a reading says about the text behind its first n items. */
  lemma RestOfReading(items: seq<Item>, n: nat, s: string) returns (rest: string)
    requires AllValid(items) && n <= |items| && TextOf(items) + "\"" <= s
    ensures TextOf(items[..n]) <= s && rest == s[|TextOf(items[..n])|..]
    ensures n == |items| ==> rest != [] && rest[0] == '"'
    ensures n < |items| ==> items[n].Text() <= rest
  {
    hide Item.Valid, Item.Text, Item.CodePoint;
    var before := TextOf(items[..n]);
    assert items == items[..n] + items[n..];
    TextOfAppend(items[..n], items[n..]);
    PrefixOfText(before, TextOf(items[n..]) + "\"", s);
    rest := s[|before|..];
    if n == |items| {
      assert items[..n] == items;
    } else {
      var one := [items[n]];
      assert items[n..] == one + items[n + 1..] && one[..0] == [];
      TextOfAppend(one, items[n + 1..]);
      PrefixOfText(items[n].Text(), TextOf(items[n + 1..]) + "\"", rest);
    }
  }

  lemma PrefixOfText(a: string, b: string, s: string)
    requires (a + b) <= s
    ensures a <= s && b <= s[|a|..]
  {
    assert (a + b)[..|a|] == a && (a + b)[|a|..] == b;
    assert s[..|a|] == a && s[|a|..][..|b|] == b;
  }

  /** A text starts with at most one literal, and that literal has one value. */
  lemma ReadingsAreUnique(l1: string, v1: string, l2: string, v2: string, s: string)
    requires l1 <= s && l2 <= s && Denotes(l1, v1) && Denotes(l2, v2)
    ensures l1 == l2 && v1 == v2
  {
    hide Item.Valid, Item.Text, Item.CodePoint;
    var a: seq<Item> :| AllValid(a) && l1 == TextOf(a) + "\"" && v1 == EncodeAll(CodePoints(a));
    var b: seq<Item> :| AllValid(b) && l2 == TextOf(b) + "\"" && v2 == EncodeAll(CodePoints(b));
    SameReading(a, b, s, 0);
  }

  lemma {:induction false} SameReading(a: seq<Item>, b: seq<Item>, s: string, n: nat)
    requires AllValid(a) && AllValid(b) && n <= |a| && n <= |b| && a[..n] == b[..n]
    requires TextOf(a) + "\"" <= s && TextOf(b) + "\"" <= s
    ensures a == b
    decreases |a| - n
  {
    hide Item.Valid, Item.Text, Item.CodePoint;
    var ra := RestOfReading(a, n, s);
    var rb := RestOfReading(b, n, s);
    if n < |a| {
      PlainStartsPlainly(a[n]);
    }
    if n < |b| {
      PlainStartsPlainly(b[n]);
    }
    if n < |a| && n < |b| {
      ItemsArePrefixFree(a[n], b[n], ra);
      assert a[..n + 1] == a[..n] + [a[n]] && b[..n + 1] == b[..n] + [b[n]];
      SameReading(a, b, s, n + 1);
    } else {
      assert a[..n] == a && b[..n] == b;
    }
  }

  lemma OneEncoded(cp: nat)
    requires IsScalar(cp)
    ensures EncodeAll([cp]) == Encode(cp)
  {
    hide Encode;
    assert [cp][..0] == [] && [] + Encode(cp) == Encode(cp);
  }

  /** A literal of one item. */
  lemma OneItem(item: Item)
    requires item.Valid()
    ensures Denotes(item.Text() + "\"", Encode(item.CodePoint()))
  {
    hide Item.Valid, Item.Text, Item.CodePoint, Encode, IsScalar;
    var items := [item];
    assert items[..0] == [];
    assert TextOf(items) == [] + item.Text() == item.Text();
    assert CodePoints(items) == [item.CodePoint()];
    OneEncoded(item.CodePoint());
  }

  lemma OneItemIs(item: Item, literal: string, value: string)
    requires item.Valid() && literal == item.Text() + "\"" && value == Encode(item.CodePoint())
    ensures Denotes(literal, value)
  {
    OneItem(item);
  }

  lemma OneShort(c: char, point: nat)
    requires Short(c).Valid() && point < 0x80 && Short(c).CodePoint() == point
    ensures Denotes(['\\', c, '"'], [point as char])
  {
    OneItemIs(Short(c), ['\\', c, '"'], [point as char]);
  }

  lemma ShortPoints()
    ensures forall c :: c in "\"\\/bfnrt" ==> Short(c).Valid()
    ensures Short('"').CodePoint() == 0x22 && Short('\\').CodePoint() == 0x5C && Short('/').CodePoint() == 0x2F
    ensures Short('b').CodePoint() == 8 && Short('f').CodePoint() == 12 && Short('n').CodePoint() == 10
    ensures Short('r').CodePoint() == 13 && Short('t').CodePoint() == 9
  {
  }

  /** The escapes of two characters in section 7 of RFC 8259. */
  lemma StandardEscapes()
    ensures Denotes("\\\"\"", "\"") && Denotes("\\\\\"", "\\") && Denotes("\\/\"", "/")
    ensures Denotes("\\b\"", [8 as char]) && Denotes("\\f\"", [12 as char]) && Denotes("\\n\"", [10 as char])
    ensures Denotes("\\r\"", [13 as char]) && Denotes("\\t\"", [9 as char])
  {
    hide Denotes, Item.Valid, Item.CodePoint;
    ShortPoints();
    OneShort('"', 0x22);
    OneShort('\\', 0x5C);
    OneShort('/', 0x2F);
    OneShort('b', 8);
    OneShort('f', 12);
    OneShort('n', 10);
    OneShort('r', 13);
    OneShort('t', 9);
  }

  lemma HexExamples()
    ensures Unit("005C").Valid() && Unit("005C").CodePoint() == 0x5C
    ensures Unit("005c").Valid() && Unit("005c").CodePoint() == 0x5C
    ensures Pair("D834", "DD1E").Valid() && Pair("D834", "DD1E").CodePoint() == 0x1D11E
  {
    assert Hex4("005C") == 0x5C && Hex4("005c") == 0x5C;
    assert Hex4("D834") == 0xD834 && Hex4("DD1E") == 0xDD1E;
  }

  lemma PairEncoded()
    ensures Encode(0x5C) == "\\" && Encode(0x1D11E) == ['\U{F0}', '\U{9D}', '\U{84}', '\U{9E}']
  {
  }

  lemma OneUnit(hex: string, literal: string)
    requires Unit(hex).Valid() && literal == "\\u" + hex + "\""
    ensures Denotes(literal, Encode(Hex4(hex)))
  {
    OneItem(Unit(hex));
  }

  lemma OnePair(high: string, low: string, literal: string)
    requires Pair(high, low).Valid() && literal == "\\u" + high + "\\u" + low + "\""
    ensures Denotes(literal, Encode(Pair(high, low).CodePoint()))
  {
    hide Hex4, IsHex4;
    OneItem(Pair(high, low));
  }

  /** The examples of hexadecimal escapes there: U+005C in both cases, and the pair for U+1D11E. */
  lemma StandardHexEscapes()
    ensures Denotes("\\u005C\"", "\\") && Denotes("\\u005c\"", "\\")
    ensures Denotes("\\uD834\\uDD1E\"", ['\U{F0}', '\U{9D}', '\U{84}', '\U{9E}'])
  {
    hide Denotes, Encode, Item.Valid, Hex4;
    HexExamples();
    PairEncoded();
    OneUnit("005C", "\\u005C\"");
    OneUnit("005c", "\\u005c\"");
    OnePair("D834", "DD1E", "\\uD834\\uDD1E\"");
  }

  // --- control characters ---

  lemma ItemHasNoControl(item: Item)
    requires item.Valid()
    ensures forall i :: 0 <= i < |item.Text()| ==> 0x20 <= item.Text()[i] as int
  {
    if item.Plain? {
      EncodingsAreSequences(item.cp);
    }
  }

  lemma {:induction false} ItemsHaveNoControl(items: seq<Item>)
    requires AllValid(items)
    ensures forall i :: 0 <= i < |TextOf(items)| ==> 0x20 <= TextOf(items)[i] as int
    decreases |items|
  {
    hide Item.Valid, Item.Text;
    if items != [] {
      ItemsHaveNoControl(items[..|items| - 1]);
      ItemHasNoControl(items[|items| - 1]);
    }
  }

  /** Control characters must be escaped (section 7 of RFC 8259): no literal contains one. */
  lemma LiteralHasNoControl(literal: string, value: string)
    requires Denotes(literal, value)
    ensures forall i :: 0 <= i < |literal| ==> 0x20 <= literal[i] as int
  {
    hide Item.Valid, Item.Text, Item.CodePoint;
    var items :| AllValid(items) && literal == TextOf(items) + "\"" && value == EncodeAll(CodePoints(items));
    ItemsHaveNoControl(items);
  }
}
