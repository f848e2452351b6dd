/** The grammar of sections 2, 4 and 5 of RFC 8259 over tokens, and what a text denotes. */
module JsonGrammar {
  import opened JsonValues
  import opened Options

  /** A float token carries its value, or none if it overflows to infinity. */
  datatype Token =
    | BeginObject | EndObject | BeginArray | EndArray | NameSeparator | ValueSeparator
    | LiteralTrue | LiteralFalse | LiteralNull
    | ValueString(s: string) | ValueUnsigned(u: nat) | ValueInteger(i: int) | ValueFloat(f: Option<real>)
    | ParseError | EndOfInput

  /** A JSON text as it is written: members in order and with duplicates. */
  datatype Text = Scalar(token: Token) | ArrayText(elements: seq<Text>) | ObjectText(members: seq<Member>)
  datatype Member = Member(key: string, value: Text)

  /** The value of a token that is a value by itself. */
  function ScalarValue(token: Token): Option<Json> {
    match token
    case LiteralTrue => Some(Boolean(true))
    case LiteralFalse => Some(Boolean(false))
    case LiteralNull => Some(Null)
    case ValueString(s) => Some(String(s))
    case ValueUnsigned(u) => Some(Number(u as real))
    case ValueInteger(i) => Some(Number(i as real))
    case ValueFloat(f) => if f.Some? then Some(Number(f.value)) else None
    case _ => None
  }

  predicate WellFormed(t: Text) {
    match t
    case Scalar(token) => ScalarValue(token).Some?
    case ArrayText(elements) => forall e :: e in elements ==> WellFormed(e)
    case ObjectText(members) => forall m :: m in members ==> WellFormed(m.value)
  }

  // --- the grammar ---

  /** value = false / null / true / object / array / number / string */
  function Tokens(t: Text): seq<Token> {
    match t
    case Scalar(token) => [token]
    case ArrayText(elements) => [BeginArray] + ElementTokens(elements) + [EndArray]
    case ObjectText(members) => [BeginObject] + MemberTokens(members) + [EndObject]
  }

  /** [ value *( value-separator value ) ] */
  function ElementTokens(elements: seq<Text>): seq<Token> {
    if elements == [] then []
    else if |elements| == 1 then Tokens(elements[0])
    else Tokens(elements[0]) + [ValueSeparator] + ElementTokens(elements[1..])
  }

  /** [ member *( value-separator member ) ], member = string name-separator value */
  function MemberTokens(members: seq<Member>): seq<Token> {
    if members == [] then []
    else
      [ValueString(members[0].key), NameSeparator] + Tokens(members[0].value)
      + if |members| == 1 then [] else [ValueSeparator] + MemberTokens(members[1..])
  }

  // --- the meaning ---

  /** The last of several members with the same key counts. */
  function Value(t: Text): Json
    requires WellFormed(t)
  {
    match t
    case Scalar(token) => ScalarValue(token).value
    case ArrayText(elements) => Array(Values(elements))
    case ObjectText(members) => Object(MemberValues(members))
  }

  function Values(elements: seq<Text>): (values: seq<Json>)
    requires forall e :: e in elements ==> WellFormed(e)
    ensures |values| == |elements|
  {
    if elements == [] then [] else Values(elements[..|elements| - 1]) + [Value(elements[|elements| - 1])]
  }

  function MemberValues(members: seq<Member>): map<string, Json>
    requires forall m :: m in members ==> WellFormed(m.value)
  {
    if members == [] then map[]
    else
      var last := members[|members| - 1];
      MemberValues(members[..|members| - 1])[last.key := Value(last.value)]
  }

  // --- recursive descent ---

  /** The lexer delivers end_of_input from the end on. */
  function TokenAt(ts: seq<Token>, i: nat): Token {
    if i < |ts| then ts[i] else EndOfInput
  }

  datatype Parsed = Parsed(text: Text, next: nat)

  /** The value that starts at position i and the position behind it. */
  function ParseValue(ts: seq<Token>, i: nat): (r: Option<Parsed>)
    ensures r.Some? ==> i < r.value.next <= |ts| && WellFormed(r.value.text)
    decreases |ts| - i, 1
  {
    match TokenAt(ts, i)
    case BeginArray =>
      if TokenAt(ts, i + 1) == EndArray then Some(Parsed(ArrayText([]), i + 2))
      else
        var first := ParseValue(ts, i + 1);
        if first.None? then None else ParseElements(ts, [first.value.text], first.value.next)
    case BeginObject =>
      if TokenAt(ts, i + 1) == EndObject then Some(Parsed(ObjectText([]), i + 2))
      else ParseMember(ts, [], i + 1)
    case token => if ScalarValue(token).Some? then Some(Parsed(Scalar(token), i + 1)) else None
  }

  /** The rest of an array behind some of its elements. */
  function ParseElements(ts: seq<Token>, done: seq<Text>, i: nat): (r: Option<Parsed>)
    requires i <= |ts| && forall e :: e in done ==> WellFormed(e)
    ensures r.Some? ==> i < r.value.next <= |ts| && WellFormed(r.value.text)
    decreases |ts| - i, 0
  {
    match TokenAt(ts, i)
    case ValueSeparator =>
      var next := ParseValue(ts, i + 1);
      if next.None? then None else ParseElements(ts, done + [next.value.text], next.value.next)
    case EndArray => Some(Parsed(ArrayText(done), i + 1))
    case _ => None
  }

  /** The rest of an object where a member is due. */
  function ParseMember(ts: seq<Token>, done: seq<Member>, i: nat): (r: Option<Parsed>)
    requires i <= |ts| && forall m :: m in done ==> WellFormed(m.value)
    ensures r.Some? ==> i < r.value.next <= |ts| && WellFormed(r.value.text)
    decreases |ts| - i, 0
  {
    if TokenAt(ts, i).ValueString? && TokenAt(ts, i + 1) == NameSeparator then
      var value := ParseValue(ts, i + 2);
      if value.None? then None
      else ParseMembers(ts, done + [Member(TokenAt(ts, i).s, value.value.text)], value.value.next)
    else None
  }

  /** The rest of an object behind some of its members. */
  function ParseMembers(ts: seq<Token>, done: seq<Member>, i: nat): (r: Option<Parsed>)
    requires i <= |ts| && forall m :: m in done ==> WellFormed(m.value)
    ensures r.Some? ==> i < r.value.next <= |ts| && WellFormed(r.value.text)
    decreases |ts| - i, 1
  {
    match TokenAt(ts, i)
    case ValueSeparator => ParseMember(ts, done, i + 1)
    case EndObject => Some(Parsed(ObjectText(done), i + 1))
    case _ => None
  }

  // --- one step of recursive descent ---

  lemma ArrayStep(ts: seq<Token>, i: nat)
    requires TokenAt(ts, i) == BeginArray && TokenAt(ts, i + 1) != EndArray
    ensures ParseValue(ts, i) ==
      var first := ParseValue(ts, i + 1);
      if first.None? then None else ParseElements(ts, [first.value.text], first.value.next)
  {
  }

  lemma EmptyArray(ts: seq<Token>, i: nat)
    ensures ElementTokens([]) == []
    ensures TokenAt(ts, i) == BeginArray && TokenAt(ts, i + 1) == EndArray ==>
      ParseValue(ts, i) == Some(Parsed(ArrayText([]), i + 2))
  {
  }

  lemma ArrayEnds(ts: seq<Token>, done: seq<Text>, i: nat)
    requires i <= |ts| && TokenAt(ts, i) == EndArray && forall e :: e in done ==> WellFormed(e)
    ensures ParseElements(ts, done, i) == Some(Parsed(ArrayText(done), i + 1))
  {
  }

  lemma ElementStep(ts: seq<Token>, done: seq<Text>, i: nat)
    requires i <= |ts| && TokenAt(ts, i) == ValueSeparator && forall e :: e in done ==> WellFormed(e)
    ensures ParseElements(ts, done, i) ==
      var next := ParseValue(ts, i + 1);
      if next.None? then None else ParseElements(ts, done + [next.value.text], next.value.next)
  {
  }

  // --- recursive descent accepts the grammar ---

  lemma {:induction false} ElementTokensSnoc(elements: seq<Text>, e: Text)
    requires elements != []
    ensures ElementTokens(elements + [e]) == ElementTokens(elements) + [ValueSeparator] + Tokens(e)
    decreases |elements|
  {
    var all := elements + [e];
    assert all[0] == elements[0] && all[1..] == elements[1..] + [e];
    if |elements| == 1 {
      assert all[1..] == [e] && ElementTokens([e]) == Tokens(e);
    } else {
      ElementTokensSnoc(elements[1..], e);
      hide Tokens, ElementTokens;
    }
  }

  lemma {:induction false} MemberTokensSnoc(members: seq<Member>, m: Member)
    ensures MemberTokens(members + [m]) ==
      MemberTokens(members) + (if members == [] then [] else [ValueSeparator])
      + [ValueString(m.key), NameSeparator] + Tokens(m.value)
    decreases |members|
  {
    var all := members + [m];
    if members == [] {
      assert all == [m];
    } else {
      assert all[0] == members[0] && all[1..] == members[1..] + [m];
      MemberTokensSnoc(members[1..], m);
      if |members| == 1 {
        assert members[1..] == [];
      }
    }
  }

  lemma TokensOfArray(elements: seq<Text>)
    ensures Tokens(ArrayText(elements)) == [BeginArray] + ElementTokens(elements) + [EndArray]
  {
  }

  lemma TokensOfObject(members: seq<Member>)
    ensures Tokens(ObjectText(members)) == [BeginObject] + MemberTokens(members) + [EndObject]
  {
  }

  lemma Slice<T>(s: seq<T>, i: nat, j: nat, k: nat)
    requires i <= j <= k <= |s|
    ensures s[i..k] == s[i..j] + s[j..k]
  {
  }

  /** What is parsed has the tokens that were read. */
  lemma {:induction false} ParsedTokens(ts: seq<Token>, i: nat)
    requires ParseValue(ts, i).Some?
    ensures var r := ParseValue(ts, i).value; Tokens(r.text) == ts[i..r.next]
    decreases |ts| - i, 1
  {
    hide ParseElements, ParseMember;
    var r := ParseValue(ts, i).value;
    if ts[i] == BeginArray {
      if TokenAt(ts, i + 1) == EndArray {
        assert ts[i..i + 2] == [BeginArray] + [] + [EndArray];
      } else {
        var first := ParseValue(ts, i + 1).value;
        ParsedTokens(ts, i + 1);
        ParsedElements(ts, [first.text], first.next);
        Slice(ts, i, i + 1, r.next);
        Slice(ts, i + 1, first.next, r.next);
        assert ts[i..i + 1] == [BeginArray];
      }
    } else if ts[i] == BeginObject {
      if TokenAt(ts, i + 1) == EndObject {
        assert ts[i..i + 2] == [BeginObject] + [] + [EndObject];
      } else {
        ParsedMember(ts, [], i + 1);
        Slice(ts, i, i + 1, r.next);
        assert ts[i..i + 1] == [BeginObject];
      }
    } else {
      assert ts[i..i + 1] == [ts[i]];
    }
  }

  lemma {:induction false} ParsedElements(ts: seq<Token>, done: seq<Text>, i: nat)
    requires i <= |ts| && done != [] && (forall e :: e in done ==> WellFormed(e)) && ParseElements(ts, done, i).Some?
    ensures var r := ParseElements(ts, done, i).value;
            Tokens(r.text) == [BeginArray] + ElementTokens(done) + ts[i..r.next]
    decreases |ts| - i, 0
  {
    hide Tokens, ElementTokens, WellFormed, ParseValue;
    var r := ParseElements(ts, done, i).value;
    TokensOfArray(done);
    if ts[i] == EndArray {
      assert ts[i..i + 1] == [EndArray];
    } else {
      var next := ParseValue(ts, i + 1).value;
      ParsedTokens(ts, i + 1);
      ParsedElements(ts, done + [next.text], next.next);
      ElementTokensSnoc(done, next.text);
      Slice(ts, i, i + 1, r.next);
      Slice(ts, i + 1, next.next, r.next);
      assert ts[i..i + 1] == [ValueSeparator];
    }
  }

  lemma {:induction false} ParsedMember(ts: seq<Token>, done: seq<Member>, i: nat)
    requires i <= |ts| && (forall m :: m in done ==> WellFormed(m.value)) && ParseMember(ts, done, i).Some?
    ensures var r := ParseMember(ts, done, i).value;
            Tokens(r.text) ==
              [BeginObject] + MemberTokens(done) + (if done == [] then [] else [ValueSeparator]) + ts[i..r.next]
    decreases |ts| - i, 0
  {
    hide Tokens, MemberTokens, WellFormed, ParseValue, ParseMembers;
    var r := ParseMember(ts, done, i).value;
    var value := ParseValue(ts, i + 2).value;
    var m := Member(ts[i].s, value.text);
    ParsedTokens(ts, i + 2);
    ParsedMembers(ts, done + [m], value.next);
    MemberTokensSnoc(done, m);
    Slice(ts, i, i + 2, r.next);
    Slice(ts, i + 2, value.next, r.next);
    assert ts[i..i + 2] == [ValueString(m.key), NameSeparator];
  }

  lemma {:induction false} ParsedMembers(ts: seq<Token>, done: seq<Member>, i: nat)
    requires i <= |ts| && done != [] && (forall m :: m in done ==> WellFormed(m.value)) && ParseMembers(ts, done, i).Some?
    ensures var r := ParseMembers(ts, done, i).value;
            Tokens(r.text) == [BeginObject] + MemberTokens(done) + ts[i..r.next]
    decreases |ts| - i, 1
  {
    hide Tokens, MemberTokens, WellFormed, ParseMember;
    var r := ParseMembers(ts, done, i).value;
    TokensOfObject(done);
    if ts[i] == EndObject {
      assert ts[i..i + 1] == [EndObject];
    } else {
      ParsedMember(ts, done, i + 1);
      Slice(ts, i, i + 1, r.next);
      assert ts[i..i + 1] == [ValueSeparator];
    }
  }

  /** Every text of the grammar at position i is parsed, and as that text. */
  lemma {:induction false} TextIsParsed(ts: seq<Token>, t: Text, i: nat)
    requires WellFormed(t) && i + |Tokens(t)| <= |ts| && ts[i..i + |Tokens(t)|] == Tokens(t)
    ensures ParseValue(ts, i) == Some(Parsed(t, i + |Tokens(t)|))
    decreases t
  {
    hide ParseValue, ElementTokens, MemberTokens;
    match t
    case Scalar(token) =>
      assert ts[i] == ts[i..i + 1][0] == token;
      ScalarStep(ts, i);
    case ArrayText(elements) =>
      TokensOfArray(elements);
      Enclosed(ts, i, BeginArray, ElementTokens(elements), EndArray);
      ArrayIsParsed(ts, elements, i);
    case ObjectText(members) =>
      TokensOfObject(members);
      Enclosed(ts, i, BeginObject, MemberTokens(members), EndObject);
      ObjectIsParsed(ts, members, i);
  }

  lemma ScalarStep(ts: seq<Token>, i: nat)
    requires i < |ts| && ScalarValue(ts[i]).Some?
    ensures ParseValue(ts, i) == Some(Parsed(Scalar(ts[i]), i + 1))
  {
  }

  lemma Enclosed(ts: seq<Token>, i: nat, begin: Token, inner: seq<Token>, end: Token)
    requires i + |inner| + 2 <= |ts| && ts[i..i + |inner| + 2] == [begin] + inner + [end]
    ensures ts[i] == begin && ts[i + 1 + |inner|] == end && ts[i + 1..i + 1 + |inner|] == inner
  {
    assert [begin] + inner + [end] == [begin] + (inner + [end]);
    Cut(ts, i, [begin], inner + [end]);
    Cut(ts, i + 1, inner, [end]);
    assert ts[i] == ts[i..i + 1][0];
    assert ts[i + 1 + |inner|] == ts[i + 1 + |inner|..i + 2 + |inner|][0];
  }

  /** A text at a position is the tokens of its parts one after the other. */
  lemma Cut(ts: seq<Token>, i: nat, a: seq<Token>, b: seq<Token>)
    requires i + |a + b| <= |ts| && ts[i..i + |a + b|] == a + b
    ensures ts[i..i + |a|] == a && ts[i + |a|..i + |a + b|] == b
  {
    var s := ts[i..i + |a + b|];
    assert (a + b)[..|a|] == a && (a + b)[|a|..] == b;
    assert s[..|a|] == ts[i..i + |a|];
    assert s[|a|..] == ts[i + |a|..i + |a + b|];
  }

  lemma {:induction false} ArrayIsParsed(ts: seq<Token>, elements: seq<Text>, i: nat)
    requires forall e :: e in elements ==> WellFormed(e)
    requires i + |ElementTokens(elements)| + 2 <= |ts| && ts[i] == BeginArray
    requires ts[i + 1..i + 1 + |ElementTokens(elements)|] == ElementTokens(elements)
    requires ts[i + 1 + |ElementTokens(elements)|] == EndArray
    ensures ParseValue(ts, i) == Some(Parsed(ArrayText(elements), i + |ElementTokens(elements)| + 2))
    decreases elements, |elements| + 1
  {
    hide Tokens, ElementTokens, WellFormed, ElementsAfter, ParseElements, ParseValue;
    EmptyArray(ts, i);
    if elements == [] {
    } else {
      var first, after := Tokens(elements[0]), ElementsAfter(elements, 1);
      StartOf(elements);
      Cut(ts, i + 1, first, after);
      FirstToken(elements[0]);
      assert ts[i + 1] == ts[i + 1..i + 1 + |first|][0];
      TextIsParsed(ts, elements[0], i + 1);
      assert elements[..1] == [elements[0]];
      ArrayStep(ts, i);
      ElementsAreParsed(ts, elements, 1, i + 1 + |first|);
    }
  }

  lemma {:induction false} ObjectIsParsed(ts: seq<Token>, members: seq<Member>, i: nat)
    requires forall m :: m in members ==> WellFormed(m.value)
    requires i + |MemberTokens(members)| + 2 <= |ts| && ts[i] == BeginObject
    requires ts[i + 1..i + 1 + |MemberTokens(members)|] == MemberTokens(members)
    requires ts[i + 1 + |MemberTokens(members)|] == EndObject
    ensures ParseValue(ts, i) == Some(Parsed(ObjectText(members), i + |MemberTokens(members)| + 2))
    decreases members, |members| + 1
  {
    if members != [] {
      assert ts[i + 1] == ts[i + 1..i + 1 + |MemberTokens(members)|][0] == MemberTokens(members)[0];
      hide Tokens, MemberTokens, WellFormed, ParseMember;
      assert members[0..] == members && members[..0] == [];
      MembersAreParsed(ts, members, 0, i + 1);
    }
  }

  /** The tokens of an array from its k-th separator on. */
  function ElementsAfter(elements: seq<Text>, k: nat): seq<Token>
    requires 0 < k <= |elements|
  {
    if k == |elements| then [] else [ValueSeparator] + ElementTokens(elements[k..])
  }

  lemma StartOf(elements: seq<Text>)
    requires elements != []
    ensures ElementTokens(elements) == Tokens(elements[0]) + ElementsAfter(elements, 1)
  {
  }

  lemma AfterStep(elements: seq<Text>, k: nat)
    requires 0 < k < |elements|
    ensures ElementsAfter(elements, k) == [ValueSeparator] + (Tokens(elements[k]) + ElementsAfter(elements, k + 1))
  {
    var rest := elements[k..];
    StartOf(rest);
    assert rest[1..] == elements[k + 1..];
  }

  lemma AfterEnds(elements: seq<Text>)
    requires elements != []
    ensures ElementsAfter(elements, |elements|) == []
  {
  }

  lemma FirstToken(t: Text)
    ensures Tokens(t) != []
    ensures WellFormed(t) ==> Tokens(t)[0] != EndArray && Tokens(t)[0] != EndObject
  {
  }

  lemma {:induction false} ElementsAreParsed(ts: seq<Token>, elements: seq<Text>, k: nat, i: nat)
    requires 0 < k <= |elements| && forall e :: e in elements ==> WellFormed(e)
    requires i + |ElementsAfter(elements, k)| < |ts|
    requires ts[i..i + |ElementsAfter(elements, k)|] == ElementsAfter(elements, k)
    requires ts[i + |ElementsAfter(elements, k)|] == EndArray
    ensures ParseElements(ts, elements[..k], i) == Some(Parsed(ArrayText(elements), i + |ElementsAfter(elements, k)| + 1))
    decreases elements, |elements| - k
  {
    hide Tokens, ElementTokens, WellFormed, ParseValue, ParseElements, ElementsAfter;
    AfterEnds(elements);
    if k == |elements| {
      assert elements[..k] == elements;
      ArrayEnds(ts, elements, i);
    } else {
      var t, more := Tokens(elements[k]), ElementsAfter(elements, k + 1);
      AfterStep(elements, k);
      Cut(ts, i, [ValueSeparator], t + more);
      Cut(ts, i + 1, t, more);
      assert ts[i] == ts[i..i + 1][0] == ValueSeparator;
      TextIsParsed(ts, elements[k], i + 1);
      assert elements[..k] + [elements[k]] == elements[..k + 1];
      ElementStep(ts, elements[..k], i);
      ElementsAreParsed(ts, elements, k + 1, i + 1 + |t|);
    }
  }

  /** The tokens behind the k-th member. */
  function MembersAfter(members: seq<Member>, k: nat): seq<Token>
    requires k < |members|
  {
    if k + 1 == |members| then [] else [ValueSeparator] + MemberTokens(members[k + 1..])
  }

  lemma StartOfMembers(members: seq<Member>, k: nat)
    requires k < |members|
    ensures MemberTokens(members[k..]) ==
      [ValueString(members[k].key), NameSeparator] + (Tokens(members[k].value) + MembersAfter(members, k))
  {
    assert members[k..][1..] == members[k + 1..];
  }

  lemma {:induction false} MembersAreParsed(ts: seq<Token>, members: seq<Member>, k: nat, i: nat)
    requires k < |members| && forall m :: m in members ==> WellFormed(m.value)
    requires i + |MemberTokens(members[k..])| < |ts|
    requires ts[i..i + |MemberTokens(members[k..])|] == MemberTokens(members[k..])
    requires ts[i + |MemberTokens(members[k..])|] == EndObject
    ensures ParseMember(ts, members[..k], i) ==
      Some(Parsed(ObjectText(members), i + |MemberTokens(members[k..])| + 1))
    decreases members, |members| - k, 0
  {
    hide Tokens, MemberTokens, WellFormed, ParseValue, MembersAfter;
    var head, t, after := [ValueString(members[k].key), NameSeparator], Tokens(members[k].value), MembersAfter(members, k);
    StartOfMembers(members, k);
    Cut(ts, i, head, t + after);
    Cut(ts, i + 2, t, after);
    assert ts[i] == ts[i..i + 2][0] && ts[i + 1] == ts[i..i + 2][1];
    TextIsParsed(ts, members[k].value, i + 2);
    assert members[..k] + [members[k]] == members[..k + 1];
    MembersAfterAreParsed(ts, members, k, i + 2 + |t|);
  }

  lemma {:induction false} MembersAfterAreParsed(ts: seq<Token>, members: seq<Member>, k: nat, i: nat)
    requires k < |members| && forall m :: m in members ==> WellFormed(m.value)
    requires i + |MembersAfter(members, k)| < |ts|
    requires ts[i..i + |MembersAfter(members, k)|] == MembersAfter(members, k)
    requires ts[i + |MembersAfter(members, k)|] == EndObject
    ensures ParseMembers(ts, members[..k + 1], i) == Some(Parsed(ObjectText(members), i + |MembersAfter(members, k)| + 1))
    decreases members, |members| - k - 1, 1
  {
    hide Tokens, MemberTokens, WellFormed, ParseMember;
    if k + 1 == |members| {
      assert members[..k + 1] == members;
    } else {
      var more := MemberTokens(members[k + 1..]);
      Cut(ts, i, [ValueSeparator], more);
      assert ts[i] == ts[i..i + 1][0] == ValueSeparator;
      MembersAreParsed(ts, members, k + 1, i + 1);
    }
  }

  /** Recursive descent finds the text at a position if and only if there is one, and there is at most one. */
  lemma ParseIsGrammar(ts: seq<Token>, i: nat, t: Text, n: nat)
    requires i <= n <= |ts|
    ensures ParseValue(ts, i) == Some(Parsed(t, n)) <==> WellFormed(t) && Tokens(t) == ts[i..n]
  {
    hide Tokens, WellFormed;
    if ParseValue(ts, i) == Some(Parsed(t, n)) {
      ParsedTokens(ts, i);
    }
    if WellFormed(t) && Tokens(t) == ts[i..n] {
      TextIsParsed(ts, t, i);
    }
  }

  // --- what the value of a text holds ---

  /** Elements keep their order, and of several members with the same key the last one counts. */
  lemma {:induction false} ElementsKeepOrder(elements: seq<Text>, i: nat)
    requires i < |elements| && forall e :: e in elements ==> WellFormed(e)
    ensures Values(elements)[i] == Value(elements[i])
    decreases |elements|
  {
    hide WellFormed, Value;
    var front := elements[..|elements| - 1];
    if i < |front| {
      ElementsKeepOrder(front, i);
    }
  }

  lemma {:induction false} LastMemberCounts(members: seq<Member>, i: nat)
    requires i < |members| && forall m :: m in members ==> WellFormed(m.value)
    requires forall n :: i < n < |members| ==> members[n].key != members[i].key
    ensures members[i].key in MemberValues(members)
    ensures MemberValues(members)[members[i].key] == Value(members[i].value)
    decreases |members|
  {
    hide WellFormed, Value;
    var front := members[..|members| - 1];
    if i < |front| {
      LastMemberCounts(front, i);
    }
  }

  lemma {:induction false} NoOtherMembers(members: seq<Member>, key: string)
    requires forall m :: m in members ==> WellFormed(m.value)
    ensures key in MemberValues(members) <==> exists i :: 0 <= i < |members| && members[i].key == key
    decreases |members|
  {
    hide WellFormed, Value;
    if members != [] {
      var front := members[..|members| - 1];
      NoOtherMembers(front, key);
      if i :| 0 <= i < |members| && members[i].key == key {
        assert i < |front| ==> front[i].key == key;
      }
    }
  }

  /** {"a":1,"a":2} is {"a":2}, and true is not false. */
  lemma ValueOfExample()
    ensures var one, two := Scalar(ValueUnsigned(1)), Scalar(ValueUnsigned(2));
            && WellFormed(ObjectText([Member("a", one), Member("a", two)]))
            && Value(ObjectText([Member("a", one), Member("a", two)])) == Object(map["a" := Number(2.0)])
    ensures Value(Scalar(LiteralTrue)) == Boolean(true) && Value(Scalar(LiteralFalse)) == Boolean(false)
  {
    var one, two := Scalar(ValueUnsigned(1)), Scalar(ValueUnsigned(2));
    var members := [Member("a", one), Member("a", two)];
    LastMemberCounts(members, 1);
    forall key: string
      ensures key in MemberValues(members) <==> key == "a"
    {
      NoOtherMembers(members, key);
    }
    assert MemberValues(members) == map["a" := Number(2.0)];
  }
}
