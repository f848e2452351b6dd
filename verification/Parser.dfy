/** The parser: a loop with an explicit stack that drives the SAX handler. */
module Parsing {
  import opened JsonValues
  import opened Options
  import opened JsonGrammar
  import opened DomBuilding

  // --- recursive descent resumed in the middle ---

  /** A container the parser is inside of, with the parts of its text that are complete. */
  datatype Open = OpenArray(elements: seq<Text>) | OpenObject(members: seq<Member>, key: string)
  {
    predicate Valid() {
      match this
      case OpenArray(elements) => forall e :: e in elements ==> WellFormed(e)
      case OpenObject(members, _) => forall m :: m in members ==> WellFormed(m.value)
    }

    /** The frame of the handler for this container. */
    function ToFrame(): Frame
      requires Valid()
    {
      match this
      case OpenArray(elements) => ArrayFrame(Values(elements))
      case OpenObject(members, key) => ObjectFrame(MemberValues(members), key)
    }
  }

  predicate AllValid(opens: seq<Open>) {
    forall i :: 0 <= i < |opens| ==> opens[i].Valid()
  }

  function Frames(opens: seq<Open>): (frames: seq<Frame>)
    requires AllValid(opens)
    ensures |frames| == |opens| && forall i :: 0 <= i < |frames| ==> frames[i] == opens[i].ToFrame()
  {
    seq(|opens|, i requires 0 <= i < |opens| => opens[i].ToFrame())
  }

  /** true = array; false = object */
  function States(opens: seq<Open>): (states: seq<bool>)
    ensures |states| == |opens| && forall i :: 0 <= i < |states| ==> states[i] == opens[i].OpenArray?
  {
    seq(|opens|, i requires 0 <= i < |opens| => opens[i].OpenArray?)
  }

  lemma OneMoreOpen(opens: seq<Open>, open: Open)
    requires AllValid(opens) && open.Valid()
    ensures AllValid(opens + [open])
    ensures Frames(opens + [open]) == Frames(opens) + [open.ToFrame()]
    ensures Front(Frames(opens + [open])) == Frames(opens) && Top(Frames(opens + [open])) == open.ToFrame()
    ensures States(opens + [open]) == States(opens) + [open.OpenArray?]
  {
  }

  lemma LastFrame(frames: seq<Frame>, f: Frame)
    ensures Front(frames + [f]) == frames && Top(frames + [f]) == f
  {
  }

  lemma EmptyContainers()
    ensures Value(ArrayText([])) == Array([]) && WellFormed(ArrayText([]))
    ensures MemberValues([]) == map[] && Value(ObjectText([])) == Object(map[]) && WellFormed(ObjectText([]))
    ensures OpenArray([]).Valid() && OpenArray([]).ToFrame() == ArrayFrame([])
    ensures forall key :: OpenObject([], key).Valid() && OpenObject([], key).ToFrame() == ObjectFrame(map[], key)
  {
  }

  /** The rest of one container behind a value of it. */
  function Rest(ts: seq<Token>, open: Open, t: Text, i: nat): (r: Option<Parsed>)
    requires open.Valid() && WellFormed(t) && i <= |ts|
    ensures r.Some? ==> i < r.value.next <= |ts| && WellFormed(r.value.text)
  {
    match open
    case OpenArray(elements) => ParseElements(ts, elements + [t], i)
    case OpenObject(members, key) => ParseMembers(ts, members + [Member(key, t)], i)
  }

  /** What recursive descent returns from inside open containers when a value of the innermost is complete. */
  function After(ts: seq<Token>, opens: seq<Open>, t: Text, i: nat): Option<Parsed>
    requires AllValid(opens) && WellFormed(t) && i <= |ts|
    decreases |opens|
  {
    if opens == [] then Some(Parsed(t, i))
    else
      var rest := Rest(ts, opens[|opens| - 1], t, i);
      if rest.None? then None else After(ts, opens[..|opens| - 1], rest.value.text, rest.value.next)
  }

  /** What it returns from inside open containers when a value is due. */
  function Before(ts: seq<Token>, opens: seq<Open>, i: nat): Option<Parsed>
    requires AllValid(opens)
  {
    var value := ParseValue(ts, i);
    if value.None? then None else After(ts, opens, value.value.text, value.value.next)
  }

  lemma OpeningArray(ts: seq<Token>, opens: seq<Open>, i: nat)
    requires AllValid(opens) && TokenAt(ts, i) == BeginArray
    ensures AllValid(opens + [OpenArray([])])
    ensures TokenAt(ts, i + 1) != EndArray ==> Before(ts, opens, i) == Before(ts, opens + [OpenArray([])], i + 1)
    ensures TokenAt(ts, i + 1) == EndArray ==> Before(ts, opens, i) == After(ts, opens, ArrayText([]), i + 2)
  {
    var inside := opens + [OpenArray([])];
    assert inside[..|opens|] == opens;
    if TokenAt(ts, i + 1) != EndArray && ParseValue(ts, i + 1).Some? {
      var first := ParseValue(ts, i + 1).value.text;
      assert [] + [first] == [first];
    }
  }

  lemma OpeningObject(ts: seq<Token>, opens: seq<Open>, i: nat)
    requires AllValid(opens) && TokenAt(ts, i) == BeginObject
    ensures TokenAt(ts, i + 1) == EndObject ==> Before(ts, opens, i) == After(ts, opens, ObjectText([]), i + 2)
    ensures TokenAt(ts, i + 1) != EndObject ==> Before(ts, opens, i) == BeforeMember(ts, opens, [], i + 1)
  {
  }

  /** What recursive descent returns from inside an object where a member is due. */
  function BeforeMember(ts: seq<Token>, opens: seq<Open>, done: seq<Member>, i: nat): Option<Parsed>
    requires AllValid(opens) && i <= |ts| && OpenObject(done, "").Valid()
  {
    var rest := ParseMember(ts, done, i);
    if rest.None? then None else After(ts, opens, rest.value.text, rest.value.next)
  }

  lemma ReadingMember(ts: seq<Token>, opens: seq<Open>, done: seq<Member>, i: nat)
    requires AllValid(opens) && i <= |ts| && OpenObject(done, "").Valid()
    ensures
      if TokenAt(ts, i).ValueString? && TokenAt(ts, i + 1) == NameSeparator then
        var inside := opens + [OpenObject(done, TokenAt(ts, i).s)];
        AllValid(inside) && BeforeMember(ts, opens, done, i) == Before(ts, inside, i + 2)
      else BeforeMember(ts, opens, done, i) == None
  {
    if TokenAt(ts, i).ValueString? {
      var inside := opens + [OpenObject(done, TokenAt(ts, i).s)];
      assert inside[..|opens|] == opens;
    }
  }

  lemma EndingElement(ts: seq<Token>, opens: seq<Open>, t: Text, i: nat)
    requires AllValid(opens) && WellFormed(t) && i <= |ts| && opens != [] && opens[|opens| - 1].OpenArray?
    ensures var outer, all := opens[..|opens| - 1], opens[|opens| - 1].elements + [t];
            && AllValid(outer + [OpenArray(all)])
            && After(ts, opens, t, i) ==
                 if TokenAt(ts, i) == ValueSeparator then Before(ts, outer + [OpenArray(all)], i + 1)
                 else if TokenAt(ts, i) == EndArray then After(ts, outer, ArrayText(all), i + 1)
                 else None
  {
    var outer, all := opens[..|opens| - 1], opens[|opens| - 1].elements + [t];
    assert (outer + [OpenArray(all)])[..|outer|] == outer;
    if TokenAt(ts, i) == ValueSeparator {
      ElementStep(ts, all, i);
    }
  }

  lemma EndingMember(ts: seq<Token>, opens: seq<Open>, t: Text, i: nat)
    requires AllValid(opens) && WellFormed(t) && i <= |ts| && opens != [] && opens[|opens| - 1].OpenObject?
    ensures var outer, top := opens[..|opens| - 1], opens[|opens| - 1];
            var all := top.members + [Member(top.key, t)];
            && OpenObject(all, "").Valid() && AllValid(outer)
            && After(ts, opens, t, i) ==
                 if TokenAt(ts, i) == ValueSeparator then BeforeMember(ts, outer, all, i + 1)
                 else if TokenAt(ts, i) == EndObject then After(ts, outer, ObjectText(all), i + 1)
                 else None
  {
  }

  // --- the parser ---

  /** How the loop goes on: with an error, with the next value, or with the state after a complete value. */
  datatype Outcome = Failed | ValueDue | ValueComplete

  class Parser {
    /** What the lexer delivers before end_of_input. */
    const tokens: seq<Token>
    const sax: DomBuilder
    var pos: nat
    var lastToken: Token
    var states: seq<bool>
    ghost var opens: seq<Open>
    ghost var text: Text

    constructor (tokens: seq<Token>, sax: DomBuilder)
      requires sax.Ready() && sax.frames == [] && !sax.due
      ensures this.tokens == tokens && this.sax == sax && Due() && opens == [] && pos == 1
    {
      this.tokens := tokens;
      this.sax := sax;
      pos := 1;
      lastToken := TokenAt(tokens, 0);
      states := [];
      opens := [];
    }

    method GetToken() returns (token: Token)
      modifies this`pos, this`lastToken
      ensures token == lastToken == TokenAt(tokens, old(pos)) && pos == old(pos) + 1
    {
      lastToken := TokenAt(tokens, pos);
      pos := pos + 1;
      token := lastToken;
    }

    ghost predicate Stacked()
      reads this, sax
    {
      AllValid(opens) && states == States(opens) && sax.Valid()
    }

    /** A value is due, and its first token was read. */
    ghost predicate Due()
      reads this, sax
    {
      && Stacked() && sax.Ready() && sax.frames == Frames(opens)
      && (sax.due <==> opens != [] && opens[|opens| - 1].OpenObject?)
      && 1 <= pos <= |tokens| + 1 && lastToken == TokenAt(tokens, pos - 1)
    }

    /** A value of the innermost container is complete. */
    ghost predicate Complete()
      reads this, sax
    {
      && Stacked() && !sax.due && WellFormed(text) && pos <= |tokens|
      && sax.frames == Received(Frames(opens), Value(text))
      && sax.root == Plug(Frames(opens), Value(text))
    }

    method ReadScalar() returns (outcome: Outcome)
      requires Due() && lastToken != BeginArray && lastToken != BeginObject
      modifies this`text, sax
      ensures outcome != ValueDue
      ensures outcome == Failed ==> sax.errored && Before(tokens, opens, pos - 1) == None
      ensures outcome == ValueComplete ==> Complete() && sax.errored == old(sax.errored)
      ensures outcome == ValueComplete ==> Before(tokens, opens, pos - 1) == After(tokens, opens, text, pos)
    {
      var value := ScalarValue(lastToken);
      if value.None? {
        var _ := sax.Fail();
        return Failed;
      }
      text := Scalar(lastToken);
      var _ := sax.HandleValue(value.value);
      outcome := ValueComplete;
    }

    /** Closes an array that was just opened: it is the value that is complete. */
    method CloseEmptyArray()
      requires Stacked() && !sax.due && pos <= |tokens| && sax.frames == Frames(opens) + [ArrayFrame([])]
      modifies this`text, sax`refStack, sax`frames
      ensures Complete() && text == ArrayText([])
    {
      hide Plug, DomBuilder.Valid, Frames, States, AllValid, Received, Content, Value, WellFormed;
      EmptyContainers();
      LastFrame(Frames(opens), ArrayFrame([]));
      sax.EndArray();
      text := ArrayText([]);
    }

    method CloseEmptyObject()
      requires Stacked() && !sax.due && pos <= |tokens| && sax.frames == Frames(opens) + [ObjectFrame(map[], "")]
      modifies this`text, sax`refStack, sax`frames
      ensures Complete() && text == ObjectText([])
    {
      hide Plug, DomBuilder.Valid, Frames, States, AllValid, Received, Content, Value, WellFormed;
      EmptyContainers();
      LastFrame(Frames(opens), ObjectFrame(map[], ""));
      sax.EndObject();
      text := ObjectText([]);
    }

    method ReadArray() returns (outcome: Outcome)
      requires Due() && lastToken == BeginArray
      modifies this, sax
      ensures sax.errored == old(sax.errored) && old(pos) < pos && outcome != Failed
      ensures outcome == ValueDue ==> Due() && Before(tokens, old(opens), old(pos) - 1) == Before(tokens, opens, pos - 1)
      ensures outcome == ValueComplete ==> Complete()
      ensures outcome == ValueComplete ==> Before(tokens, old(opens), old(pos) - 1) == After(tokens, opens, text, pos)
    {
      hide Before, After, Plug, Received, DomBuilder.Valid, Value, WellFormed, Frames, States, AllValid, Open.ToFrame, Front, Top;
      OpeningArray(tokens, opens, pos - 1);
      EmptyContainers();
      OneMoreOpen(opens, OpenArray([]));
      ghost var inside := opens + [OpenArray([])];
      sax.StartArray();
      var token := GetToken();
      if token == EndArray {
        CloseEmptyArray();
        return ValueComplete;
      }
      states := states + [true];
      opens := inside;
      outcome := ValueDue;
    }

    /** A key, the separator, and the first token of the value. */
    method ReadMember(ghost done: seq<Member>, ghost stale: string) returns (ok: bool, ghost key: string)
      requires AllValid(opens) && sax.Valid() && !sax.due && OpenObject(done, stale).Valid()
      requires sax.frames == Frames(opens) + [ObjectFrame(MemberValues(done), stale)]
      requires 1 <= pos <= |tokens| + 1 && lastToken == TokenAt(tokens, pos - 1)
      modifies this`pos, this`lastToken, this`opens, sax
      ensures !ok ==> sax.errored && BeforeMember(tokens, old(opens), done, old(pos) - 1) == None
      ensures ok ==> opens == old(opens) + [OpenObject(done, key)] && AllValid(opens)
      ensures ok ==> States(opens) == States(old(opens)) + [false]
      ensures ok ==> sax.Valid() && sax.due && sax.frames == Frames(opens)
      ensures ok ==> old(pos) < pos <= |tokens| + 1 && lastToken == TokenAt(tokens, pos - 1)
      ensures ok ==> BeforeMember(tokens, old(opens), done, old(pos) - 1) == Before(tokens, opens, pos - 1)
      ensures ok ==> sax.errored == old(sax.errored)
    {
      hide Before, BeforeMember, Plug, Received, DomBuilder.Valid, WellFormed, MemberValues, Frames, States, AllValid;
      key := "";
      MemberIsDue(tokens, opens, done, pos - 1);
      if !lastToken.ValueString? {
        ok := sax.Fail();
        return;
      }
      key := lastToken.s;
      ghost var open := OpenObject(done, key);
      sax.AddKey(lastToken.s);
      var token := GetToken();
      if token != NameSeparator {
        ok := sax.Fail();
        return;
      }
      OneMoreOpen(opens, open);
      opens := opens + [open];
      token := GetToken();
      ok := true;
    }

    /** The first member of an object that was opened. */
    method ReadFirstMember() returns (outcome: Outcome)
      requires Stacked() && !sax.due && sax.frames == Frames(opens) + [ObjectFrame(map[], "")]
      requires 1 <= pos <= |tokens| + 1 && lastToken == TokenAt(tokens, pos - 1)
      modifies this, sax
      ensures outcome == Failed ==> sax.errored && BeforeMember(tokens, old(opens), [], old(pos) - 1) == None
      ensures outcome != Failed ==> outcome == ValueDue && Due() && sax.errored == old(sax.errored) && old(pos) < pos
      ensures outcome != Failed ==> BeforeMember(tokens, old(opens), [], old(pos) - 1) == Before(tokens, opens, pos - 1)
    {
      hide Before, BeforeMember, Plug, Received, DomBuilder.Valid, Value, Frames, States, AllValid, Front, Top;
      var ok, key := ReadMember([], "");
      if !ok {
        return Failed;
      }
      states := states + [false];
      outcome := ValueDue;
    }

    method ReadObject() returns (outcome: Outcome)
      requires Due() && lastToken == BeginObject
      modifies this, sax
      ensures outcome == Failed ==> sax.errored && Before(tokens, old(opens), old(pos) - 1) == None
      ensures outcome != Failed ==> sax.errored == old(sax.errored) && old(pos) < pos
      ensures outcome == ValueDue ==> Due() && Before(tokens, old(opens), old(pos) - 1) == Before(tokens, opens, pos - 1)
      ensures outcome == ValueComplete ==> Complete()
      ensures outcome == ValueComplete ==> Before(tokens, old(opens), old(pos) - 1) == After(tokens, opens, text, pos)
    {
      hide Before, BeforeMember, After, Plug, Received, DomBuilder.Valid, Value, WellFormed, Frames, States, AllValid,
           Open.ToFrame, Front, Top, MemberValues;
      OpeningObject(tokens, opens, pos - 1);
      EmptyContainers();
      OneMoreOpen(opens, OpenObject([], ""));
      sax.StartObject();
      var token := GetToken();
      if token == EndObject {
        CloseEmptyObject();
        return ValueComplete;
      }
      outcome := ReadFirstMember();
    }

    /** The part of the loop that reads the value whose first token was read. */
    method ReadValue() returns (outcome: Outcome)
      requires Due()
      modifies this, sax
      ensures outcome == Failed ==> sax.errored && Before(tokens, old(opens), old(pos) - 1) == None
      ensures outcome != Failed ==> sax.errored == old(sax.errored)
      ensures outcome == ValueDue ==> Due() && old(pos) < pos
      ensures outcome == ValueDue ==> Before(tokens, old(opens), old(pos) - 1) == Before(tokens, opens, pos - 1)
      ensures outcome == ValueComplete ==> Complete() && old(pos) <= pos
      ensures outcome == ValueComplete ==> Before(tokens, old(opens), old(pos) - 1) == After(tokens, opens, text, pos)
    {
      hide Before, After;
      if lastToken == BeginArray {
        outcome := ReadArray();
      } else if lastToken == BeginObject {
        outcome := ReadObject();
      } else {
        outcome := ReadScalar();
      }
    }

    /** Closes an array: it is the value that is complete. */
    method CloseArray(ghost outer: seq<Open>, ghost all: seq<Text>)
      requires sax.Valid() && !sax.due && pos <= |tokens|
      requires AllValid(outer + [OpenArray(all)]) && AllValid(outer) && OpenArray(all).Valid() && WellFormed(ArrayText(all))
      requires sax.frames == Frames(outer + [OpenArray(all)]) && states == States(outer + [OpenArray(all)])
      modifies this`states, this`opens, this`text, sax`refStack, sax`frames
      ensures Complete() && opens == outer && text == ArrayText(all)
    {
      hide Plug, DomBuilder.Valid, WellFormed, Frames, States, AllValid, Front, Top, Received, Open.Valid, Content;
      OneMoreOpen(outer, OpenArray(all));
      sax.EndArray();
      states := states[..|states| - 1];
      opens := outer;
      text := ArrayText(all);
    }

    /** Closes an object: it is the value that is complete. */
    method CloseObject(ghost outer: seq<Open>, ghost all: seq<Member>, ghost key: string)
      requires sax.Valid() && !sax.due && pos <= |tokens|
      requires AllValid(outer + [OpenObject(all, key)]) && AllValid(outer) && OpenObject(all, key).Valid()
      requires WellFormed(ObjectText(all))
      requires sax.frames == Frames(outer + [OpenObject(all, key)]) && states == States(outer + [OpenObject(all, key)])
      modifies this`states, this`opens, this`text, sax`refStack, sax`frames
      ensures Complete() && opens == outer && text == ObjectText(all)
    {
      hide Plug, DomBuilder.Valid, WellFormed, Frames, States, AllValid, Front, Top, Received, Open.Valid, Content;
      OneMoreOpen(outer, OpenObject(all, key));
      sax.EndObject();
      states := states[..|states| - 1];
      opens := outer;
      text := ObjectText(all);
    }

    /** The part of the loop behind a complete value inside an array. */
    method NextElement() returns (outcome: Outcome)
      requires Complete() && opens != [] && opens[|opens| - 1].OpenArray?
      modifies this, sax
      ensures outcome == Failed ==> sax.errored && After(tokens, old(opens), old(text), old(pos)) == None
      ensures outcome != Failed ==> sax.errored == old(sax.errored) && old(pos) < pos
      ensures outcome == ValueDue ==> Due() && After(tokens, old(opens), old(text), old(pos)) == Before(tokens, opens, pos - 1)
      ensures outcome == ValueComplete ==> Complete()
      ensures outcome == ValueComplete ==> After(tokens, old(opens), old(text), old(pos)) == After(tokens, opens, text, pos)
    {
      hide Before, After, Plug, DomBuilder.Valid, Value, WellFormed, Frames, States, AllValid, Open.ToFrame, Front, Top,
           Received, Values, Open.Valid, Filled, Content;
      ghost var outer, all := opens[..|opens| - 1], opens[|opens| - 1].elements + [text];
      EndingElement(tokens, opens, text, pos);
      ElementReceived(opens, text);
      OneMoreOpen(outer, OpenArray(all));
      var token := GetToken();
      if token == ValueSeparator {
        opens := outer + [OpenArray(all)];
        token := GetToken();
        return ValueDue;
      }
      if token != EndArray {
        var _ := sax.Fail();
        return Failed;
      }
      CloseArray(outer, all);
      outcome := ValueComplete;
    }

    /** A member behind a separator. */
    method ReadNextMember(ghost outer: seq<Open>, ghost done: seq<Member>, ghost stale: string) returns (outcome: Outcome)
      requires AllValid(outer) && OpenObject(done, stale).Valid() && states == States(outer) + [false] && pos <= |tokens|
      requires sax.Valid() && !sax.due && sax.frames == Frames(outer) + [ObjectFrame(MemberValues(done), stale)]
      modifies this`pos, this`lastToken, this`opens, sax
      ensures outcome == Failed ==> sax.errored && BeforeMember(tokens, outer, done, old(pos)) == None
      ensures outcome != Failed ==> outcome == ValueDue && Due() && sax.errored == old(sax.errored) && old(pos) < pos
      ensures outcome != Failed ==> BeforeMember(tokens, outer, done, old(pos)) == Before(tokens, opens, pos - 1)
    {
      hide Before, BeforeMember, Plug, DomBuilder.Valid, Value, Frames, States, AllValid, Front, Top, MemberValues;
      opens := outer;
      var token := GetToken();
      var ok, key := ReadMember(done, stale);
      outcome := if ok then ValueDue else Failed;
    }

    /** The part of the loop behind a complete value inside an object. */
    method NextMember() returns (outcome: Outcome)
      requires Complete() && opens != [] && opens[|opens| - 1].OpenObject?
      modifies this, sax
      ensures outcome == Failed ==> sax.errored && After(tokens, old(opens), old(text), old(pos)) == None
      ensures outcome != Failed ==> sax.errored == old(sax.errored) && old(pos) < pos
      ensures outcome == ValueDue ==> Due() && After(tokens, old(opens), old(text), old(pos)) == Before(tokens, opens, pos - 1)
      ensures outcome == ValueComplete ==> Complete()
      ensures outcome == ValueComplete ==> After(tokens, old(opens), old(text), old(pos)) == After(tokens, opens, text, pos)
    {
      hide Before, BeforeMember, After, Plug, DomBuilder.Valid, Value, WellFormed, Frames, States, AllValid, Open.ToFrame,
           Front, Top, Received, MemberValues;
      ghost var outer, top := opens[..|opens| - 1], opens[|opens| - 1];
      ghost var all := top.members + [Member(top.key, text)];
      EndingMember(tokens, opens, text, pos);
      MemberReceived(opens, text);
      OneMoreOpen(outer, OpenObject(all, top.key));
      var token := GetToken();
      if token == ValueSeparator {
        outcome := ReadNextMember(outer, all, top.key);
        return;
      }
      if token != EndObject {
        var _ := sax.Fail();
        return Failed;
      }
      CloseObject(outer, all, top.key);
      outcome := ValueComplete;
    }

    /** The part of the loop behind a complete value inside a container. */
    method EvaluateState() returns (outcome: Outcome)
      requires Complete() && states != []
      modifies this, sax
      ensures outcome == Failed ==> sax.errored && After(tokens, old(opens), old(text), old(pos)) == None
      ensures outcome != Failed ==> sax.errored == old(sax.errored) && old(pos) < pos
      ensures outcome == ValueDue ==> Due() && After(tokens, old(opens), old(text), old(pos)) == Before(tokens, opens, pos - 1)
      ensures outcome == ValueComplete ==> Complete()
      ensures outcome == ValueComplete ==> After(tokens, old(opens), old(text), old(pos)) == After(tokens, opens, text, pos)
    {
      hide Before, After, Frames, Received, Plug, Value, DomBuilder.Valid;
      if states[|states| - 1] {
        outcome := NextElement();
      } else {
        outcome := NextMember();
      }
    }

    /** Parses one value. It is the one recursive descent finds, or neither finds one. */
    method SaxParseInternal() returns (ok: bool)
      requires Due() && opens == [] && pos == 1
      modifies this, sax
      ensures ok <==> ParseValue(tokens, 0).Some?
      ensures ok ==> sax.errored == old(sax.errored) && pos == ParseValue(tokens, 0).value.next
      ensures ok ==> sax.root == Value(ParseValue(tokens, 0).value.text)
      ensures !ok ==> sax.errored
    {
      hide Before, After, Frames, Received, Plug, ParseValue, AllValid, WellFormed, Value, DomBuilder.Valid;
      AtTheTop(tokens);
      var skipToStateEvaluation := false;
      while true
        invariant sax.errored == old(sax.errored)
        invariant if skipToStateEvaluation then Complete() else Due()
        invariant !skipToStateEvaluation ==> Before(tokens, [], 0) == Before(tokens, opens, pos - 1)
        invariant skipToStateEvaluation ==> Before(tokens, [], 0) == After(tokens, opens, text, pos)
        decreases |tokens| + 1 - pos, !skipToStateEvaluation
      {
        if !skipToStateEvaluation {
          var read := ReadValue();
          if read == Failed {
            return false;
          }
          if read == ValueDue {
            continue;
          }
        } else {
          skipToStateEvaluation := false;
        }
        assert states == States(opens);
        if states == [] {
          NothingOpen(tokens, opens, text, pos);
          return true;
        }
        var outcome := EvaluateState();
        if outcome == Failed {
          return false;
        }
        skipToStateEvaluation := outcome == ValueComplete;
      }
    }
  }

  lemma AtTheTop(ts: seq<Token>)
    ensures Before(ts, [], 0) == ParseValue(ts, 0)
  {
  }

  lemma NothingOpen(ts: seq<Token>, opens: seq<Open>, t: Text, i: nat)
    requires AllValid(opens) && States(opens) == [] && WellFormed(t) && i <= |ts|
    ensures opens == [] && After(ts, opens, t, i) == Some(Parsed(t, i))
    ensures Plug(Frames(opens), Value(t)) == Value(t)
  {
  }

  lemma ValuesSnoc(elements: seq<Text>, t: Text)
    requires OpenArray(elements).Valid() && WellFormed(t)
    ensures OpenArray(elements + [t]).Valid() && WellFormed(ArrayText(elements + [t]))
    ensures Values(elements + [t]) == Values(elements) + [Value(t)]
    ensures Value(ArrayText(elements + [t])) == Array(Values(elements + [t]))
  {
    assert (elements + [t])[..|elements|] == elements;
  }

  lemma OuterContainers(opens: seq<Open>)
    requires AllValid(opens) && opens != []
    ensures var outer, top := opens[..|opens| - 1], opens[|opens| - 1];
            && AllValid(outer) && top.Valid() && Frames(opens) == Frames(outer) + [top.ToFrame()]
            && States(outer) == States(opens)[..|opens| - 1] && States(opens) == States(outer) + [top.OpenArray?]
            && forall v :: Received(Frames(opens), v) == Frames(outer) + [Filled(top.ToFrame(), v)]
  {
    hide Open.ToFrame;
    assert Front(Frames(opens)) == Frames(opens[..|opens| - 1]);
  }

  lemma ElementReceived(opens: seq<Open>, t: Text)
    requires AllValid(opens) && WellFormed(t) && opens != [] && opens[|opens| - 1].OpenArray?
    ensures var outer, all := opens[..|opens| - 1], opens[|opens| - 1].elements + [t];
            && AllValid(outer) && OpenArray(all).Valid() && WellFormed(ArrayText(all))
            && Received(Frames(opens), Value(t)) == Frames(outer) + [OpenArray(all).ToFrame()]
            && OpenArray(all).ToFrame().ArrayFrame?
            && Value(ArrayText(all)) == Array(OpenArray(all).ToFrame().elements)
            && States(outer) == States(opens)[..|opens| - 1]
            && States(opens) == States(outer) + [true]
  {
    hide Received, Frames, States, Value, Values, WellFormed, AllValid, Open.Valid;
    OuterContainers(opens);
    ValuesSnoc(opens[|opens| - 1].elements, t);
  }

  lemma MembersSnoc(members: seq<Member>, key: string, t: Text)
    requires OpenObject(members, key).Valid() && WellFormed(t)
    ensures var all := members + [Member(key, t)];
            && OpenObject(all, key).Valid() && WellFormed(ObjectText(all))
            && OpenObject(members, key).ToFrame() == ObjectFrame(MemberValues(members), key)
            && OpenObject(all, key).ToFrame() == ObjectFrame(MemberValues(all), key)
            && MemberValues(all) == MemberValues(members)[key := Value(t)]
            && Value(ObjectText(all)) == Object(MemberValues(all))
  {
    assert (members + [Member(key, t)])[..|members|] == members;
  }

  lemma MemberReceived(opens: seq<Open>, t: Text)
    requires AllValid(opens) && WellFormed(t) && opens != [] && opens[|opens| - 1].OpenObject?
    ensures var outer, top := opens[..|opens| - 1], opens[|opens| - 1];
            var all := top.members + [Member(top.key, t)];
            && AllValid(outer) && OpenObject(all, top.key).Valid() && WellFormed(ObjectText(all))
            && Received(Frames(opens), Value(t)) == Frames(outer) + [ObjectFrame(MemberValues(all), top.key)]
            && OpenObject(all, top.key).ToFrame() == ObjectFrame(MemberValues(all), top.key)
            && Value(ObjectText(all)) == Object(MemberValues(all))
            && States(outer) == States(opens)[..|opens| - 1]
            && States(opens) == States(outer) + [false]
  {
    hide Received, Frames, States, Value, MemberValues, WellFormed, AllValid, Open.Valid;
    OuterContainers(opens);
    MembersSnoc(opens[|opens| - 1].members, opens[|opens| - 1].key, t);
  }

  /** A member must start with a key and a separator. */
  lemma MemberIsDue(ts: seq<Token>, opens: seq<Open>, done: seq<Member>, i: nat)
    requires AllValid(opens) && i <= |ts| && OpenObject(done, "").Valid()
    ensures TokenAt(ts, i).ValueString? && TokenAt(ts, i + 1) == NameSeparator ==>
      var inside := opens + [OpenObject(done, TokenAt(ts, i).s)];
      i + 2 <= |ts| && AllValid(inside) && BeforeMember(ts, opens, done, i) == Before(ts, inside, i + 2)
    ensures !(TokenAt(ts, i).ValueString? && TokenAt(ts, i + 1) == NameSeparator) ==>
      BeforeMember(ts, opens, done, i) == None
  {
    ReadingMember(ts, opens, done, i);
  }

  /** The text a strict parser accepts: one value and then the end. */
  ghost predicate IsWholeText(ts: seq<Token>, t: Text, strict: bool) {
    ParseValue(ts, 0).Some? && ParseValue(ts, 0).value.text == t
    && (strict ==> TokenAt(ts, ParseValue(ts, 0).value.next) == EndOfInput)
  }

  /** parse(): the value of the text, or none where the source sets the result to "discarded". */
  method Parse(tokens: seq<Token>, strict: bool) returns (result: Option<Json>)
    ensures result.Some? <==> exists t :: IsWholeText(tokens, t, strict)
    ensures forall t :: IsWholeText(tokens, t, strict) ==> result == Some(Value(t))
  {
    var sax := new DomBuilder(Null);
    var parser := new Parser(tokens, sax);
    var ok := parser.SaxParseInternal();
    if ok {
      assert strict || IsWholeText(tokens, ParseValue(tokens, 0).value.text, strict);
    }
    if strict {
      var token := parser.GetToken();
      if token != EndOfInput {
        var _ := sax.Fail();
      } else if ok {
        assert IsWholeText(tokens, ParseValue(tokens, 0).value.text, strict);
      }
    }
    result := if sax.errored then None else Some(sax.root);
  }

  /** accept() */
  method Accept(tokens: seq<Token>, strict: bool) returns (ok: bool)
    ensures ok <==> exists t :: IsWholeText(tokens, t, strict)
  {
    var sax := new DomBuilder(Null);
    var parser := new Parser(tokens, sax);
    ok := parser.SaxParseInternal();
    if ok {
      assert strict || IsWholeText(tokens, ParseValue(tokens, 0).value.text, strict);
    }
    if ok && strict {
      var token := parser.GetToken();
      if token != EndOfInput {
        ok := sax.Fail();
      } else {
        assert IsWholeText(tokens, ParseValue(tokens, 0).value.text, strict);
      }
    }
  }

  /** A strict parser accepts exactly the token sequences of the grammar, a lenient one also those that go on. */
  lemma WholeTextIsGrammar(ts: seq<Token>, t: Text, strict: bool)
    ensures IsWholeText(ts, t, strict) <==>
      WellFormed(t) && exists n :: 0 <= n <= |ts| && Tokens(t) == ts[..n] && (strict ==> TokenAt(ts, n) == EndOfInput)
  {
    if IsWholeText(ts, t, strict) {
      var n := ParseValue(ts, 0).value.next;
      ParseIsGrammar(ts, 0, t, n);
      assert ts[0..n] == ts[..n];
    }
    if WellFormed(t) && exists n :: 0 <= n <= |ts| && Tokens(t) == ts[..n] && (strict ==> TokenAt(ts, n) == EndOfInput) {
      var n :| 0 <= n <= |ts| && Tokens(t) == ts[..n] && (strict ==> TokenAt(ts, n) == EndOfInput);
      assert ts[0..n] == ts[..n];
      ParseIsGrammar(ts, 0, t, n);
    }
  }
}
