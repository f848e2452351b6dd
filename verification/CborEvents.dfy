/** The events of every data item are well bracketed, and every container gets as many parts as it was announced with. */
module CborEvents {
  import opened Options
  import opened Cbor
  import opened CborConverse
  import opened CborDecoding

  /** An open container: how many parts are still to come, if that is known, and for an object whether a value is due. */
  datatype Open = InArray(left: Option<nat>) | InObject(left: Option<nat>, due: bool)

  function Counted(len: nat): Option<nat> {
    if len == UNKNOWN_SIZE then None else Some(len)
  }

  predicate IsUsedUp(left: Option<nat>) {
    left.None? || left.value == 0
  }

  function OneLess(left: Option<nat>): Option<nat> {
    if left.None? || left.value == 0 then None else Some(left.value - 1)
  }

  predicate TakesOne(left: Option<nat>) {
    left.None? || 0 < left.value
  }

  /** The open containers after a value, if a value may come. */
  function AfterValue(stack: seq<Open>): Option<seq<Open>> {
    if stack == [] then Some([])
    else
      var front, top := stack[..|stack| - 1], stack[|stack| - 1];
      match top
      case InArray(left) => if TakesOne(left) then Some(front + [InArray(OneLess(left))]) else None
      case InObject(left, due) => if due then Some(front + [InObject(left, false)]) else None
  }

  function AfterEvent(stack: seq<Open>, e: Event): Option<seq<Open>> {
    match e
    case StartArrayEvent(len) => if AfterValue(stack).Some? then Some(stack + [InArray(Counted(len))]) else None
    case StartObjectEvent(len) => if AfterValue(stack).Some? then Some(stack + [InObject(Counted(len), false)]) else None
    case KeyEvent(_) =>
      if stack == [] then None
      else
        var front, top := stack[..|stack| - 1], stack[|stack| - 1];
        if top.InObject? && !top.due && TakesOne(top.left) then Some(front + [InObject(OneLess(top.left), true)]) else None
    case EndArrayEvent =>
      if stack != [] && stack[|stack| - 1].InArray? && IsUsedUp(stack[|stack| - 1].left) then AfterValue(stack[..|stack| - 1])
      else None
    case EndObjectEvent =>
      if stack != [] && stack[|stack| - 1].InObject? && !stack[|stack| - 1].due && IsUsedUp(stack[|stack| - 1].left) then
        AfterValue(stack[..|stack| - 1])
      else None
    case _ => AfterValue(stack)
  }

  function AfterEvents(stack: seq<Open>, events: seq<Event>): Option<seq<Open>>
    decreases |events|
  {
    if events == [] then Some(stack)
    else
      var next := AfterEvent(stack, events[0]);
      if next.None? then None else AfterEvents(next.value, events[1..])
  }

  lemma {:induction false} AfterAppend(stack: seq<Open>, a: seq<Event>, b: seq<Event>)
    ensures AfterEvents(stack, a + b) ==
      if AfterEvents(stack, a).None? then None else AfterEvents(AfterEvents(stack, a).value, b)
    decreases |a|
  {
    if a == [] {
      assert a + b == b;
    } else {
      assert (a + b)[0] == a[0] && (a + b)[1..] == a[1..] + b;
      if AfterEvent(stack, a[0]).Some? {
        AfterAppend(AfterEvent(stack, a[0]).value, a[1..], b);
      }
    }
  }

  lemma AfterNone(stack: seq<Open>)
    ensures AfterEvents(stack, []) == Some(stack)
  {
  }

  lemma AfterBoth(stack: seq<Open>, a: seq<Event>, b: seq<Event>)
    requires AfterEvents(stack, a).Some?
    ensures AfterEvents(stack, a + b) == AfterEvents(AfterEvents(stack, a).value, b)
  {
    hide AfterEvents;
    AfterAppend(stack, a, b);
  }

  lemma AfterOne(stack: seq<Open>, e: Event)
    ensures AfterEvents(stack, [e]) == AfterEvent(stack, e)
  {
    assert [e][1..] == [];
  }

  // --- whatever is decoded is one value ---

  predicate IsScalarEvent(e: Event) {
    !e.StartArrayEvent? && !e.EndArrayEvent? && !e.StartObjectEvent? && !e.EndObjectEvent? && !e.KeyEvent?
  }

  /** A decoded item is a scalar, a container behind its head, or the item behind a tag. */
  lemma DecodedParts(input: seq<Byte>, i: nat, tags: TagHandler) returns (at: nat, len: nat)
    requires i <= |input| && DecodeAt(input, i, tags).Some?
    ensures i < at <= |input|
    ensures var r := DecodeAt(input, i, tags);
            || r == ArrayAt(input, at, len, tags)
            || r == ObjectAt(input, at, len, tags)
            || r == DecodeAt(input, at, tags)
            || (|r.value.events| == 1 && IsScalarEvent(r.value.events[0]))
  {
    hide StringAt, ArgumentAt, ArrayAt, ObjectAt;
    at, len := i + 1, UNKNOWN_SIZE;
    var a := ArgumentAt(input, i);
    if a.Some? && input[i] != 0x9F && input[i] != 0xBF {
      at, len := a.value.next, a.value.n;
    }
  }

  /** On any bytes, wherever a value may come: if decoding succeeds, the events are exactly one value. */
  lemma {:induction false} DecodedIsOneValue(stack: seq<Open>, input: seq<Byte>, i: nat, tags: TagHandler)
    requires i <= |input| && DecodeAt(input, i, tags).Some? && AfterValue(stack).Some?
    ensures AfterEvents(stack, DecodeAt(input, i, tags).value.events) == AfterValue(stack)
    decreases |input| - i, 3
  {
    hide DecodeAt, ArrayAt, ObjectAt, AfterValue;
    var r := DecodeAt(input, i, tags);
    var at, len := DecodedParts(input, i, tags);
    if r == ArrayAt(input, at, len, tags) {
      ArrayIsOneValue(stack, input, at, len, tags);
    } else if r == ObjectAt(input, at, len, tags) {
      ObjectIsOneValue(stack, input, at, len, tags);
    } else if r == DecodeAt(input, at, tags) {
      DecodedIsOneValue(stack, input, at, tags);
    } else {
      assert r.value.events == [r.value.events[0]];
      AfterOne(stack, r.value.events[0]);
    }
  }

  lemma {:induction false} ArrayIsOneValue(stack: seq<Open>, input: seq<Byte>, i: nat, len: nat, tags: TagHandler)
    requires i <= |input| && ArrayAt(input, i, len, tags).Some? && AfterValue(stack).Some?
    ensures AfterEvents(stack, ArrayAt(input, i, len, tags).value.events) == AfterValue(stack)
    decreases |input| - i, 6
  {
    hide ItemsAt, ItemsUntilBreak, AfterValue;
    var items := if len != UNKNOWN_SIZE then ItemsAt(input, i, len, tags) else ItemsUntilBreak(input, i, tags);
    if len != UNKNOWN_SIZE {
      ItemsUseUp(stack, input, i, len, tags);
    } else {
      OpenItemsGoOn(stack, input, i, tags);
    }
    AfterOne(stack, StartArrayEvent(len));
    AfterAppend(stack, [StartArrayEvent(len)], items.value.events + [EndArrayEvent]);
    AfterAppend(stack + [InArray(Counted(len))], items.value.events, [EndArrayEvent]);
    var final := stack + [InArray(if len == UNKNOWN_SIZE then None else Some(0))];
    AfterOne(final, EndArrayEvent);
    assert final[..|final| - 1] == stack;
  }

  /** The elements use up the announced length. */
  lemma {:induction false} ItemsUseUp(stack: seq<Open>, input: seq<Byte>, i: nat, len: nat, tags: TagHandler)
    requires i <= |input| && ItemsAt(input, i, len, tags).Some?
    ensures AfterEvents(stack + [InArray(Some(len))], ItemsAt(input, i, len, tags).value.events) == Some(stack + [InArray(Some(0))])
    decreases |input| - i, 5
  {
    hide DecodeAt, AfterEvents;
    AfterNone(stack + [InArray(Some(0))]);
    if 0 < len {
      var first := DecodeAt(input, i, tags).value;
      ItemUsesOne(stack, Some(len), input, i, tags);
      ItemsUseUp(stack, input, first.next, len - 1, tags);
      AfterBoth(stack + [InArray(Some(len))], first.events, ItemsAt(input, first.next, len - 1, tags).value.events);
    }
  }

  lemma {:induction false} OpenItemsGoOn(stack: seq<Open>, input: seq<Byte>, i: nat, tags: TagHandler)
    requires i <= |input| && ItemsUntilBreak(input, i, tags).Some?
    ensures AfterEvents(stack + [InArray(None)], ItemsUntilBreak(input, i, tags).value.events) == Some(stack + [InArray(None)])
    decreases |input| - i, 5
  {
    hide DecodeAt, AfterEvents;
    AfterNone(stack + [InArray(None)]);
    if input[i] != 0xFF {
      var first := DecodeAt(input, i, tags).value;
      ItemUsesOne(stack, None, input, i, tags);
      OpenItemsGoOn(stack, input, first.next, tags);
      AfterBoth(stack + [InArray(None)], first.events, ItemsUntilBreak(input, first.next, tags).value.events);
    }
  }

  lemma {:induction false} ItemUsesOne(stack: seq<Open>, left: Option<nat>, input: seq<Byte>, i: nat, tags: TagHandler)
    requires i <= |input| && DecodeAt(input, i, tags).Some? && TakesOne(left)
    ensures AfterEvents(stack + [InArray(left)], DecodeAt(input, i, tags).value.events) == Some(stack + [InArray(OneLess(left))])
    decreases |input| - i, 4
  {
    hide DecodeAt;
    var inside := stack + [InArray(left)];
    assert inside[..|inside| - 1] == stack;
    DecodedIsOneValue(inside, input, i, tags);
  }

  lemma {:induction false} ObjectIsOneValue(stack: seq<Open>, input: seq<Byte>, i: nat, len: nat, tags: TagHandler)
    requires i <= |input| && ObjectAt(input, i, len, tags).Some? && AfterValue(stack).Some?
    ensures AfterEvents(stack, ObjectAt(input, i, len, tags).value.events) == AfterValue(stack)
    decreases |input| - i, 6
  {
    hide EntriesAt, EntriesUntilBreak, AfterValue;
    var entries := if len != UNKNOWN_SIZE then EntriesAt(input, i, len, tags) else EntriesUntilBreak(input, i, tags);
    if len != UNKNOWN_SIZE {
      EntriesUseUp(stack, input, i, len, tags);
    } else {
      OpenEntriesGoOn(stack, input, i, tags);
    }
    AfterOne(stack, StartObjectEvent(len));
    AfterAppend(stack, [StartObjectEvent(len)], entries.value.events + [EndObjectEvent]);
    AfterAppend(stack + [InObject(Counted(len), false)], entries.value.events, [EndObjectEvent]);
    var final := stack + [InObject(if len == UNKNOWN_SIZE then None else Some(0), false)];
    AfterOne(final, EndObjectEvent);
    assert final[..|final| - 1] == stack;
  }

  lemma {:induction false} EntriesUseUp(stack: seq<Open>, input: seq<Byte>, i: nat, len: nat, tags: TagHandler)
    requires i <= |input| && EntriesAt(input, i, len, tags).Some?
    ensures AfterEvents(stack + [InObject(Some(len), false)], EntriesAt(input, i, len, tags).value.events)
      == Some(stack + [InObject(Some(0), false)])
    decreases |input| - i, 5
  {
    hide EntryAt, AfterEvents;
    AfterNone(stack + [InObject(Some(0), false)]);
    if 0 < len {
      var first := EntryAt(input, i, tags).value;
      EntryUsesOne(stack, Some(len), input, i, tags);
      EntriesUseUp(stack, input, first.next, len - 1, tags);
      AfterBoth(stack + [InObject(Some(len), false)], first.events, EntriesAt(input, first.next, len - 1, tags).value.events);
    }
  }

  lemma {:induction false} OpenEntriesGoOn(stack: seq<Open>, input: seq<Byte>, i: nat, tags: TagHandler)
    requires i <= |input| && EntriesUntilBreak(input, i, tags).Some?
    ensures AfterEvents(stack + [InObject(None, false)], EntriesUntilBreak(input, i, tags).value.events)
      == Some(stack + [InObject(None, false)])
    decreases |input| - i, 5
  {
    hide EntryAt, AfterEvents;
    AfterNone(stack + [InObject(None, false)]);
    if input[i] != 0xFF {
      var first := EntryAt(input, i, tags).value;
      EntryUsesOne(stack, None, input, i, tags);
      OpenEntriesGoOn(stack, input, first.next, tags);
      AfterBoth(stack + [InObject(None, false)], first.events, EntriesUntilBreak(input, first.next, tags).value.events);
    }
  }

  lemma {:induction false} EntryUsesOne(stack: seq<Open>, left: Option<nat>, input: seq<Byte>, i: nat, tags: TagHandler)
    requires i <= |input| && EntryAt(input, i, tags).Some? && TakesOne(left)
    ensures AfterEvents(stack + [InObject(left, false)], EntryAt(input, i, tags).value.events)
      == Some(stack + [InObject(OneLess(left), false)])
    decreases |input| - i, 4
  {
    hide DecodeAt, StringAt;
    var key := StringAt(input, i, 0x60).value;
    var before, due := stack + [InObject(left, false)], stack + [InObject(OneLess(left), true)];
    assert before[..|before| - 1] == stack && due[..|due| - 1] == stack;
    AfterOne(before, KeyEvent(key.bytes));
    AfterAppend(before, [KeyEvent(key.bytes)], DecodeAt(input, key.next, tags).value.events);
    DecodedIsOneValue(due, input, key.next, tags);
  }

  // --- decoding ---

  /** An encoding followed by any bytes decodes to well-bracketed events, one value, and exactly it is consumed. */
  lemma AnyEncodingIsDecoded(item: Item, rest: seq<Byte>, tags: TagHandler)
    requires Accepts(item, tags)
    ensures DecodeAt(Encode(item, tags) + rest, 0, tags) == Some(Decoded(Events(item, tags), |Encode(item, tags)|))
    ensures AfterEvents([], Events(item, tags)) == Some([])
  {
    hide DecodeAt, Encode, Events, Accepts;
    DecodedFromTheStart(item, rest, tags);
    DecodedIsOneValue([], Encode(item, tags) + rest, 0, tags);
  }
}
