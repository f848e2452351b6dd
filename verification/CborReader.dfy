/** The CBOR part of the binary reader: recursive methods that advance through the input and emit events. */
module CborReading {
  import opened Options
  import opened Cbor
  import opened CborDecoding

  const EOF := -1

  class BinaryReader {
    const input: seq<Byte>
    var pos: nat
    var current: int
    /** What was passed to the SAX handler. */
    var events: seq<Event>

    ghost predicate Valid()
      reads this
    {
      pos <= |input|
    }

    /** The byte at position i was read last, or the end was met there. */
    ghost predicate CurrentAt(i: nat)
      reads this
    {
      if i < |input| then pos == i + 1 && current == input[i] else pos == |input| == i && current == EOF
    }

    /** The events of a decoded part were appended, and it was consumed; or it could not be decoded. */
    ghost predicate Outcome(part: Option<Decoded>, before: seq<Event>, ok: bool)
      reads this
    {
      (ok <==> part.Some?) && (ok ==> events == before + part.value.events && pos == part.value.next)
    }

    /** The events so far and those of the rest are those of the whole; or neither can be decoded. */
    ghost predicate Continues(whole: Option<Decoded>, before: seq<Event>, rest: Option<Decoded>)
      reads this`events
    {
      && (whole.Some? <==> rest.Some?)
      && (whole.Some? ==> before + whole.value.events == events + rest.value.events && whole.value.next == rest.value.next)
    }

    constructor (input: seq<Byte>)
      ensures Valid() && this.input == input && pos == 0 && events == []
    {
      this.input := input;
      pos := 0;
      current := EOF;
      events := [];
    }

    method Get() returns (c: int)
      requires Valid()
      modifies this`pos, this`current
      ensures Valid() && c == current && CurrentAt(old(pos))
    {
      if pos < |input| {
        current := input[pos];
        pos := pos + 1;
      } else {
        current := EOF;
      }
      c := current;
    }

    /** An unsigned number of some bytes in network byte order; a short input is used up. */
    method GetNumber(bytes: nat) returns (ok: bool, n: nat)
      requires Valid()
      modifies this`pos
      ensures Valid()
      ensures ok <==> old(pos) + bytes <= |input|
      ensures ok ==> pos == old(pos) + bytes && n == FromBytes(input[old(pos)..pos])
    {
      if |input| - pos < bytes {
        pos := |input|;
        return false, 0;
      }
      n := FromBytes(input[pos..pos + bytes]);
      pos := pos + bytes;
      ok := true;
    }

    /** The argument of the head whose initial byte was read last. */
    method GetArgument(ghost i: nat) returns (ok: bool, n: nat)
      requires Valid() && i < |input| && CurrentAt(i)
      modifies this`pos
      ensures Valid()
      ensures ok <==> ArgumentAt(input, i).Some?
      ensures ok ==> ArgumentAt(input, i) == Some(Argument(n, pos))
    {
      var bytes := ArgumentBytes(current);
      if bytes.None? {
        return false, 0;
      }
      if bytes.value == 0 {
        return true, current % 0x20;
      }
      ok, n := GetNumber(bytes.value);
    }

    /** get_string() and get_binary(): a number of bytes. */
    method GetBytes(len: nat) returns (ok: bool, result: seq<Byte>)
      requires Valid()
      modifies this`pos, this`current
      ensures Valid()
      ensures ok <==> old(pos) + len <= |input|
      ensures ok ==> pos == old(pos) + len && result == input[old(pos)..pos]
    {
      result := [];
      for k := 0 to len
        invariant Valid() && pos == old(pos) + k && result == input[old(pos)..pos]
      {
        var c := Get();
        if c == EOF {
          return false, [];
        }
        result := result + [c];
      }
      ok := true;
    }

    /** get_cbor_string() for base 0x60 and get_cbor_binary() for base 0x40; the initial byte was read last. */
    method GetCborString(base: nat, ghost i: nat) returns (ok: bool, result: seq<Byte>)
      requires Valid() && i <= |input| && CurrentAt(i)
      modifies this`pos, this`current
      ensures Valid()
      ensures ok <==> StringAt(input, i, base).Some?
      ensures ok ==> StringAt(input, i, base) == Some(Data(result, pos))
      decreases |input| - i, 1
    {
      result := [];
      if current == EOF {
        return false, [];
      }
      if base <= current <= base + 0x1B {
        var n;
        ok, n := GetArgument(i);
        if ok {
          ok, result := GetBytes(n);
        }
        return;
      }
      if current != base + 0x1F {
        return false, [];
      }
      ok, result := GetChunks(base);
    }

    /** The chunks of a string of unknown length. */
    method GetChunks(base: nat) returns (ok: bool, result: seq<Byte>)
      requires Valid()
      modifies this`pos, this`current
      ensures Valid()
      ensures ok <==> ChunksAt(input, old(pos), base).Some?
      ensures ok ==> ChunksAt(input, old(pos), base) == Some(Data(result, pos))
      decreases |input| - pos, 2
    {
      result := [];
      ghost var start, at := pos, pos;
      ghost var whole := ChunksAt(input, start, base);
      assert whole.Some? ==> [] + whole.value.bytes == whole.value.bytes;
      var c := Get();
      while c != 0xFF
        invariant Valid() && start <= at <= |input| && CurrentAt(at) && c == current
        invariant var rest := ChunksAt(input, at, base);
                  ChunksAt(input, start, base) ==
                    if rest.None? then None else Some(Data(result + rest.value.bytes, rest.value.next))
        decreases |input| - at
      {
        var chunk;
        ok, chunk := GetCborString(base, at);
        if !ok {
          return false, [];
        }
        ghost var rest := ChunksAt(input, pos, base);
        assert rest.Some? ==> result + (chunk + rest.value.bytes) == (result + chunk) + rest.value.bytes;
        result := result + chunk;
        at := pos;
        c := Get();
      }
      assert result + [] == result;
      ok := true;
    }

    method Emit(e: Event)
      modifies this`events
      ensures events == old(events) + [e]
    {
      events := events + [e];
    }

    /** parse_cbor_internal(): the item whose initial byte is still to be read, or was read last. */
    method ParseCborInternal(getChar: bool, tags: TagHandler, ghost i: nat) returns (ok: bool)
      requires Valid() && i <= |input| && if getChar then pos == i else CurrentAt(i)
      modifies this
      ensures Valid()
      ensures Outcome(DecodeAt(input, i, tags), old(events), ok)
      decreases |input| - i, 0
    {
      hide DecodeAt;
      if getChar {
        var _ := Get();
      }
      NothingAtTheEnd(input, tags);
      if current == EOF {
        return false;
      }
      if current <= 0x3B {
        ok := ParseInteger(tags, i);
      } else if current <= 0x7F {
        ok := ParseString(tags, i);
      } else if current <= 0xBF {
        ok := ParseContainer(tags, i);
      } else if IsTag(current) {
        ok := ParseTagged(tags, i);
      } else {
        ok := ParseSimple(tags, i);
      }
    }

    /** The cases 0x00 to 0x1B and 0x20 to 0x3B, and the errors between them. */
    method ParseInteger(tags: TagHandler, ghost i: nat) returns (ok: bool)
      requires Valid() && i < |input| && CurrentAt(i) && input[i] <= 0x3B
      modifies this
      ensures Valid()
      ensures Outcome(DecodeAt(input, i, tags), old(events), ok)
    {
      hide ArgumentAt;
      if 0x1B < current < 0x20 {
        return false;
      }
      var first := current;
      var n;
      ok, n := GetArgument(i);
      if ok {
        Emit(if first <= 0x1B then UnsignedEvent(n) else IntegerEvent(NegativeOf(n)));
      }
    }

    /** The cases 0x40 to 0x5B, 0x5F, 0x60 to 0x7B and 0x7F, and the errors between them. */
    method ParseString(tags: TagHandler, ghost i: nat) returns (ok: bool)
      requires Valid() && i < |input| && CurrentAt(i) && 0x3B < input[i] <= 0x7F
      modifies this
      ensures Valid()
      ensures Outcome(DecodeAt(input, i, tags), old(events), ok)
    {
      hide StringAt;
      var data;
      if 0x40 <= current <= 0x5B || current == 0x5F {
        ok, data := GetCborString(0x40, i);
        if ok {
          Emit(BinaryEvent(data, None));
        }
      } else if 0x60 <= current <= 0x7B || current == 0x7F {
        ok, data := GetCborString(0x60, i);
        if ok {
          Emit(StringEvent(data));
        }
      } else {
        ok := false;
      }
    }

    /** The cases 0x80 to 0x9B, 0x9F, 0xA0 to 0xBB and 0xBF, and the errors between them. */
    method ParseContainer(tags: TagHandler, ghost i: nat) returns (ok: bool)
      requires Valid() && i < |input| && CurrentAt(i) && 0x7F < input[i] <= 0xBF
      modifies this
      ensures Valid()
      ensures Outcome(DecodeAt(input, i, tags), old(events), ok)
      decreases |input| - i - 1, 3
    {
      hide ArgumentAt, ArrayAt, ObjectAt;
      var isArray, n := current <= 0x9F, UNKNOWN_SIZE;
      if current != 0x9F && current != 0xBF {
        if 0x9B < current < 0xA0 || 0xBB < current {
          return false;
        }
        ok, n := GetArgument(i);
        if !ok {
          return;
        }
      }
      if isArray {
        ok := GetCborArray(n, tags);
      } else {
        ok := GetCborObject(n, tags);
      }
    }

    /** The cases 0xF4, 0xF5, 0xF6, and 0xF9 to 0xFB, and the errors around them. */
    method ParseSimple(tags: TagHandler, ghost i: nat) returns (ok: bool)
      requires Valid() && i < |input| && CurrentAt(i) && 0xBF < input[i] && !IsTag(input[i])
      modifies this
      ensures Valid()
      ensures Outcome(DecodeAt(input, i, tags), old(events), ok)
    {
      hide FromBytes;
      ok := true;
      if current == 0xF4 || current == 0xF5 {
        Emit(BooleanEvent(current == 0xF5));
      } else if current == 0xF6 {
        Emit(NullEvent);
      } else if 0xF9 <= current <= 0xFB {
        var bytes := if current == 0xF9 then 2 else if current == 0xFA then 4 else 8;
        var n;
        ok, n := GetArgument(i);
        if ok {
          Emit(FloatEvent(n, bytes));
        }
      } else {
        ok := false;
      }
    }

    /** A tag: an error, ignored, or stored with the binary value behind it. */
    method ParseTagged(tags: TagHandler, ghost i: nat) returns (ok: bool)
      requires Valid() && i < |input| && CurrentAt(i) && IsTag(input[i])
      modifies this
      ensures Valid()
      ensures Outcome(DecodeAt(input, i, tags), old(events), ok)
      decreases |input| - i - 1, 3
    {
      if tags == Error {
        return false;
      }
      var subtype;
      var tag := current;
      ok, subtype := GetArgument(i);
      if !ok {
        return;
      }
      TagHead(input, i, tags);
      if tags == Store && 0xD8 <= tag {
        ghost var at := pos;
        var _ := Get();
        var data;
        ok, data := GetCborString(0x40, at);
        if ok {
          Emit(BinaryEvent(data, Some(subtype)));
        }
      } else {
        ok := ParseCborInternal(true, tags, pos);
      }
    }

    /** get_cbor_array() */
    method GetCborArray(len: nat, tags: TagHandler) returns (ok: bool)
      requires Valid()
      modifies this
      ensures Valid()
      ensures Outcome(ArrayAt(input, old(pos), len, tags), old(events), ok)
      decreases |input| - pos, 2
    {
      Emit(StartArrayEvent(len));
      if len != UNKNOWN_SIZE {
        ok := GetItems(len, tags);
      } else {
        ok := GetItemsUntilBreak(tags);
      }
      if ok {
        Emit(EndArrayEvent);
      }
    }

    method GetItems(len: nat, tags: TagHandler) returns (ok: bool)
      requires Valid()
      modifies this
      ensures Valid()
      ensures Outcome(ItemsAt(input, old(pos), len, tags), old(events), ok)
      decreases |input| - pos, 1
    {
      for k := 0 to len
        invariant Valid() && old(pos) <= pos
        invariant Continues(ItemsAt(input, old(pos), len, tags), old(events), ItemsAt(input, pos, len - k, tags))
      {
        ghost var at, before := pos, events;
        ok := ParseCborInternal(true, tags, pos);
        if !ok {
          return;
        }
        NextPart(before, DecodeAt(input, at, tags).value.events, ItemsAt(input, pos, len - k - 1, tags));
      }
      ok := true;
    }

    method GetItemsUntilBreak(tags: TagHandler) returns (ok: bool)
      requires Valid()
      modifies this
      ensures Valid()
      ensures Outcome(ItemsUntilBreak(input, old(pos), tags), old(events), ok)
      decreases |input| - pos, 1
    {
      ghost var at := pos;
      var c := Get();
      while c != 0xFF
        invariant Valid() && old(pos) <= at <= |input| && CurrentAt(at) && c == current
        invariant Continues(ItemsUntilBreak(input, old(pos), tags), old(events), ItemsUntilBreak(input, at, tags))
        decreases |input| - at
      {
        ghost var before, first := events, DecodeAt(input, at, tags);
        ok := ParseCborInternal(false, tags, at);
        if !ok {
          return;
        }
        NextPart(before, first.value.events, ItemsUntilBreak(input, pos, tags));
        at := pos;
        c := Get();
      }
      ok := true;
    }

    /** get_cbor_object() */
    method GetCborObject(len: nat, tags: TagHandler) returns (ok: bool)
      requires Valid()
      modifies this
      ensures Valid()
      ensures Outcome(ObjectAt(input, old(pos), len, tags), old(events), ok)
      decreases |input| - pos, 2
    {
      Emit(StartObjectEvent(len));
      ok := true;
      if len != 0 {
        if len != UNKNOWN_SIZE {
          ok := GetEntries(len, tags);
        } else {
          ok := GetEntriesUntilBreak(tags);
        }
      }
      if ok {
        Emit(EndObjectEvent);
      }
    }

    /** A key whose initial byte was read last, and its value. */
    method GetEntry(tags: TagHandler, ghost i: nat) returns (ok: bool)
      requires Valid() && i <= |input| && CurrentAt(i)
      modifies this
      ensures Valid()
      ensures Outcome(EntryAt(input, i, tags), old(events), ok)
      decreases |input| - i, 0
    {
      var key;
      ok, key := GetCborString(0x60, i);
      if ok {
        Emit(KeyEvent(key));
        ok := ParseCborInternal(true, tags, pos);
      }
    }

    method GetEntries(len: nat, tags: TagHandler) returns (ok: bool)
      requires Valid()
      modifies this
      ensures Valid()
      ensures Outcome(EntriesAt(input, old(pos), len, tags), old(events), ok)
      decreases |input| - pos, 1
    {
      for k := 0 to len
        invariant Valid() && old(pos) <= pos
        invariant Continues(EntriesAt(input, old(pos), len, tags), old(events), EntriesAt(input, pos, len - k, tags))
      {
        ghost var at, before := pos, events;
        var _ := Get();
        ok := GetEntry(tags, at);
        if !ok {
          return;
        }
        NextPart(before, EntryAt(input, at, tags).value.events, EntriesAt(input, pos, len - k - 1, tags));
      }
      ok := true;
    }

    method GetEntriesUntilBreak(tags: TagHandler) returns (ok: bool)
      requires Valid()
      modifies this
      ensures Valid()
      ensures Outcome(EntriesUntilBreak(input, old(pos), tags), old(events), ok)
      decreases |input| - pos, 1
    {
      ghost var at := pos;
      var c := Get();
      while c != 0xFF
        invariant Valid() && old(pos) <= at <= |input| && CurrentAt(at) && c == current
        invariant Continues(EntriesUntilBreak(input, old(pos), tags), old(events), EntriesUntilBreak(input, at, tags))
        decreases |input| - at
      {
        ghost var before, first := events, EntryAt(input, at, tags);
        ok := GetEntry(tags, at);
        if !ok {
          return;
        }
        NextPart(before, first.value.events, EntriesUntilBreak(input, pos, tags));
        at := pos;
        c := Get();
      }
      ok := true;
    }
  }

  lemma NothingAtTheEnd(input: seq<Byte>, tags: TagHandler)
    ensures DecodeAt(input, |input|, tags) == None
  {
  }

  lemma NextPart(before: seq<Event>, first: seq<Event>, rest: Option<Decoded>)
    ensures rest.Some? ==> before + (first + rest.value.events) == (before + first) + rest.value.events
  {
  }
}
