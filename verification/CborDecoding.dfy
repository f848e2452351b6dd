/** What bytes decode to, as a function, and the theorem that every encoding decodes to its item. */
module CborDecoding {
  import opened Options
  import opened Cbor

  datatype Argument = Argument(n: nat, next: nat)
  datatype Data = Data(bytes: seq<Byte>, next: nat)
  datatype Decoded = Decoded(events: seq<Event>, next: nat)

  /** How many bytes follow the initial byte to give the argument. */
  function ArgumentBytes(b: Byte): Option<nat> {
    var info := b % 0x20;
    if info < 24 then Some(0)
    else if info == 24 then Some(1)
    else if info == 25 then Some(2)
    else if info == 26 then Some(4)
    else if info == 27 then Some(8)
    else None
  }

  /** The argument of the head at a position. */
  function ArgumentAt(input: seq<Byte>, i: nat): (r: Option<Argument>)
    requires i < |input|
    ensures r.Some? ==> i < r.value.next <= |input|
  {
    var k := ArgumentBytes(input[i]);
    if k.None? || |input| < i + 1 + k.value then None
    else Some(Argument(if k.value == 0 then input[i] % 0x20 else FromBytes(input[i + 1..i + 1 + k.value]), i + 1 + k.value))
  }

  /** A string of major type 2 (base 0x40) or 3 (base 0x60). */
  function StringAt(input: seq<Byte>, i: nat, base: nat): (r: Option<Data>)
    requires i <= |input|
    ensures r.Some? ==> i < r.value.next <= |input|
    decreases |input| - i, 1
  {
    if i == |input| then None
    else if base <= input[i] <= base + 0x1B then
      var a := ArgumentAt(input, i);
      if a.None? || |input| < a.value.next + a.value.n then None
      else Some(Data(input[a.value.next..a.value.next + a.value.n], a.value.next + a.value.n))
    else if input[i] == base + 0x1F then ChunksAt(input, i + 1, base)
    else None
  }

  /** The chunks up to the break. */
  function ChunksAt(input: seq<Byte>, i: nat, base: nat): (r: Option<Data>)
    requires i <= |input|
    ensures r.Some? ==> i < r.value.next <= |input|
    decreases |input| - i, 2
  {
    if i == |input| then None
    else if input[i] == 0xFF then Some(Data([], i + 1))
    else
      var chunk := StringAt(input, i, base);
      if chunk.None? then None
      else
        var rest := ChunksAt(input, chunk.value.next, base);
        if rest.None? then None else Some(Data(chunk.value.bytes + rest.value.bytes, rest.value.next))
  }

  predicate IsTag(b: Byte) {
    0xC6 <= b <= 0xD4 || 0xD8 <= b <= 0xDB
  }

  function One(e: Event, next: nat): Option<Decoded> {
    Some(Decoded([e], next))
  }

  /** The data item at a position. */
  function DecodeAt(input: seq<Byte>, i: nat, tags: TagHandler): (r: Option<Decoded>)
    requires i <= |input|
    ensures r.Some? ==> i < r.value.next <= |input|
    decreases |input| - i, 0
  {
    if i == |input| then None
    else
      var b := input[i];
      var a := ArgumentAt(input, i);
      if b <= 0x1B then
        if a.None? then None else One(UnsignedEvent(a.value.n), a.value.next)
      else if 0x20 <= b <= 0x3B then
        if a.None? then None else One(IntegerEvent(NegativeOf(a.value.n)), a.value.next)
      else if 0x40 <= b <= 0x5B || b == 0x5F then
        var s := StringAt(input, i, 0x40);
        if s.None? then None else One(BinaryEvent(s.value.bytes, None), s.value.next)
      else if 0x60 <= b <= 0x7B || b == 0x7F then
        var s := StringAt(input, i, 0x60);
        if s.None? then None else One(StringEvent(s.value.bytes), s.value.next)
      else if 0x80 <= b <= 0x9B then
        if a.None? then None else ArrayAt(input, a.value.next, a.value.n, tags)
      else if b == 0x9F then ArrayAt(input, i + 1, UNKNOWN_SIZE, tags)
      else if 0xA0 <= b <= 0xBB then
        if a.None? then None else ObjectAt(input, a.value.next, a.value.n, tags)
      else if b == 0xBF then ObjectAt(input, i + 1, UNKNOWN_SIZE, tags)
      else if IsTag(b) then
        if tags.Error? || a.None? then None
        else if tags.Store? && 0xD8 <= b then
          var s := StringAt(input, a.value.next, 0x40);
          if s.None? then None else One(BinaryEvent(s.value.bytes, Some(a.value.n)), s.value.next)
        else DecodeAt(input, a.value.next, tags)
      else if b == 0xF4 then One(BooleanEvent(false), i + 1)
      else if b == 0xF5 then One(BooleanEvent(true), i + 1)
      else if b == 0xF6 then One(NullEvent, i + 1)
      else if 0xF9 <= b <= 0xFB then
        if a.None? then None else One(FloatEvent(a.value.n, a.value.next - i - 1), a.value.next)
      else None
  }

  /** The rest of an array behind its head; len is the number of elements, or unknown. */
  function ArrayAt(input: seq<Byte>, i: nat, len: nat, tags: TagHandler): (r: Option<Decoded>)
    requires i <= |input|
    ensures r.Some? ==> i <= r.value.next <= |input|
    decreases |input| - i, 2
  {
    var items := if len != UNKNOWN_SIZE then ItemsAt(input, i, len, tags) else ItemsUntilBreak(input, i, tags);
    if items.None? then None
    else Some(Decoded([StartArrayEvent(len)] + (items.value.events + [EndArrayEvent]), items.value.next))
  }

  function ItemsAt(input: seq<Byte>, i: nat, n: nat, tags: TagHandler): (r: Option<Decoded>)
    requires i <= |input|
    ensures r.Some? ==> i <= r.value.next <= |input|
    decreases |input| - i, 1
  {
    if n == 0 then Some(Decoded([], i))
    else
      var first := DecodeAt(input, i, tags);
      if first.None? then None
      else
        var rest := ItemsAt(input, first.value.next, n - 1, tags);
        if rest.None? then None else Some(Decoded(first.value.events + rest.value.events, rest.value.next))
  }

  function ItemsUntilBreak(input: seq<Byte>, i: nat, tags: TagHandler): (r: Option<Decoded>)
    requires i <= |input|
    ensures r.Some? ==> i <= r.value.next <= |input|
    decreases |input| - i, 1
  {
    if i == |input| then None
    else if input[i] == 0xFF then Some(Decoded([], i + 1))
    else
      var first := DecodeAt(input, i, tags);
      if first.None? then None
      else
        var rest := ItemsUntilBreak(input, first.value.next, tags);
        if rest.None? then None else Some(Decoded(first.value.events + rest.value.events, rest.value.next))
  }

  /** The rest of a map behind its head. */
  function ObjectAt(input: seq<Byte>, i: nat, len: nat, tags: TagHandler): (r: Option<Decoded>)
    requires i <= |input|
    ensures r.Some? ==> i <= r.value.next <= |input|
    decreases |input| - i, 2
  {
    var entries := if len != UNKNOWN_SIZE then EntriesAt(input, i, len, tags) else EntriesUntilBreak(input, i, tags);
    if entries.None? then None
    else Some(Decoded([StartObjectEvent(len)] + (entries.value.events + [EndObjectEvent]), entries.value.next))
  }

  /** A key, which must be a text string, and a value. */
  function EntryAt(input: seq<Byte>, i: nat, tags: TagHandler): (r: Option<Decoded>)
    requires i <= |input|
    ensures r.Some? ==> i < r.value.next <= |input|
    decreases |input| - i, 0
  {
    var key := StringAt(input, i, 0x60);
    if key.None? then None
    else
      var value := DecodeAt(input, key.value.next, tags);
      if value.None? then None else Some(Decoded([KeyEvent(key.value.bytes)] + value.value.events, value.value.next))
  }

  function EntriesAt(input: seq<Byte>, i: nat, n: nat, tags: TagHandler): (r: Option<Decoded>)
    requires i <= |input|
    ensures r.Some? ==> i <= r.value.next <= |input|
    decreases |input| - i, 1
  {
    if n == 0 then Some(Decoded([], i))
    else
      var first := EntryAt(input, i, tags);
      if first.None? then None
      else
        var rest := EntriesAt(input, first.value.next, n - 1, tags);
        if rest.None? then None else Some(Decoded(first.value.events + rest.value.events, rest.value.next))
  }

  function EntriesUntilBreak(input: seq<Byte>, i: nat, tags: TagHandler): (r: Option<Decoded>)
    requires i <= |input|
    ensures r.Some? ==> i <= r.value.next <= |input|
    decreases |input| - i, 1
  {
    if i == |input| then None
    else if input[i] == 0xFF then Some(Decoded([], i + 1))
    else
      var first := EntryAt(input, i, tags);
      if first.None? then None
      else
        var rest := EntriesUntilBreak(input, first.value.next, tags);
        if rest.None? then None else Some(Decoded(first.value.events + rest.value.events, rest.value.next))
  }

  // --- heads ---

  lemma Cut(input: seq<Byte>, i: nat, a: seq<Byte>, b: seq<Byte>)
    requires i + |a + b| <= |input| && input[i..i + |a + b|] == a + b
    ensures |a + b| == |a| + |b| && input[i..i + |a|] == a && input[i + |a|..i + |a| + |b|] == b
    ensures a != [] ==> input[i] == a[0]
  {
    var s := input[i..i + |a + b|];
    assert (a + b)[..|a|] == a && (a + b)[|a|..] == b;
    assert s[..|a|] == input[i..i + |a|];
    assert s[|a|..] == input[i + |a|..i + |a + b|];
    assert a != [] ==> s[0] == a[0] && s[0] == input[i];
  }

  ghost function Power256(k: nat): nat {
    if k == 0 then 1 else Power256(k - 1) * 0x100
  }

  lemma {:induction false} BigEndianRoundTrip(n: nat, k: nat)
    requires n < Power256(k)
    ensures FromBytes(BigEndian(n, k)) == n
  {
    if 0 < k {
      BigEndianRoundTrip(n / 0x100, k - 1);
      assert BigEndian(n, k)[..k - 1] == BigEndian(n / 0x100, k - 1);
    }
  }

  lemma LimitIsPower(w: Width)
    ensures !w.Immediate? ==> w.Limit() == Power256(w.Bytes())
  {
    assert Power256(1) == 0x100 && Power256(2) == 0x1_0000 && Power256(3) == 0x100_0000 && Power256(4) == 0x1_0000_0000;
    assert Power256(5) == 0x100_0000_0000 && Power256(6) == 0x1_0000_0000_0000 && Power256(7) == 0x100_0000_0000_0000;
    assert Power256(8) == 0x1_0000_0000_0000_0000;
  }

  /** The argument of an encoded head is read back, whatever its width. */
  lemma HeadIsRead(input: seq<Byte>, i: nat, major: nat, w: Width, n: nat)
    requires major < 8 && n < w.Limit() && i + 1 + w.Bytes() <= |input|
    requires input[i..i + 1 + w.Bytes()] == Head(major, w, n)
    ensures input[i] == major * 0x20 + w.Info(n)
    ensures ArgumentAt(input, i) == Some(Argument(n, i + 1 + w.Bytes()))
  {
    var tail := BigEndian(n, w.Bytes());
    Cut(input, i, [(major * 0x20 + w.Info(n)) as Byte], tail);
    if w != Immediate {
      LimitIsPower(w);
      BigEndianRoundTrip(n, w.Bytes());
    }
    hide BigEndian, FromBytes;
    assert input[i] % 0x20 == w.Info(n);
  }

  // --- strings ---

  /** The bytes of an item stand at a position. */
  ghost predicate Stands(input: seq<Byte>, i: nat, bytes: seq<Byte>) {
    i + |bytes| <= |input| && input[i..i + |bytes|] == bytes
  }

  lemma Split(input: seq<Byte>, i: nat, a: seq<Byte>, b: seq<Byte>)
    requires Stands(input, i, a + b)
    ensures Stands(input, i, a) && Stands(input, i + |a|, b) && |a + b| == |a| + |b|
    ensures a != [] ==> i < |input| && input[i] == a[0]
  {
    Cut(input, i, a, b);
  }

  lemma HeadStands(input: seq<Byte>, i: nat, major: nat, w: Width, n: nat)
    requires major < 8 && n < w.Limit() && Stands(input, i, Head(major, w, n))
    ensures i < |input| && input[i] == major * 0x20 + w.Info(n)
    ensures ArgumentAt(input, i) == Some(Argument(n, i + |Head(major, w, n)|))
  {
    hide Head, ArgumentAt, Width.Limit, Width.Info, Width.Bytes;
    HeadIsRead(input, i, major, w, n);
  }

  lemma DefiniteStringIsRead(input: seq<Byte>, i: nat, major: nat, w: Width, data: seq<Byte>)
    requires (major == 2 || major == 3) && |data| < w.Limit() && Stands(input, i, Head(major, w, |data|) + data)
    ensures StringAt(input, i, major * 0x20) == Some(Data(data, i + |Head(major, w, |data|) + data|))
    ensures i < |input| && major * 0x20 <= input[i] <= major * 0x20 + 0x1B
  {
    hide ChunksAt, Head, ArgumentAt, Stands, Width.Limit, Width.Bytes;
    var head := Head(major, w, |data|);
    Split(input, i, head, data);
    HeadStands(input, i, major, w, |data|);
    InfoIsSmall(w, |data|);
    DataStandsBehind(input, i + |head|, data);
  }

  lemma InfoIsSmall(w: Width, n: nat)
    requires n < w.Limit()
    ensures w.Info(n) <= 0x1B
  {
  }

  lemma DataStandsBehind(input: seq<Byte>, i: nat, data: seq<Byte>)
    requires Stands(input, i, data)
    ensures i + |data| <= |input| && input[i..i + |data|] == data
  {
  }

  lemma OpenStringStep(input: seq<Byte>, i: nat, major: nat)
    requires (major == 2 || major == 3) && i < |input| && input[i] == major * 0x20 + 0x1F
    ensures StringAt(input, i, major * 0x20) == ChunksAt(input, i + 1, major * 0x20)
  {
    hide ChunksAt, ArgumentAt;
  }

  lemma ChunksStep(input: seq<Byte>, i: nat, base: nat)
    requires i < |input|
    ensures input[i] == 0xFF ==> ChunksAt(input, i, base) == Some(Data([], i + 1))
    ensures input[i] != 0xFF && StringAt(input, i, base).Some? ==>
      var chunk := StringAt(input, i, base).value;
      var rest := ChunksAt(input, chunk.next, base);
      ChunksAt(input, i, base) == if rest.None? then None else Some(Data(chunk.bytes + rest.value.bytes, rest.value.next))
  {
    hide StringAt;
  }

  /** A string in any number of pieces is read back as the bytes it stands for. */
  lemma {:induction false} StringIsRead(input: seq<Byte>, i: nat, major: nat, s: ByteString)
    requires (major == 2 || major == 3) && ValidString(s) && Stands(input, i, EncodeString(major, s))
    ensures StringAt(input, i, major * 0x20) == Some(Data(BytesOf(s), i + |EncodeString(major, s)|))
    ensures i < |input|
    ensures major * 0x20 <= input[i] <= major * 0x20 + 0x1B || input[i] == major * 0x20 + 0x1F
    decreases s, 1
  {
    hide Stands, StringAt, ChunksAt, EncodeChunks, ChunkBytes;
    match s
    case Definite(w, data) => DefiniteStringIsRead(input, i, major, w, data);
    case Chunked(chunks) =>
      Split(input, i, [major * 0x20 + 0x1F], EncodeChunks(major, chunks));
      OpenStringStep(input, i, major);
      ChunksAreRead(input, i + 1, major, chunks);
  }

  lemma {:induction false} ChunksAreRead(input: seq<Byte>, i: nat, major: nat, chunks: seq<ByteString>)
    requires (major == 2 || major == 3) && forall c :: c in chunks ==> ValidString(c)
    requires Stands(input, i, EncodeChunks(major, chunks))
    ensures ChunksAt(input, i, major * 0x20) == Some(Data(ChunkBytes(chunks), i + |EncodeChunks(major, chunks)|))
    decreases chunks, |chunks|
  {
    hide EncodeString, StringAt, ChunksAt, ValidString, BytesOf, Stands;
    if chunks == [] {
      assert [0xFF] + [] == [0xFF as Byte];
      Split(input, i, [0xFF], []);
      ChunksStep(input, i, major * 0x20);
    } else {
      var first, rest := EncodeString(major, chunks[0]), EncodeChunks(major, chunks[1..]);
      Split(input, i, first, rest);
      StringIsRead(input, i, major, chunks[0]);
      ChunksStep(input, i, major * 0x20);
      ChunksAreRead(input, i + |first|, major, chunks[1..]);
    }
  }

  // --- items ---

  /** Any encoding of an item, followed by anything, decodes to the item's events, and exactly it is consumed. */
  lemma {:induction false} EncodingIsDecoded(input: seq<Byte>, i: nat, item: Item, tags: TagHandler)
    requires Accepts(item, tags) && Stands(input, i, Encode(item, tags))
    ensures DecodeAt(input, i, tags) == Some(Decoded(Events(item, tags), i + |Encode(item, tags)|))
    ensures i < |input| && input[i] != 0xFF
    decreases item, 1
  {
    hide DecodeAt, Encode, Events, Accepts, Stands;
    match item
    case ArrayItem(w, items) => ArrayIsDecoded(input, i, w, items, tags);
    case OpenArray(opening, items) => OpenArrayIsDecoded(input, i, opening, items, tags);
    case MapItem(w, entries) => MapIsDecoded(input, i, w, entries, tags);
    case OpenMap(opening, entries) => OpenMapIsDecoded(input, i, opening, entries, tags);
    case Tagged(w, tag, inner) => TaggedIsDecoded(input, i, w, tag, inner, tags);
    case Bytes(_) => StringItemIsDecoded(input, i, item, tags);
    case Text(_) => StringItemIsDecoded(input, i, item, tags);
    case False => LiteralIsDecoded(input, i, item, tags);
    case True => LiteralIsDecoded(input, i, item, tags);
    case Null => LiteralIsDecoded(input, i, item, tags);
    case _ => NumberIsDecoded(input, i, item, tags);
  }

  lemma StringItemIsDecoded(input: seq<Byte>, i: nat, item: Item, tags: TagHandler)
    requires (item.Bytes? || item.Text?) && Accepts(item, tags) && Stands(input, i, Encode(item, tags))
    ensures DecodeAt(input, i, tags) == Some(Decoded(Events(item, tags), i + |Encode(item, tags)|))
    ensures i < |input| && input[i] != 0xFF
  {
    hide DecodeAt, StringAt, ArgumentAt, EncodeString, ValidString, Stands, BytesOf;
    StringIsRead(input, i, if item.Bytes? then 2 else 3, item.s);
    StringHead(input, i, tags);
  }

  /** Where a string's head stands, the string is decoded. */
  lemma StringHead(input: seq<Byte>, i: nat, tags: TagHandler)
    requires i < |input|
    ensures 0x40 <= input[i] <= 0x5B || input[i] == 0x5F ==>
      var s := StringAt(input, i, 0x40);
      DecodeAt(input, i, tags) == if s.None? then None else Some(Decoded([BinaryEvent(s.value.bytes, None)], s.value.next))
    ensures 0x60 <= input[i] <= 0x7B || input[i] == 0x7F ==>
      var s := StringAt(input, i, 0x60);
      DecodeAt(input, i, tags) == if s.None? then None else Some(Decoded([StringEvent(s.value.bytes)], s.value.next))
  {
    hide StringAt, ArgumentAt, ArrayAt, ObjectAt;
  }

  lemma NumberIsDecoded(input: seq<Byte>, i: nat, item: Item, tags: TagHandler)
    requires item.Unsigned? || item.Negative? || item.FloatItem?
    requires Accepts(item, tags) && Stands(input, i, Encode(item, tags))
    ensures DecodeAt(input, i, tags) == Some(Decoded(Events(item, tags), i + |Encode(item, tags)|))
    ensures i < |input| && input[i] != 0xFF
  {
    hide StringAt, ArrayAt, ObjectAt, ArgumentAt, Stands, Head;
    match item
    case Unsigned(w, n) => HeadStands(input, i, 0, w, n);
    case Negative(w, n) => HeadStands(input, i, 1, w, n);
    case FloatItem(w, bits) => HeadStands(input, i, 7, w, bits);
  }

  lemma LiteralIsDecoded(input: seq<Byte>, i: nat, item: Item, tags: TagHandler)
    requires (item.False? || item.True? || item.Null?) && Stands(input, i, Encode(item, tags))
    ensures DecodeAt(input, i, tags) == Some(Decoded(Events(item, tags), i + |Encode(item, tags)|))
    ensures i < |input| && input[i] != 0xFF
  {
    hide StringAt, ArrayAt, ObjectAt, ArgumentAt;
    assert input[i] == input[i..i + 1][0];
  }

  /** Where a container's head stands, the container is decoded by its loop. */
  lemma ContainerHead(input: seq<Byte>, i: nat, tags: TagHandler)
    requires i < |input|
    ensures 0x80 <= input[i] <= 0x9B && ArgumentAt(input, i).Some? ==>
      var a := ArgumentAt(input, i).value; DecodeAt(input, i, tags) == ArrayAt(input, a.next, a.n, tags)
    ensures input[i] == 0x9F ==> DecodeAt(input, i, tags) == ArrayAt(input, i + 1, UNKNOWN_SIZE, tags)
    ensures 0xA0 <= input[i] <= 0xBB && ArgumentAt(input, i).Some? ==>
      var a := ArgumentAt(input, i).value; DecodeAt(input, i, tags) == ObjectAt(input, a.next, a.n, tags)
    ensures input[i] == 0xBF ==> DecodeAt(input, i, tags) == ObjectAt(input, i + 1, UNKNOWN_SIZE, tags)
  {
    hide StringAt, ArgumentAt, ArrayAt, ObjectAt;
  }

  lemma TaggedParts(w: Width, tag: nat, inner: Item, tags: TagHandler)
    requires Accepts(Tagged(w, tag, inner), tags)
    ensures tag < w.Limit() && Accepts(inner, tags) && AcceptsTag(w, tag, inner, tags)
    ensures Encode(Tagged(w, tag, inner), tags) == Head(6, w, tag) + Encode(inner, tags)
    ensures Events(Tagged(w, tag, inner), tags) ==
      if tags.Store? && !w.Immediate? then [BinaryEvent(BytesOf(inner.s), Some(tag))] else Events(inner, tags)
  {
  }

  lemma StringEncoding(item: Item, tags: TagHandler)
    requires item.Bytes? && Accepts(item, tags)
    ensures ValidString(item.s) && Encode(item, tags) == EncodeString(2, item.s)
  {
  }

  lemma TagHead(input: seq<Byte>, i: nat, tags: TagHandler)
    requires i < |input| && IsTag(input[i]) && !tags.Error? && ArgumentAt(input, i).Some?
    ensures var next := ArgumentAt(input, i).value.next;
            var s := StringAt(input, next, 0x40);
            DecodeAt(input, i, tags) ==
              if tags.Store? && 0xD8 <= input[i] then
                if s.None? then None else Some(Decoded([BinaryEvent(s.value.bytes, Some(ArgumentAt(input, i).value.n))], s.value.next))
              else DecodeAt(input, next, tags)
  {
    hide StringAt, ArgumentAt, ArrayAt, ObjectAt;
  }

  lemma CountedParts(w: Width, items: seq<Item>, entries: seq<Entry>, tags: TagHandler)
    ensures Accepts(ArrayItem(w, items), tags) ==>
      && |items| < w.Limit() && |items| < UNKNOWN_SIZE && (forall x :: x in items ==> Accepts(x, tags))
      && Encode(ArrayItem(w, items), tags) == Head(4, w, |items|) + EncodeItems(items, tags)
      && Events(ArrayItem(w, items), tags) == [StartArrayEvent(|items|)] + (ItemEvents(items, tags) + [EndArrayEvent])
    ensures Accepts(MapItem(w, entries), tags) ==>
      && |entries| < w.Limit() && |entries| < UNKNOWN_SIZE && (forall e :: e in entries ==> AcceptsEntry(e, tags))
      && Encode(MapItem(w, entries), tags) == Head(5, w, |entries|) + EncodeEntries(entries, tags)
      && Events(MapItem(w, entries), tags) == [StartObjectEvent(|entries|)] + (EntryEvents(entries, tags) + [EndObjectEvent])
  {
    hide Head, EncodeItems, EncodeEntries, ItemEvents, EntryEvents, AcceptsEntry;
  }

  lemma OpenParts(opening: Opening, items: seq<Item>, entries: seq<Entry>, tags: TagHandler)
    ensures Accepts(OpenArray(opening, items), tags) ==>
      && (forall x :: x in items ==> Accepts(x, tags))
      && Encode(OpenArray(opening, items), tags) == OpeningBytes(4, opening) + (EncodeItems(items, tags) + [0xFF])
      && Events(OpenArray(opening, items), tags) ==
           [StartArrayEvent(UNKNOWN_SIZE)] + (ItemEvents(items, tags) + [EndArrayEvent])
    ensures Accepts(OpenMap(opening, entries), tags) ==>
      && (forall e :: e in entries ==> AcceptsEntry(e, tags))
      && Encode(OpenMap(opening, entries), tags) == OpeningBytes(5, opening) + (EncodeEntries(entries, tags) + [0xFF])
      && Events(OpenMap(opening, entries), tags) ==
           [StartObjectEvent(UNKNOWN_SIZE)] + (EntryEvents(entries, tags) + [EndObjectEvent])
  {
    hide OpeningBytes, EncodeItems, EncodeEntries, ItemEvents, EntryEvents, AcceptsEntry;
  }

  lemma {:induction false} ArrayIsDecoded(input: seq<Byte>, i: nat, w: Width, items: seq<Item>, tags: TagHandler)
    requires Accepts(ArrayItem(w, items), tags) && Stands(input, i, Encode(ArrayItem(w, items), tags))
    ensures DecodeAt(input, i, tags) ==
      Some(Decoded(Events(ArrayItem(w, items), tags), i + |Encode(ArrayItem(w, items), tags)|))
    ensures i < |input| && input[i] != 0xFF
    decreases items, |items| + 1
  {
    hide DecodeAt, ItemsAt, ArgumentAt, Stands, Head, Encode, EncodeItems, Events, ItemEvents, Accepts, Width.Limit, Width.Bytes;
    CountedParts(w, items, [], tags);
    InfoIsSmall(w, |items|);
    var head := Head(4, w, |items|);
    Split(input, i, head, EncodeItems(items, tags));
    HeadStands(input, i, 4, w, |items|);
    ContainerHead(input, i, tags);
    ItemsAreDecoded(input, i + |head|, items, tags);
  }

  /** However it is opened, a container of unknown length goes on to a break. */
  lemma OpeningIsRead(input: seq<Byte>, i: nat, major: nat, opening: Opening, tags: TagHandler)
    requires (major == 4 || major == 5) && Stands(input, i, OpeningBytes(major, opening))
    ensures i < |input| && input[i] != 0xFF && i + |OpeningBytes(major, opening)| <= |input|
    ensures major == 4 ==>
      DecodeAt(input, i, tags) == ArrayAt(input, i + |OpeningBytes(major, opening)|, UNKNOWN_SIZE, tags)
    ensures major == 5 ==>
      DecodeAt(input, i, tags) == ObjectAt(input, i + |OpeningBytes(major, opening)|, UNKNOWN_SIZE, tags)
  {
    hide DecodeAt, ArrayAt, ObjectAt, ArgumentAt, Head;
    if opening.Indefinite? {
      assert input[i..i + 1][0] == input[i];
    } else {
      HeadStands(input, i, major, Eight, UNKNOWN_SIZE);
    }
    ContainerHead(input, i, tags);
  }

  lemma {:induction false} OpenArrayIsDecoded(input: seq<Byte>, i: nat, opening: Opening, items: seq<Item>, tags: TagHandler)
    requires Accepts(OpenArray(opening, items), tags) && Stands(input, i, Encode(OpenArray(opening, items), tags))
    ensures DecodeAt(input, i, tags) ==
      Some(Decoded(Events(OpenArray(opening, items), tags), i + |Encode(OpenArray(opening, items), tags)|))
    ensures i < |input| && input[i] != 0xFF
    decreases items, |items| + 1
  {
    hide DecodeAt, ItemsUntilBreak, ArgumentAt, Stands, Encode, EncodeItems, Events, ItemEvents, OpeningBytes, Accepts;
    OpenParts(opening, items, [], tags);
    Split(input, i, OpeningBytes(4, opening), EncodeItems(items, tags) + [0xFF]);
    OpeningIsRead(input, i, 4, opening, tags);
    ItemsAreDecodedUntilBreak(input, i + |OpeningBytes(4, opening)|, items, tags);
  }

  lemma {:induction false} MapIsDecoded(input: seq<Byte>, i: nat, w: Width, entries: seq<Entry>, tags: TagHandler)
    requires Accepts(MapItem(w, entries), tags) && Stands(input, i, Encode(MapItem(w, entries), tags))
    ensures DecodeAt(input, i, tags) ==
      Some(Decoded(Events(MapItem(w, entries), tags), i + |Encode(MapItem(w, entries), tags)|))
    ensures i < |input| && input[i] != 0xFF
    decreases entries, |entries| + 1
  {
    hide DecodeAt, EntriesAt, ArgumentAt, Stands, Head, Encode, EncodeEntries, Events, EntryEvents, Accepts, AcceptsEntry,
         Width.Limit, Width.Bytes;
    CountedParts(w, [], entries, tags);
    InfoIsSmall(w, |entries|);
    var head := Head(5, w, |entries|);
    Split(input, i, head, EncodeEntries(entries, tags));
    HeadStands(input, i, 5, w, |entries|);
    ContainerHead(input, i, tags);
    EntriesAreDecoded(input, i + |head|, entries, tags);
  }

  lemma {:induction false} OpenMapIsDecoded(input: seq<Byte>, i: nat, opening: Opening, entries: seq<Entry>, tags: TagHandler)
    requires Accepts(OpenMap(opening, entries), tags) && Stands(input, i, Encode(OpenMap(opening, entries), tags))
    ensures DecodeAt(input, i, tags) ==
      Some(Decoded(Events(OpenMap(opening, entries), tags), i + |Encode(OpenMap(opening, entries), tags)|))
    ensures i < |input| && input[i] != 0xFF
    decreases entries, |entries| + 1
  {
    hide DecodeAt, EntriesUntilBreak, ArgumentAt, Stands, Encode, EncodeEntries, Events, EntryEvents, OpeningBytes,
         Accepts, AcceptsEntry;
    OpenParts(opening, [], entries, tags);
    Split(input, i, OpeningBytes(5, opening), EncodeEntries(entries, tags) + [0xFF]);
    OpeningIsRead(input, i, 5, opening, tags);
    EntriesAreDecodedUntilBreak(input, i + |OpeningBytes(5, opening)|, entries, tags);
  }

  lemma {:induction false} TaggedIsDecoded(input: seq<Byte>, i: nat, w: Width, tag: nat, inner: Item, tags: TagHandler)
    requires Accepts(Tagged(w, tag, inner), tags) && Stands(input, i, Encode(Tagged(w, tag, inner), tags))
    ensures DecodeAt(input, i, tags) ==
      Some(Decoded(Events(Tagged(w, tag, inner), tags), i + |Encode(Tagged(w, tag, inner), tags)|))
    ensures i < |input| && input[i] != 0xFF
    decreases inner, 2
  {
    hide DecodeAt, StringAt, ArgumentAt, Stands, Head, Encode, Events, Accepts, BytesOf, FromBytes, EncodeString, ValidString;
    TaggedParts(w, tag, inner, tags);
    var head := Head(6, w, tag);
    Split(input, i, head, Encode(inner, tags));
    HeadStands(input, i, 6, w, tag);
    TagHead(input, i, tags);
    if tags.Store? && !w.Immediate? {
      StringEncoding(inner, tags);
      StringIsRead(input, i + |head|, 2, inner.s);
    } else {
      EncodingIsDecoded(input, i + |head|, inner, tags);
    }
  }

  lemma {:induction false} ItemsAreDecoded(input: seq<Byte>, i: nat, items: seq<Item>, tags: TagHandler)
    requires (forall x :: x in items ==> Accepts(x, tags)) && Stands(input, i, EncodeItems(items, tags))
    ensures ItemsAt(input, i, |items|, tags) == Some(Decoded(ItemEvents(items, tags), i + |EncodeItems(items, tags)|))
    decreases items, |items|
  {
    hide Accepts, AcceptsEntry, Encode, Events, DecodeAt, StringAt, EncodeEntry, EventsOfEntry, EntryAt, Stands, ValidString, BytesOf;
    if items != [] {
      var first := Encode(items[0], tags);
      Split(input, i, first, EncodeItems(items[1..], tags));
      EncodingIsDecoded(input, i, items[0], tags);
      ItemsAreDecoded(input, i + |first|, items[1..], tags);
    }
  }

  lemma ItemsUntilBreakStep(input: seq<Byte>, i: nat, tags: TagHandler)
    requires i < |input|
    ensures input[i] == 0xFF ==> ItemsUntilBreak(input, i, tags) == Some(Decoded([], i + 1))
    ensures input[i] != 0xFF && DecodeAt(input, i, tags).Some? ==>
      var first := DecodeAt(input, i, tags).value;
      var rest := ItemsUntilBreak(input, first.next, tags);
      ItemsUntilBreak(input, i, tags) == if rest.None? then None else Some(Decoded(first.events + rest.value.events, rest.value.next))
  {
    hide DecodeAt;
  }

  lemma {:induction false} ItemsAreDecodedUntilBreak(input: seq<Byte>, i: nat, items: seq<Item>, tags: TagHandler)
    requires (forall x :: x in items ==> Accepts(x, tags)) && Stands(input, i, EncodeItems(items, tags) + [0xFF])
    ensures ItemsUntilBreak(input, i, tags) == Some(Decoded(ItemEvents(items, tags), i + |EncodeItems(items, tags)| + 1))
    decreases items, |items|
  {
    hide ItemsUntilBreak, Accepts, AcceptsEntry, Encode, Events, DecodeAt, StringAt, EncodeEntry, EventsOfEntry, EntryAt, Stands, ValidString, BytesOf;
    if items == [] {
      assert EncodeItems(items, tags) + [0xFF] == [0xFF] + [];
      Split(input, i, [0xFF], []);
      ItemsUntilBreakStep(input, i, tags);
    } else {
      var first, rest := Encode(items[0], tags), EncodeItems(items[1..], tags);
      assert EncodeItems(items, tags) + [0xFF] == first + (rest + [0xFF]);
      Split(input, i, first, rest + [0xFF]);
      EncodingIsDecoded(input, i, items[0], tags);
      ItemsUntilBreakStep(input, i, tags);
      ItemsAreDecodedUntilBreak(input, i + |first|, items[1..], tags);
    }
  }

  lemma {:induction false} EntryIsDecoded(input: seq<Byte>, i: nat, e: Entry, tags: TagHandler)
    requires AcceptsEntry(e, tags) && Stands(input, i, EncodeEntry(e, tags))
    ensures EntryAt(input, i, tags) == Some(Decoded(EventsOfEntry(e, tags), i + |EncodeEntry(e, tags)|))
    ensures i < |input| && input[i] != 0xFF
    decreases e, 0
  {
    hide Accepts, Encode, Events, DecodeAt, StringAt, Stands, BytesOf, EncodeString, ValidString;
    var key := EncodeString(3, e.key);
    Split(input, i, key, Encode(e.value, tags));
    StringIsRead(input, i, 3, e.key);
    EncodingIsDecoded(input, i + |key|, e.value, tags);
  }

  lemma {:induction false} EntriesAreDecoded(input: seq<Byte>, i: nat, entries: seq<Entry>, tags: TagHandler)
    requires (forall e :: e in entries ==> AcceptsEntry(e, tags)) && Stands(input, i, EncodeEntries(entries, tags))
    ensures EntriesAt(input, i, |entries|, tags) == Some(Decoded(EntryEvents(entries, tags), i + |EncodeEntries(entries, tags)|))
    decreases entries, |entries|
  {
    hide Accepts, AcceptsEntry, Encode, Events, DecodeAt, StringAt, EncodeEntry, EventsOfEntry, EntryAt, Stands, ValidString, BytesOf;
    if entries != [] {
      var first := EncodeEntry(entries[0], tags);
      Split(input, i, first, EncodeEntries(entries[1..], tags));
      EntryIsDecoded(input, i, entries[0], tags);
      EntriesAreDecoded(input, i + |first|, entries[1..], tags);
    }
  }

  lemma EntriesUntilBreakStep(input: seq<Byte>, i: nat, tags: TagHandler)
    requires i < |input|
    ensures input[i] == 0xFF ==> EntriesUntilBreak(input, i, tags) == Some(Decoded([], i + 1))
    ensures input[i] != 0xFF && EntryAt(input, i, tags).Some? ==>
      var first := EntryAt(input, i, tags).value;
      var rest := EntriesUntilBreak(input, first.next, tags);
      EntriesUntilBreak(input, i, tags) == if rest.None? then None else Some(Decoded(first.events + rest.value.events, rest.value.next))
  {
    hide EntryAt;
  }

  lemma {:induction false} EntriesAreDecodedUntilBreak(input: seq<Byte>, i: nat, entries: seq<Entry>, tags: TagHandler)
    requires (forall e :: e in entries ==> AcceptsEntry(e, tags)) && Stands(input, i, EncodeEntries(entries, tags) + [0xFF])
    ensures EntriesUntilBreak(input, i, tags) ==
      Some(Decoded(EntryEvents(entries, tags), i + |EncodeEntries(entries, tags)| + 1))
    decreases entries, |entries|
  {
    hide EntriesUntilBreak, Accepts, AcceptsEntry, Encode, Events, DecodeAt, StringAt, EncodeEntry, EventsOfEntry, EntryAt, Stands, ValidString, BytesOf;
    if entries == [] {
      assert EncodeEntries(entries, tags) + [0xFF] == [0xFF] + [];
      Split(input, i, [0xFF], []);
      EntriesUntilBreakStep(input, i, tags);
    } else {
      var first, rest := EncodeEntry(entries[0], tags), EncodeEntries(entries[1..], tags);
      assert EncodeEntries(entries, tags) + [0xFF] == first + (rest + [0xFF]);
      Split(input, i, first, rest + [0xFF]);
      EntryIsDecoded(input, i, entries[0], tags);
      EntriesUntilBreakStep(input, i, tags);
      EntriesAreDecodedUntilBreak(input, i + |first|, entries[1..], tags);
    }
  }
}
