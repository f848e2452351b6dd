/** The converse of decoding: whatever decodes is the encoding of an item. */
module CborConverse {
  import opened Options
  import opened Cbor
  import opened CborDecoding

  // --- heads ---

  lemma LastByte(n: nat, last: Byte)
    ensures (n * 0x100 + last) / 0x100 == n && (n * 0x100 + last) % 0x100 == last
  {
  }

  /** Big-endian numbers and byte strings of a length correspond. */
  lemma {:induction false} BytesRoundTrip(s: seq<Byte>)
    ensures FromBytes(s) < Power256(|s|) && BigEndian(FromBytes(s), |s|) == s
    decreases |s|
  {
    hide FromBytes, BigEndian, Power256;
    if s == [] {
      NoBytes();
    } else {
      var front, last := s[..|s| - 1], s[|s| - 1];
      BytesRoundTrip(front);
      LastByte(FromBytes(front), last);
      OneMoreByte(front, last);
      BigEndianStep(FromBytes(s), |front|);
      assert s == front + [last];
    }
  }

  lemma NoBytes()
    ensures FromBytes([]) == 0 < Power256(0) && BigEndian(0, 0) == []
  {
  }

  lemma OneMoreByte(front: seq<Byte>, last: Byte)
    ensures FromBytes(front + [last]) == FromBytes(front) * 0x100 + last
  {
    assert (front + [last])[..|front|] == front;
  }

  lemma BigEndianStep(n: nat, k: nat)
    ensures BigEndian(n, k + 1) == BigEndian(n / 0x100, k) + [n % 0x100]
    ensures Power256(k + 1) == Power256(k) * 0x100
  {
  }

  /** The width of the argument, from the additional information of the initial byte. */
  function WidthOf(b: Byte): Width {
    var info := b % 0x20;
    if info < 24 then Immediate
    else if info == 24 then Width.One
    else if info == 25 then Two
    else if info == 26 then Four
    else Eight
  }

  lemma InitialByte(b: Byte)
    ensures b == b / 0x20 * 0x20 + b % 0x20 && b / 0x20 < 8
  {
  }

  /** Where an argument can be read, a head stands. */
  lemma ReadHead(input: seq<Byte>, i: nat)
    requires i < |input| && ArgumentAt(input, i).Some?
    ensures var w, a := WidthOf(input[i]), ArgumentAt(input, i).value;
            a.n < w.Limit() && Stands(input, i, Head(input[i] / 0x20, w, a.n)) && a.next == i + 1 + w.Bytes()
  {
    hide FromBytes, BigEndian, Power256, ArgumentAt, WidthOf, Width.Limit, Width.Info, Width.Bytes;
    var b := input[i];
    var w, a := WidthOf(b), ArgumentAt(input, i).value;
    InitialByte(b);
    ArgumentParts(input, i);
    var tail := input[i + 1..i + 1 + w.Bytes()];
    if w.Immediate? {
      NoBigEndian(a.n);
    } else {
      LimitIsPower(w);
      BytesRoundTrip(tail);
    }
    InfoIsRead(b, a.n);
    assert input[i..i + 1 + w.Bytes()] == [b] + tail;
  }

  lemma ArgumentParts(input: seq<Byte>, i: nat)
    requires i < |input| && ArgumentAt(input, i).Some?
    ensures var w, a := WidthOf(input[i]), ArgumentAt(input, i).value;
            && a.next == i + 1 + w.Bytes()
            && (if w.Immediate? then a.n == input[i] % 0x20 < w.Limit() && w.Bytes() == 0
                else a.n == FromBytes(input[i + 1..i + 1 + w.Bytes()]))
            && input[i] % 0x20 < 28
  {
    hide FromBytes;
  }

  lemma NoBigEndian(n: nat)
    ensures BigEndian(n, 0) == []
  {
  }

  lemma InfoIsRead(b: Byte, n: nat)
    requires b % 0x20 < 28 && n < WidthOf(b).Limit() && (WidthOf(b).Immediate? ==> n == b % 0x20)
    ensures WidthOf(b).Info(n) == b % 0x20
  {
  }

  lemma Together(input: seq<Byte>, i: nat, a: seq<Byte>, b: seq<Byte>)
    requires Stands(input, i, a) && Stands(input, i + |a|, b)
    ensures Stands(input, i, a + b) && |a + b| == |a| + |b|
  {
    assert input[i..i + |a + b|] == input[i..i + |a|] + input[i + |a|..i + |a| + |b|];
  }

  lemma OneByte(input: seq<Byte>, i: nat)
    requires i < |input|
    ensures Stands(input, i, [input[i]])
  {
  }

  // --- strings ---

  /** What is read as a string is the encoding of one. */
  ghost predicate IsStringAt(input: seq<Byte>, i: nat, major: nat, s: ByteString, r: Data)
    requires major < 8
  {
    ValidString(s) && Stands(input, i, EncodeString(major, s)) && r == Data(BytesOf(s), i + |EncodeString(major, s)|)
  }

  ghost predicate AreChunksAt(input: seq<Byte>, i: nat, major: nat, chunks: seq<ByteString>, r: Data)
    requires major < 8
  {
    && (forall c :: c in chunks ==> ValidString(c))
    && Stands(input, i, EncodeChunks(major, chunks)) && r == Data(ChunkBytes(chunks), i + |EncodeChunks(major, chunks)|)
  }

  lemma DefiniteStringIsEncoded(input: seq<Byte>, i: nat, major: nat) returns (s: ByteString)
    requires (major == 2 || major == 3) && i <= |input| && StringAt(input, i, major * 0x20).Some?
    requires input[i] != major * 0x20 + 0x1F
    ensures IsStringAt(input, i, major, s, StringAt(input, i, major * 0x20).value)
  {
    hide ChunksAt, ArgumentAt, Head, Stands;
    ReadHead(input, i);
    var a, w := ArgumentAt(input, i).value, WidthOf(input[i]);
    var data := input[a.next..a.next + a.n];
    DataStands(input, a.next, a.n);
    Together(input, i, Head(major, w, a.n), data);
    s := Definite(w, data);
  }

  lemma DataStands(input: seq<Byte>, i: nat, n: nat)
    requires i + n <= |input|
    ensures Stands(input, i, input[i..i + n])
  {
  }

  lemma {:induction false} ReadStringIsEncoded(input: seq<Byte>, i: nat, major: nat) returns (s: ByteString)
    requires (major == 2 || major == 3) && i <= |input| && StringAt(input, i, major * 0x20).Some?
    ensures IsStringAt(input, i, major, s, StringAt(input, i, major * 0x20).value)
    decreases |input| - i, 1
  {
    hide StringAt, ChunksAt, Stands, EncodeChunks, ChunkBytes, ValidString;
    StringIsThere(input, i, major * 0x20);
    if input[i] == major * 0x20 + 0x1F {
      OpenStringStep(input, i, major);
      var chunks := ReadChunksAreEncoded(input, i + 1, major);
      OneByte(input, i);
      Together(input, i, [input[i]], EncodeChunks(major, chunks));
      s := Chunked(chunks);
      ChunksAreValid(chunks);
    } else {
      s := DefiniteStringIsEncoded(input, i, major);
    }
  }

  lemma StringIsThere(input: seq<Byte>, i: nat, base: nat)
    requires i <= |input| && StringAt(input, i, base).Some?
    ensures i < |input|
  {
  }

  lemma ChunksAreValid(chunks: seq<ByteString>)
    ensures ValidString(Chunked(chunks)) <==> forall c :: c in chunks ==> ValidString(c)
  {
  }

  lemma {:induction false} ReadChunksAreEncoded(input: seq<Byte>, i: nat, major: nat) returns (chunks: seq<ByteString>)
    requires (major == 2 || major == 3) && i <= |input| && ChunksAt(input, i, major * 0x20).Some?
    ensures AreChunksAt(input, i, major, chunks, ChunksAt(input, i, major * 0x20).value)
    decreases |input| - i, 2
  {
    hide StringAt, Stands, EncodeString, BytesOf, ValidString;
    if input[i] == 0xFF {
      OneByte(input, i);
      chunks := [];
    } else {
      var first := ReadStringIsEncoded(input, i, major);
      var rest := ReadChunksAreEncoded(input, StringAt(input, i, major * 0x20).value.next, major);
      Together(input, i, EncodeString(major, first), EncodeChunks(major, rest));
      chunks := [first] + rest;
      assert chunks[1..] == rest;
    }
  }

  // --- items ---

  ghost predicate IsItemAt(input: seq<Byte>, i: nat, item: Item, tags: TagHandler, r: Decoded) {
    && Accepts(item, tags) && Stands(input, i, Encode(item, tags))
    && r == Decoded(Events(item, tags), i + |Encode(item, tags)|)
  }

  ghost predicate AreItemsAt(input: seq<Byte>, i: nat, items: seq<Item>, tags: TagHandler, r: Decoded) {
    && (forall x :: x in items ==> Accepts(x, tags)) && Stands(input, i, EncodeItems(items, tags))
    && r == Decoded(ItemEvents(items, tags), i + |EncodeItems(items, tags)|)
  }

  ghost predicate AreEntriesAt(input: seq<Byte>, i: nat, entries: seq<Entry>, tags: TagHandler, r: Decoded) {
    && (forall e :: e in entries ==> AcceptsEntry(e, tags)) && Stands(input, i, EncodeEntries(entries, tags))
    && r == Decoded(EntryEvents(entries, tags), i + |EncodeEntries(entries, tags)|)
  }

  predicate IsStringHead(b: Byte) {
    0x40 <= b <= 0x5B || b == 0x5F || 0x60 <= b <= 0x7B || b == 0x7F
  }

  predicate IsLiteral(b: Byte) {
    0xF4 <= b <= 0xF6
  }

  predicate IsNumberHead(b: Byte) {
    b <= 0x1B || 0x20 <= b <= 0x3B || 0xF9 <= b <= 0xFB
  }

  predicate IsContainerHead(b: Byte) {
    0x80 <= b <= 0x9B || b == 0x9F || 0xA0 <= b <= 0xBB || b == 0xBF
  }

  /** What decodes starts with a head the decoder knows, and its argument can be read if it has one. */
  lemma KnownHead(input: seq<Byte>, i: nat, tags: TagHandler)
    requires i <= |input| && DecodeAt(input, i, tags).Some?
    ensures i < |input|
    ensures var b := input[i];
            && (IsStringHead(b) || IsLiteral(b) || IsNumberHead(b) || IsContainerHead(b) || IsTag(b))
            && (IsNumberHead(b) || IsTag(b) || (IsContainerHead(b) && b != 0x9F && b != 0xBF) ==> ArgumentAt(input, i).Some?)
            && (IsTag(b) ==> !tags.Error?)
  {
    hide StringAt, ArgumentAt, ArrayAt, ObjectAt;
  }

  lemma NumberIsEncoded(input: seq<Byte>, i: nat, tags: TagHandler) returns (item: Item)
    requires i < |input| && IsNumberHead(input[i]) && ArgumentAt(input, i).Some?
    ensures DecodeAt(input, i, tags).Some? && IsItemAt(input, i, item, tags, DecodeAt(input, i, tags).value)
  {
    hide StringAt, ArgumentAt, ArrayAt, ObjectAt, Head, Stands;
    ReadHead(input, i);
    var a, w := ArgumentAt(input, i).value, WidthOf(input[i]);
    item := if input[i] <= 0x1B then Unsigned(w, a.n) else if input[i] <= 0x3B then Negative(w, a.n) else FloatItem(w, a.n);
  }

  lemma LiteralIsEncoded(input: seq<Byte>, i: nat, tags: TagHandler) returns (item: Item)
    requires i < |input| && IsLiteral(input[i])
    ensures DecodeAt(input, i, tags).Some? && IsItemAt(input, i, item, tags, DecodeAt(input, i, tags).value)
  {
    hide StringAt, ArgumentAt, ArrayAt, ObjectAt, Stands;
    OneByte(input, i);
    item := if input[i] == 0xF4 then False else if input[i] == 0xF5 then True else Null;
  }

  lemma StringItemIsEncoded(input: seq<Byte>, i: nat, tags: TagHandler) returns (item: Item)
    requires i < |input| && IsStringHead(input[i]) && DecodeAt(input, i, tags).Some?
    ensures IsItemAt(input, i, item, tags, DecodeAt(input, i, tags).value)
  {
    hide DecodeAt, StringAt, Stands, EncodeString, BytesOf, ValidString;
    StringHead(input, i, tags);
    if input[i] <= 0x5F {
      var s := ReadStringIsEncoded(input, i, 2);
      item := Bytes(s);
    } else {
      var s := ReadStringIsEncoded(input, i, 3);
      item := Text(s);
    }
  }

  /** The head of a container, and whether its parts are counted. */
  lemma ReadContainerHead(input: seq<Byte>, i: nat, tags: TagHandler) returns (next: nat, len: nat, w: Width, opening: Opening)
    requires i < |input| && IsContainerHead(input[i]) && DecodeAt(input, i, tags).Some?
    ensures i < next <= |input|
    ensures DecodeAt(input, i, tags) == if input[i] <= 0x9F then ArrayAt(input, next, len, tags) else ObjectAt(input, next, len, tags)
    ensures var major := if input[i] <= 0x9F then 4 else 5;
            if len != UNKNOWN_SIZE then
              len < w.Limit() && len < UNKNOWN_SIZE && Stands(input, i, Head(major, w, len)) && next == i + |Head(major, w, len)|
            else Stands(input, i, OpeningBytes(major, opening)) && next == i + |OpeningBytes(major, opening)|
  {
    hide DecodeAt, ArgumentAt, ArrayAt, ObjectAt, Stands, Head;
    ContainerHead(input, i, tags);
    KnownHead(input, i, tags);
    OneByte(input, i);
    w, opening, len, next := Immediate, Indefinite, UNKNOWN_SIZE, i + 1;
    if input[i] != 0x9F && input[i] != 0xBF {
      ReadHead(input, i);
      var a := ArgumentAt(input, i).value;
      next, len, w, opening := a.next, a.n, WidthOf(input[i]), LargestLength;
    }
  }

  /** On any bytes: what decodes is the encoding of an item, with exactly the item's events. */
  lemma {:induction false} DecodedIsEncoded(input: seq<Byte>, i: nat, tags: TagHandler) returns (item: Item)
    requires i <= |input| && DecodeAt(input, i, tags).Some?
    ensures IsItemAt(input, i, item, tags, DecodeAt(input, i, tags).value)
    decreases |input| - i, 3
  {
    hide DecodeAt, ArgumentAt, IsItemAt;
    KnownHead(input, i, tags);
    if IsStringHead(input[i]) {
      item := StringItemIsEncoded(input, i, tags);
    } else if IsLiteral(input[i]) {
      item := LiteralIsEncoded(input, i, tags);
    } else if IsNumberHead(input[i]) {
      item := NumberIsEncoded(input, i, tags);
    } else if IsTag(input[i]) {
      item := TaggedIsEncoded(input, i, tags);
    } else if input[i] <= 0x9F {
      item := ArrayIsEncoded(input, i, tags);
    } else {
      item := MapIsEncoded(input, i, tags);
    }
  }

  lemma {:induction false} TaggedIsEncoded(input: seq<Byte>, i: nat, tags: TagHandler) returns (item: Item)
    requires i < |input| && IsTag(input[i]) && !tags.Error? && ArgumentAt(input, i).Some? && DecodeAt(input, i, tags).Some?
    ensures IsItemAt(input, i, item, tags, DecodeAt(input, i, tags).value)
    decreases |input| - i, 2
  {
    hide DecodeAt, StringAt, ArgumentAt, Stands, Head, Encode, Events, Accepts, EncodeString, ValidString, BytesOf, AcceptsTag;
    TagHead(input, i, tags);
    ReadHead(input, i);
    var w, a := WidthOf(input[i]), ArgumentAt(input, i).value;
    var inner;
    if tags.Store? && 0xD8 <= input[i] {
      var s := ReadStringIsEncoded(input, a.next, 2);
      inner := Bytes(s);
      BytesItem(s, tags);
    } else {
      inner := DecodedIsEncoded(input, a.next, tags);
    }
    TagIsAccepted(input, i, inner, tags);
    item := Tagged(w, a.n, inner);
    TaggedIf(w, a.n, inner, tags);
    TaggedParts(w, a.n, inner, tags);
    Together(input, i, Head(6, w, a.n), Encode(inner, tags));
  }

  lemma BytesItem(s: ByteString, tags: TagHandler)
    ensures Accepts(Bytes(s), tags) <==> ValidString(s)
    ensures ValidString(s) ==> Encode(Bytes(s), tags) == EncodeString(2, s)
  {
  }

  lemma TaggedIf(w: Width, tag: nat, inner: Item, tags: TagHandler)
    ensures Accepts(Tagged(w, tag, inner), tags) <==> tag < w.Limit() && Accepts(inner, tags) && AcceptsTag(w, tag, inner, tags)
  {
  }

  lemma TagIsAccepted(input: seq<Byte>, i: nat, inner: Item, tags: TagHandler)
    requires i < |input| && IsTag(input[i]) && !tags.Error? && ArgumentAt(input, i).Some?
    requires tags.Store? && 0xD8 <= input[i] ==> inner.Bytes?
    ensures AcceptsTag(WidthOf(input[i]), ArgumentAt(input, i).value.n, inner, tags)
    ensures WidthOf(input[i]).Immediate? <==> input[i] < 0xD8
    ensures input[i] / 0x20 == 6
  {
    hide FromBytes;
  }

  lemma {:induction false} ArrayIsEncoded(input: seq<Byte>, i: nat, tags: TagHandler) returns (item: Item)
    requires i < |input| && IsContainerHead(input[i]) && input[i] <= 0x9F && DecodeAt(input, i, tags).Some?
    ensures IsItemAt(input, i, item, tags, DecodeAt(input, i, tags).value)
    decreases |input| - i, 2
  {
    hide DecodeAt, ItemsAt, ItemsUntilBreak, Stands, Head, EncodeItems, ItemEvents, OpeningBytes;
    var next, len, w, opening := ReadContainerHead(input, i, tags);
    if len != UNKNOWN_SIZE {
      var items := ItemsAreEncoded(input, next, len, tags);
      Together(input, i, Head(4, w, len), EncodeItems(items, tags));
      item := ArrayItem(w, items);
    } else {
      var items := OpenItemsAreEncoded(input, next, tags);
      Together(input, i, OpeningBytes(4, opening), EncodeItems(items, tags) + [0xFF]);
      item := OpenArray(opening, items);
    }
  }

  lemma {:induction false} ItemsAreEncoded(input: seq<Byte>, i: nat, n: nat, tags: TagHandler) returns (items: seq<Item>)
    requires i <= |input| && ItemsAt(input, i, n, tags).Some?
    ensures |items| == n && AreItemsAt(input, i, items, tags, ItemsAt(input, i, n, tags).value)
    decreases |input| - i, 4, n
  {
    hide DecodeAt, Accepts, Encode, Events;
    if n == 0 {
      items := [];
    } else {
      var first := DecodedIsEncoded(input, i, tags);
      var rest := ItemsAreEncoded(input, DecodeAt(input, i, tags).value.next, n - 1, tags);
      Together(input, i, Encode(first, tags), EncodeItems(rest, tags));
      items := [first] + rest;
      assert items[1..] == rest;
    }
  }

  lemma {:induction false} OpenItemsAreEncoded(input: seq<Byte>, i: nat, tags: TagHandler) returns (items: seq<Item>)
    requires i <= |input| && ItemsUntilBreak(input, i, tags).Some?
    ensures (forall x :: x in items ==> Accepts(x, tags)) && Stands(input, i, EncodeItems(items, tags) + [0xFF])
    ensures ItemsUntilBreak(input, i, tags).value == Decoded(ItemEvents(items, tags), i + |EncodeItems(items, tags)| + 1)
    decreases |input| - i, 4
  {
    hide DecodeAt, Accepts, Encode, Events, Stands;
    if input[i] == 0xFF {
      OneByte(input, i);
      items := [];
      assert EncodeItems([], tags) + [0xFF] == [0xFF];
    } else {
      var first := DecodedIsEncoded(input, i, tags);
      var rest := OpenItemsAreEncoded(input, DecodeAt(input, i, tags).value.next, tags);
      Together(input, i, Encode(first, tags), EncodeItems(rest, tags) + [0xFF]);
      items := [first] + rest;
      assert items[1..] == rest;
      assert Encode(first, tags) + (EncodeItems(rest, tags) + [0xFF]) == EncodeItems(items, tags) + [0xFF];
    }
  }

  lemma {:induction false} MapIsEncoded(input: seq<Byte>, i: nat, tags: TagHandler) returns (item: Item)
    requires i < |input| && IsContainerHead(input[i]) && 0x9F < input[i] && DecodeAt(input, i, tags).Some?
    ensures IsItemAt(input, i, item, tags, DecodeAt(input, i, tags).value)
    decreases |input| - i, 2
  {
    hide DecodeAt, EntriesAt, EntriesUntilBreak, Stands, Head, EncodeEntries, EntryEvents, OpeningBytes, AcceptsEntry;
    var next, len, w, opening := ReadContainerHead(input, i, tags);
    if len != UNKNOWN_SIZE {
      var entries := EntriesAreEncoded(input, next, len, tags);
      Together(input, i, Head(5, w, len), EncodeEntries(entries, tags));
      item := MapItem(w, entries);
    } else {
      var entries := OpenEntriesAreEncoded(input, next, tags);
      Together(input, i, OpeningBytes(5, opening), EncodeEntries(entries, tags) + [0xFF]);
      item := OpenMap(opening, entries);
    }
  }

  lemma {:induction false} EntryIsEncoded(input: seq<Byte>, i: nat, tags: TagHandler) returns (e: Entry)
    requires i <= |input| && EntryAt(input, i, tags).Some?
    ensures AcceptsEntry(e, tags) && Stands(input, i, EncodeEntry(e, tags))
    ensures EntryAt(input, i, tags).value == Decoded(EventsOfEntry(e, tags), i + |EncodeEntry(e, tags)|)
    decreases |input| - i, 3
  {
    hide DecodeAt, StringAt, Accepts, Encode, Events, Stands, EncodeString, ValidString, BytesOf;
    var key := ReadStringIsEncoded(input, i, 3);
    var value := DecodedIsEncoded(input, StringAt(input, i, 0x60).value.next, tags);
    Together(input, i, EncodeString(3, key), Encode(value, tags));
    e := Entry(key, value);
  }

  lemma {:induction false} EntriesAreEncoded(input: seq<Byte>, i: nat, n: nat, tags: TagHandler) returns (entries: seq<Entry>)
    requires i <= |input| && EntriesAt(input, i, n, tags).Some?
    ensures |entries| == n && AreEntriesAt(input, i, entries, tags, EntriesAt(input, i, n, tags).value)
    decreases |input| - i, 4, n
  {
    hide EntryAt, AcceptsEntry, EncodeEntry, EventsOfEntry;
    if n == 0 {
      entries := [];
    } else {
      var first := EntryIsEncoded(input, i, tags);
      var rest := EntriesAreEncoded(input, EntryAt(input, i, tags).value.next, n - 1, tags);
      Together(input, i, EncodeEntry(first, tags), EncodeEntries(rest, tags));
      entries := [first] + rest;
      assert entries[1..] == rest;
    }
  }

  lemma {:induction false} OpenEntriesAreEncoded(input: seq<Byte>, i: nat, tags: TagHandler) returns (entries: seq<Entry>)
    requires i <= |input| && EntriesUntilBreak(input, i, tags).Some?
    ensures (forall e :: e in entries ==> AcceptsEntry(e, tags)) && Stands(input, i, EncodeEntries(entries, tags) + [0xFF])
    ensures EntriesUntilBreak(input, i, tags).value == Decoded(EntryEvents(entries, tags), i + |EncodeEntries(entries, tags)| + 1)
    decreases |input| - i, 4
  {
    hide EntryAt, AcceptsEntry, EncodeEntry, EventsOfEntry, Stands;
    if input[i] == 0xFF {
      OneByte(input, i);
      entries := [];
      assert EncodeEntries([], tags) + [0xFF] == [0xFF];
    } else {
      var first := EntryIsEncoded(input, i, tags);
      var rest := OpenEntriesAreEncoded(input, EntryAt(input, i, tags).value.next, tags);
      Together(input, i, EncodeEntry(first, tags), EncodeEntries(rest, tags) + [0xFF]);
      entries := [first] + rest;
      assert entries[1..] == rest;
      assert EncodeEntry(first, tags) + (EncodeEntries(rest, tags) + [0xFF]) == EncodeEntries(entries, tags) + [0xFF];
    }
  }

  // --- exactly the encodings decode ---

  /** Bytes decode if and only if an encoding stands there, and then to the events of whatever item it encodes. */
  lemma ExactlyEncodingsDecode(input: seq<Byte>, i: nat, tags: TagHandler)
    requires i <= |input|
    ensures DecodeAt(input, i, tags).Some? <==> exists item :: Accepts(item, tags) && Stands(input, i, Encode(item, tags))
    ensures forall item :: Accepts(item, tags) && Stands(input, i, Encode(item, tags)) ==>
      DecodeAt(input, i, tags) == Some(Decoded(Events(item, tags), i + |Encode(item, tags)|))
  {
    hide DecodeAt, Accepts, Encode, Events, Stands;
    if DecodeAt(input, i, tags).Some? {
      var item := DecodedIsEncoded(input, i, tags);
      assert Accepts(item, tags) && Stands(input, i, Encode(item, tags));
    }
    forall item | Accepts(item, tags) && Stands(input, i, Encode(item, tags))
      ensures DecodeAt(input, i, tags) == Some(Decoded(Events(item, tags), i + |Encode(item, tags)|))
    {
      EncodingIsDecoded(input, i, item, tags);
    }
  }

  // --- the standard form of an item ---

  /** The pieces of a string, whatever the nesting of its chunks. */
  function Pieces(s: ByteString): (pieces: seq<ByteString>)
    ensures forall p :: p in pieces ==> p.Definite?
  {
    match s
    case Definite(_, _) => [s]
    case Chunked(chunks) => AllPieces(chunks)
  }

  function AllPieces(chunks: seq<ByteString>): (pieces: seq<ByteString>)
    ensures forall p :: p in pieces ==> p.Definite?
  {
    if chunks == [] then [] else Pieces(chunks[0]) + AllPieces(chunks[1..])
  }

  function StandardString(s: ByteString): ByteString {
    if s.Definite? then s else Chunked(Pieces(s))
  }

  lemma {:induction false} ChunkBytesAppend(a: seq<ByteString>, b: seq<ByteString>)
    ensures ChunkBytes(a + b) == ChunkBytes(a) + ChunkBytes(b)
    decreases |a|
  {
    if a == [] {
      assert a + b == b;
    } else {
      assert (a + b)[1..] == a[1..] + b;
      ChunkBytesAppend(a[1..], b);
    }
  }

  lemma {:induction false} PiecesAreTheString(s: ByteString)
    requires ValidString(s)
    ensures (forall p :: p in Pieces(s) ==> ValidString(p)) && ChunkBytes(Pieces(s)) == BytesOf(s)
    decreases s, 1
  {
    match s
    case Definite(_, data) =>
      assert [s][1..] == [] && data + [] == data;
    case Chunked(chunks) => AllPiecesAreTheChunks(chunks);
  }

  lemma {:induction false} AllPiecesAreTheChunks(chunks: seq<ByteString>)
    requires forall c :: c in chunks ==> ValidString(c)
    ensures (forall p :: p in AllPieces(chunks) ==> ValidString(p)) && ChunkBytes(AllPieces(chunks)) == ChunkBytes(chunks)
    decreases chunks, |chunks|
  {
    if chunks != [] {
      PiecesAreTheString(chunks[0]);
      AllPiecesAreTheChunks(chunks[1..]);
      ChunkBytesAppend(Pieces(chunks[0]), AllPieces(chunks[1..]));
    }
  }

  lemma StandardStringIsTheString(s: ByteString)
    requires ValidString(s)
    ensures ValidString(StandardString(s)) && IsStandardString(StandardString(s)) && BytesOf(StandardString(s)) == BytesOf(s)
  {
    PiecesAreTheString(s);
  }

  /** The same item with strings in at most one level of chunks and containers opened as the standard says. */
  function StandardForm(item: Item): Item {
    match item
    case Bytes(s) => Bytes(StandardString(s))
    case Text(s) => Text(StandardString(s))
    case ArrayItem(w, items) => ArrayItem(w, StandardForms(items))
    case OpenArray(_, items) => OpenArray(Indefinite, StandardForms(items))
    case MapItem(w, entries) => MapItem(w, StandardEntries(entries))
    case OpenMap(_, entries) => OpenMap(Indefinite, StandardEntries(entries))
    case Tagged(w, tag, inner) => Tagged(w, tag, StandardForm(inner))
    case _ => item
  }

  function StandardForms(items: seq<Item>): (forms: seq<Item>)
    ensures |forms| == |items|
  {
    if items == [] then [] else [StandardForm(items[0])] + StandardForms(items[1..])
  }

  function StandardEntries(entries: seq<Entry>): (forms: seq<Entry>)
    ensures |forms| == |entries|
  {
    if entries == [] then [] else [StandardEntry(entries[0])] + StandardEntries(entries[1..])
  }

  function StandardEntry(e: Entry): Entry {
    Entry(StandardString(e.key), StandardForm(e.value))
  }

  /** The standard form of an accepted item is accepted, is an item of RFC 8949, and has the same events. */
  lemma {:induction false} StandardFormIsTheItem(item: Item, tags: TagHandler)
    requires Accepts(item, tags)
    ensures Accepts(StandardForm(item), tags) && IsStandard(StandardForm(item))
    ensures Events(StandardForm(item), tags) == Events(item, tags)
    decreases item, 1
  {
    hide StandardString, ValidString, BytesOf, IsStandardString, StandardForms, StandardEntries, ItemEvents, EntryEvents, AcceptsEntry;
    match item
    case Bytes(s) => StandardStringIsTheString(s);
    case Text(s) => StandardStringIsTheString(s);
    case ArrayItem(_, items) => StandardFormsAreTheItems(items, tags);
    case OpenArray(_, items) => StandardFormsAreTheItems(items, tags);
    case MapItem(_, entries) => StandardEntriesAreTheEntries(entries, tags);
    case OpenMap(_, entries) => StandardEntriesAreTheEntries(entries, tags);
    case Tagged(_, _, inner) =>
      StandardFormIsTheItem(inner, tags);
      if inner.Bytes? {
        StandardStringIsTheString(inner.s);
      }
    case _ =>
  }

  lemma {:induction false} StandardFormsAreTheItems(items: seq<Item>, tags: TagHandler)
    requires forall x :: x in items ==> Accepts(x, tags)
    ensures forall x :: x in StandardForms(items) ==> Accepts(x, tags) && IsStandard(x)
    ensures ItemEvents(StandardForms(items), tags) == ItemEvents(items, tags)
    decreases items, |items|
  {
    hide Accepts, IsStandard, Events, StandardForm;
    if items != [] {
      StandardFormIsTheItem(items[0], tags);
      StandardFormsAreTheItems(items[1..], tags);
    }
  }

  lemma {:induction false} StandardEntriesAreTheEntries(entries: seq<Entry>, tags: TagHandler)
    requires forall e :: e in entries ==> AcceptsEntry(e, tags)
    ensures forall e :: e in StandardEntries(entries) ==> AcceptsEntry(e, tags) && IsStandardString(e.key) && IsStandard(e.value)
    ensures EntryEvents(StandardEntries(entries), tags) == EntryEvents(entries, tags)
    decreases entries, |entries|
  {
    hide Accepts, AcceptsEntry, IsStandard, EventsOfEntry, StandardEntry, IsStandardString;
    if entries != [] {
      StandardEntryIsTheEntry(entries[0], tags);
      StandardEntriesAreTheEntries(entries[1..], tags);
    }
  }

  lemma {:induction false} StandardEntryIsTheEntry(e: Entry, tags: TagHandler)
    requires AcceptsEntry(e, tags)
    ensures var form := StandardEntry(e);
            AcceptsEntry(form, tags) && IsStandardString(form.key) && IsStandard(form.value)
            && EventsOfEntry(form, tags) == EventsOfEntry(e, tags)
    decreases e, 0
  {
    hide Accepts, IsStandard, Events, StandardForm, StandardString, IsStandardString, ValidString, BytesOf;
    StandardStringIsTheString(e.key);
    StandardFormIsTheItem(e.value, tags);
  }

  /** Whatever decodes, its events are those of an item of sections 3.1 and 3.2 of RFC 8949. */
  lemma DecodedIsStandardItem(input: seq<Byte>, i: nat, tags: TagHandler) returns (item: Item)
    requires i <= |input| && DecodeAt(input, i, tags).Some?
    ensures Accepts(item, tags) && IsStandard(item) && DecodeAt(input, i, tags).value.events == Events(item, tags)
  {
    hide DecodeAt, Accepts, IsStandard, Events, Stands, Encode, StandardForm;
    var encoded := DecodedIsEncoded(input, i, tags);
    StandardFormIsTheItem(encoded, tags);
    item := StandardForm(encoded);
  }

  // --- tags ---

  /** The first byte of an encoding shows whether it is a byte string. */
  lemma FirstByte(item: Item, tags: TagHandler)
    requires Accepts(item, tags)
    ensures Encode(item, tags) != [] && (Encode(item, tags)[0] / 0x20 == 2 <==> item.Bytes?)
  {
    hide EncodeItems, EncodeEntries, EncodeChunks, BigEndian;
  }

  lemma UnknownTag(input: seq<Byte>, i: nat, tags: TagHandler)
    requires i < |input| && input[i] / 0x20 == 6 && (tags.Error? || !IsTag(input[i]))
    ensures DecodeAt(input, i, tags).None?
  {
    hide StringAt, ArgumentAt, ArrayAt, ObjectAt;
  }

  lemma NoByteString(input: seq<Byte>, i: nat)
    requires i < |input| && input[i] / 0x20 != 2
    ensures StringAt(input, i, 0x40).None?
  {
    hide ChunksAt, ArgumentAt;
  }

  /**
   * A tagged item is decoded exactly if tags are not errors, a tag in the initial byte is one of 6 to 20, and a tag that
   * is to be stored stands before a byte string. When tags are ignored only the second condition is left.
   */
  lemma TagIsDecodedIff(w: Width, tag: nat, inner: Item, rest: seq<Byte>, tags: TagHandler)
    requires tag < w.Limit() && Accepts(inner, tags)
    ensures DecodeAt(Head(6, w, tag) + Encode(inner, tags) + rest, 0, tags).Some? <==>
      !tags.Error? && (w.Immediate? ==> 6 <= tag <= 20) && (tags.Store? && !w.Immediate? ==> inner.Bytes?)
  {
    hide DecodeAt, Head, Encode, Accepts, Events, StringAt, ArgumentAt;
    var head, code := Head(6, w, tag), Encode(inner, tags);
    var input := head + code + rest;
    TaggedIf(w, tag, inner, tags);
    assert input[0..|head|] == head && input[|head|..|head| + |code|] == code;
    HeadStands(input, 0, 6, w, tag);
    if AcceptsTag(w, tag, inner, tags) {
      TaggedParts(w, tag, inner, tags);
      assert input[0..|head + code|] == head + code;
      EncodingIsDecoded(input, 0, Tagged(w, tag, inner), tags);
    } else if tags.Error? || (w.Immediate? && !(6 <= tag <= 20)) {
      UnknownTag(input, 0, tags);
    } else {
      TagHead(input, 0, tags);
      FirstByte(inner, tags);
      assert input[|head|] == input[|head|..|head| + |code|][0];
      NoByteString(input, |head|);
    }
  }

  /** Tag 0 before null, when tags are ignored: refused in the initial byte, accepted in a byte of its own. */
  lemma TagZeroIsRefusedInOneByte()
    ensures DecodeAt([0xC0, 0xF6], 0, Ignore).None?
    ensures DecodeAt([0xD8, 0x00, 0xF6], 0, Ignore) == Some(Decoded([NullEvent], 3))
  {
    hide DecodeAt;
    UnknownTag([0xC0, 0xF6], 0, Ignore);
    var item := Tagged(Width.One, 0, Null);
    assert BigEndian(0, 1) == [0];
    assert Encode(item, Ignore) == [0xD8, 0x00, 0xF6];
    EncodingIsDecoded([0xD8, 0x00, 0xF6], 0, item, Ignore);
  }

  // --- negative integers ---

  /** Major type 1 is decoded to the number it stands for (section 3.1 of RFC 8949) exactly if that is an int64. */
  lemma NegativeIsDecodedIff(w: Width, n: nat, rest: seq<Byte>, tags: TagHandler)
    requires n < w.Limit()
    ensures DecodeAt(Head(1, w, n) + rest, 0, tags) == Some(Decoded([IntegerEvent(-1 - n)], 1 + w.Bytes()))
       <==> n < 0x8000_0000_0000_0000
    ensures DecodeAt(Head(1, w, n) + rest, 0, tags).Some?
  {
    hide DecodeAt, Head;
    DecodedFromTheStart(Negative(w, n), rest, tags);
    NegativeIsExactIfInRange(n);
  }

  lemma LargeNumberInBytes()
    ensures BigEndian(0x8000_0000_0000_0000, 8) == [0x80, 0, 0, 0, 0, 0, 0, 0]
  {
    hide BigEndian;
    NoBigEndian(0);
    BigEndianStep(0x80, 0);
    BigEndianStep(0x8000, 1);
    BigEndianStep(0x80_0000, 2);
    BigEndianStep(0x8000_0000, 3);
    BigEndianStep(0x80_0000_0000, 4);
    BigEndianStep(0x8000_0000_0000, 5);
    BigEndianStep(0x80_0000_0000_0000, 6);
    BigEndianStep(0x8000_0000_0000_0000, 7);
  }

  /** 3B 80 00 00 00 00 00 00 00 stands for -2^63 - 1 and comes out as 2^63 - 1. */
  lemma NegativeWraps(tags: TagHandler)
    ensures DecodeAt([0x3B, 0x80, 0, 0, 0, 0, 0, 0, 0], 0, tags) == Some(Decoded([IntegerEvent(0x7FFF_FFFF_FFFF_FFFF)], 9))
  {
    hide DecodeAt, BigEndian;
    var item, code := Negative(Eight, 0x8000_0000_0000_0000), [0x3B, 0x80, 0, 0, 0, 0, 0, 0, 0];
    LargeNumberInBytes();
    assert Encode(item, tags) == code && code + [] == code;
    DecodedFromTheStart(item, [], tags);
  }

  lemma OneChunk(c: ByteString)
    requires ValidString(c)
    ensures ValidString(Chunked([c]))
    ensures EncodeString(2, Chunked([c])) == [0x5F] + EncodeString(2, c) + [0xFF] && BytesOf(Chunked([c])) == BytesOf(c)
  {
    hide EncodeString, BytesOf, ValidString;
    var chunks := [c];
    assert chunks[1..] == [];
    ChunksAreValid(chunks);
    OneChunkEncoded(chunks);
  }

  lemma OneChunkEncoded(chunks: seq<ByteString>)
    requires |chunks| == 1 && ValidString(chunks[0]) && ValidString(Chunked(chunks))
    ensures EncodeString(2, Chunked(chunks)) == [0x5F] + EncodeString(2, chunks[0]) + [0xFF]
    ensures BytesOf(Chunked(chunks)) == BytesOf(chunks[0])
  {
    var rest := chunks[1..];
    assert rest == [];
    assert EncodeChunks(2, rest) == [0xFF] && ChunkBytes(rest) == [];
    assert EncodeChunks(2, chunks) == EncodeString(2, chunks[0]) + EncodeChunks(2, rest);
    assert ChunkBytes(chunks) == BytesOf(chunks[0]) + ChunkBytes(rest);
  }

  /** 5F 5F 41 00 FF FF, a chunk with a chunk, comes out as one byte. */
  lemma NestedChunksAreDecoded(tags: TagHandler)
    ensures DecodeAt([0x5F, 0x5F, 0x41, 0x00, 0xFF, 0xFF], 0, tags) == Some(Decoded([BinaryEvent([0], None)], 6))
    ensures !IsStandard(Bytes(Chunked([Chunked([Definite(Immediate, [0])])])))
  {
    hide DecodeAt, EncodeChunks, ChunkBytes;
    var piece: ByteString := Definite(Immediate, [0]);
    assert BigEndian(1, 0) == [] && EncodeString(2, piece) == [0x41, 0x00];
    OneChunk(piece);
    OneChunk(Chunked([piece]));
    var item, code := Bytes(Chunked([Chunked([piece])])), [0x5F, 0x5F, 0x41, 0x00, 0xFF, 0xFF];
    assert Encode(item, tags) == code && code + [] == code;
    DecodedFromTheStart(item, [], tags);
  }

  // --- short codes, most of them from appendix A of RFC 8949 ---

  /** The item's encoding is this code, so the code alone decodes to the item's events. */
  lemma ExampleIsDecoded(item: Item, code: seq<Byte>, tags: TagHandler)
    requires Accepts(item, tags) && Encode(item, tags) == code
    ensures DecodeAt(code, 0, tags) == Some(Decoded(Events(item, tags), |code|))
  {
    hide DecodeAt, Encode, Events, Accepts;
    assert code + [] == code;
    DecodedFromTheStart(item, [], tags);
  }

  lemma SmallHead(major: nat, n: nat)
    requires major < 8 && n < 24
    ensures Head(major, Immediate, n) == [major * 0x20 + n]
  {
  }

  lemma HeadOfOne(major: nat, n: nat)
    requires major < 8 && n < 0x100
    ensures Head(major, Width.One, n) == [major * 0x20 + 24, n]
  {
    hide BigEndian;
    NoBigEndian(0);
    BigEndianStep(n, 0);
  }

  lemma UnsignedExample(w: Width, n: nat, code: seq<Byte>, tags: TagHandler)
    requires n < w.Limit() && code == Head(0, w, n)
    ensures DecodeAt(code, 0, tags) == Some(Decoded([UnsignedEvent(n)], |code|))
  {
    hide DecodeAt, Head;
    ExampleIsDecoded(Unsigned(w, n), code, tags);
  }

  lemma NegativeExample(w: Width, n: nat, code: seq<Byte>, tags: TagHandler)
    requires n < w.Limit() && n < 0x8000_0000_0000_0000 && code == Head(1, w, n)
    ensures DecodeAt(code, 0, tags) == Some(Decoded([IntegerEvent(-1 - n)], |code|))
  {
    hide DecodeAt, Head;
    ExampleIsDecoded(Negative(w, n), code, tags);
  }

  /** 0, 23, 24, 100, -1 and -100. */
  lemma StandardIntegers(tags: TagHandler)
    ensures DecodeAt([0x00], 0, tags) == Some(Decoded([UnsignedEvent(0)], 1))
    ensures DecodeAt([0x17], 0, tags) == Some(Decoded([UnsignedEvent(23)], 1))
    ensures DecodeAt([0x18, 0x18], 0, tags) == Some(Decoded([UnsignedEvent(24)], 2))
    ensures DecodeAt([0x18, 0x64], 0, tags) == Some(Decoded([UnsignedEvent(100)], 2))
    ensures DecodeAt([0x20], 0, tags) == Some(Decoded([IntegerEvent(-1)], 1))
    ensures DecodeAt([0x38, 0x63], 0, tags) == Some(Decoded([IntegerEvent(-100)], 2))
  {
    hide DecodeAt, Head;
    SmallHead(0, 0);
    SmallHead(0, 23);
    HeadOfOne(0, 24);
    HeadOfOne(0, 100);
    SmallHead(1, 0);
    HeadOfOne(1, 99);
    UnsignedExample(Immediate, 0, [0x00], tags);
    UnsignedExample(Immediate, 23, [0x17], tags);
    UnsignedExample(Width.One, 24, [0x18, 0x18], tags);
    UnsignedExample(Width.One, 100, [0x18, 0x64], tags);
    NegativeExample(Immediate, 0, [0x20], tags);
    NegativeExample(Width.One, 99, [0x38, 0x63], tags);
  }

  /** false, true and null. */
  lemma StandardSimpleValues(tags: TagHandler)
    ensures DecodeAt([0xF4], 0, tags) == Some(Decoded([BooleanEvent(false)], 1))
    ensures DecodeAt([0xF5], 0, tags) == Some(Decoded([BooleanEvent(true)], 1))
    ensures DecodeAt([0xF6], 0, tags) == Some(Decoded([NullEvent], 1))
  {
    hide DecodeAt;
    ExampleIsDecoded(False, [0xF4], tags);
    ExampleIsDecoded(True, [0xF5], tags);
    ExampleIsDecoded(Null, [0xF6], tags);
  }

  lemma WideHeads()
    ensures Head(0, Two, 1000) == [0x19, 0x03, 0xE8]
    ensures Head(0, Four, 1000000) == [0x1A, 0x00, 0x0F, 0x42, 0x40]
    ensures Head(7, Two, 0x3C00) == [0xF9, 0x3C, 0x00]
  {
    hide BigEndian;
    NoBigEndian(0);
    BigEndianStep(0x3C, 0);
    BigEndianStep(0x3C00, 1);
    BigEndianStep(0x03, 0);
    BigEndianStep(0x03E8, 1);
    BigEndianStep(0x00, 0);
    BigEndianStep(0x0F, 1);
    BigEndianStep(0x0F42, 2);
    BigEndianStep(0x0F_4240, 3);
  }

  lemma WidestHead()
    ensures Head(0, Eight, 1000000000000) == [0x1B, 0x00, 0x00, 0x00, 0xE8, 0xD4, 0xA5, 0x10, 0x00]
  {
    hide BigEndian;
    NoBigEndian(0);
    BigEndianStep(0x00, 0);
    BigEndianStep(0x00, 1);
    BigEndianStep(0x00, 2);
    BigEndianStep(0xE8, 3);
    BigEndianStep(0xE8D4, 4);
    BigEndianStep(0xE8_D4A5, 5);
    BigEndianStep(0xE8D4_A510, 6);
    BigEndianStep(0xE8_D4A5_1000, 7);
  }

  /** 1000, 1000000 and 1000000000000, whose bytes stand highest first, and the bits of 1.0 in two bytes. */
  lemma StandardWideNumbers(tags: TagHandler)
    ensures DecodeAt([0x19, 0x03, 0xE8], 0, tags) == Some(Decoded([UnsignedEvent(1000)], 3))
    ensures DecodeAt([0x1A, 0x00, 0x0F, 0x42, 0x40], 0, tags) == Some(Decoded([UnsignedEvent(1000000)], 5))
    ensures DecodeAt([0x1B, 0x00, 0x00, 0x00, 0xE8, 0xD4, 0xA5, 0x10, 0x00], 0, tags) ==
              Some(Decoded([UnsignedEvent(1000000000000)], 9))
    ensures DecodeAt([0xF9, 0x3C, 0x00], 0, tags) == Some(Decoded([FloatEvent(0x3C00, 2)], 3))
  {
    hide DecodeAt, Head;
    WideHeads();
    ExampleIsDecoded(FloatItem(Two, 0x3C00), [0xF9, 0x3C, 0x00], tags);
    WidestHead();
    UnsignedExample(Two, 1000, [0x19, 0x03, 0xE8], tags);
    UnsignedExample(Four, 1000000, [0x1A, 0x00, 0x0F, 0x42, 0x40], tags);
    UnsignedExample(Eight, 1000000000000, [0x1B, 0x00, 0x00, 0x00, 0xE8, 0xD4, 0xA5, 0x10, 0x00], tags);
  }

  /** The byte string 01 02 and the text "a". */
  lemma StandardStrings(tags: TagHandler)
    ensures DecodeAt([0x42, 0x01, 0x02], 0, tags) == Some(Decoded([BinaryEvent([0x01, 0x02], None)], 3))
    ensures DecodeAt([0x61, 0x61], 0, tags) == Some(Decoded([StringEvent([0x61])], 2))
  {
    hide DecodeAt, Head;
    SmallHead(2, 2);
    SmallHead(3, 1);
    ExampleIsDecoded(Bytes(Definite(Immediate, [0x01, 0x02])), [0x42, 0x01, 0x02], tags);
    ExampleIsDecoded(Text(Definite(Immediate, [0x61])), [0x61, 0x61], tags);
  }

  /** [] and {}, with a length and without one. */
  lemma StandardEmptyContainers(tags: TagHandler)
    ensures DecodeAt([0x80], 0, tags) == Some(Decoded([StartArrayEvent(0), EndArrayEvent], 1))
    ensures DecodeAt([0xA0], 0, tags) == Some(Decoded([StartObjectEvent(0), EndObjectEvent], 1))
    ensures DecodeAt([0x9F, 0xFF], 0, tags) == Some(Decoded([StartArrayEvent(UNKNOWN_SIZE), EndArrayEvent], 2))
    ensures DecodeAt([0xBF, 0xFF], 0, tags) == Some(Decoded([StartObjectEvent(UNKNOWN_SIZE), EndObjectEvent], 2))
  {
    hide DecodeAt, Encode, Events;
    EmptyContainers(tags);
    ExampleIsDecoded(ArrayItem(Immediate, []), [0x80], tags);
    ExampleIsDecoded(MapItem(Immediate, []), [0xA0], tags);
    ExampleIsDecoded(OpenArray(Indefinite, []), [0x9F, 0xFF], tags);
    ExampleIsDecoded(OpenMap(Indefinite, []), [0xBF, 0xFF], tags);
  }

  lemma EmptyContainers(tags: TagHandler)
    ensures Encode(ArrayItem(Immediate, []), tags) == [0x80] && Encode(MapItem(Immediate, []), tags) == [0xA0]
    ensures Encode(OpenArray(Indefinite, []), tags) == [0x9F, 0xFF] && Encode(OpenMap(Indefinite, []), tags) == [0xBF, 0xFF]
    ensures Events(ArrayItem(Immediate, []), tags) == [StartArrayEvent(0), EndArrayEvent]
    ensures Events(MapItem(Immediate, []), tags) == [StartObjectEvent(0), EndObjectEvent]
    ensures Events(OpenArray(Indefinite, []), tags) == [StartArrayEvent(UNKNOWN_SIZE), EndArrayEvent]
    ensures Events(OpenMap(Indefinite, []), tags) == [StartObjectEvent(UNKNOWN_SIZE), EndObjectEvent]
  {
    hide Head;
    SmallHead(4, 0);
    SmallHead(5, 0);
    assert [EndArrayEvent] == [] + [EndArrayEvent] && [EndObjectEvent] == [] + [EndObjectEvent];
  }

  lemma OneMember(e: Entry, tags: TagHandler)
    requires AcceptsEntry(e, tags)
    ensures EncodeEntries([e], tags) == EncodeString(3, e.key) + Encode(e.value, tags)
    ensures EntryEvents([e], tags) == [KeyEvent(BytesOf(e.key))] + Events(e.value, tags)
  {
    hide EncodeString, BytesOf, Events, Encode;
    assert [e][1..] == [];
  }

  /** {"a": 0} */
  lemma StandardMap(tags: TagHandler)
    ensures DecodeAt([0xA1, 0x61, 0x61, 0x00], 0, tags) ==
              Some(Decoded([StartObjectEvent(1), KeyEvent([0x61]), UnsignedEvent(0), EndObjectEvent], 4))
  {
    hide DecodeAt, Head, EncodeEntries, EntryEvents;
    SmallHead(5, 1);
    SmallHead(3, 1);
    SmallHead(0, 0);
    var e := Entry(Definite(Immediate, [0x61]), Unsigned(Immediate, 0));
    OneMember(e, tags);
    assert EncodeString(3, e.key) == [0x61, 0x61] && Encode(e.value, tags) == [0x00];
    assert EntryEvents([e], tags) == [KeyEvent([0x61]), UnsignedEvent(0)];
    assert Events(MapItem(Immediate, [e]), tags) ==
      [StartObjectEvent(1), KeyEvent([0x61]), UnsignedEvent(0), EndObjectEvent];
    hide Events;
    ExampleIsDecoded(MapItem(Immediate, [e]), [0xA1, 0x61, 0x61, 0x00], tags);
  }

  lemma ChunksStep(chunks: seq<ByteString>)
    requires chunks != [] && forall c :: c in chunks ==> ValidString(c)
    ensures EncodeChunks(2, chunks) == EncodeString(2, chunks[0]) + EncodeChunks(2, chunks[1..])
    ensures ChunkBytes(chunks) == BytesOf(chunks[0]) + ChunkBytes(chunks[1..])
    ensures EncodeChunks(2, []) == [0xFF] && ChunkBytes([]) == []
  {
    hide EncodeString, BytesOf, ValidString;
  }

  lemma TwoChunks(a: ByteString, b: ByteString)
    requires ValidString(a) && ValidString(b)
    ensures ValidString(Chunked([a, b]))
    ensures EncodeString(2, Chunked([a, b])) == [0x5F] + EncodeString(2, a) + EncodeString(2, b) + [0xFF]
    ensures BytesOf(Chunked([a, b])) == BytesOf(a) + BytesOf(b)
  {
    var chunks, last := [a, b], [b];
    ChunksAreValid(chunks);
    assert chunks[1..] == last && last[1..] == [];
    hide EncodeChunks, ChunkBytes, ValidString;
    ChunksStep(chunks);
    ChunksStep(last);
    WholeChunked(chunks);
    hide EncodeString, BytesOf;
    Flat(EncodeString(2, a), EncodeString(2, b), BytesOf(a), BytesOf(b));
  }

  lemma Flat(a: seq<Byte>, b: seq<Byte>, c: seq<Byte>, d: seq<Byte>)
    ensures [0x5F] + (a + (b + [0xFF])) == [0x5F] + a + b + [0xFF]
    ensures c + (d + []) == c + d
  {
  }

  lemma WholeChunked(chunks: seq<ByteString>)
    requires ValidString(Chunked(chunks)) && forall c :: c in chunks ==> ValidString(c)
    ensures EncodeString(2, Chunked(chunks)) == [0x5F] + EncodeChunks(2, chunks)
    ensures BytesOf(Chunked(chunks)) == ChunkBytes(chunks)
  {
    hide EncodeChunks, ChunkBytes;
  }

  /** The chunks 01 02 and 03 04 05 are joined in order. */
  lemma StandardChunks(tags: TagHandler)
    ensures DecodeAt([0x5F, 0x42, 0x01, 0x02, 0x43, 0x03, 0x04, 0x05, 0xFF], 0, tags) ==
              Some(Decoded([BinaryEvent([0x01, 0x02, 0x03, 0x04, 0x05], None)], 9))
  {
    hide DecodeAt, Head, EncodeChunks, ChunkBytes;
    SmallHead(2, 2);
    SmallHead(2, 3);
    var a, b := Definite(Immediate, [0x01, 0x02]), Definite(Immediate, [0x03, 0x04, 0x05]);
    assert EncodeString(2, a) == [0x42, 0x01, 0x02] && EncodeString(2, b) == [0x43, 0x03, 0x04, 0x05];
    TwoChunks(a, b);
    hide EncodeString, BytesOf, ValidString;
    assert BytesOf(Chunked([a, b])) == [0x01, 0x02, 0x03, 0x04, 0x05] by {
      assert BytesOf(a) == [0x01, 0x02] && BytesOf(b) == [0x03, 0x04, 0x05] by {
        PieceBytes(a);
        PieceBytes(b);
      }
    }
    ExampleIsDecoded(Bytes(Chunked([a, b])), [0x5F, 0x42, 0x01, 0x02, 0x43, 0x03, 0x04, 0x05, 0xFF], tags);
  }

  lemma PieceBytes(s: ByteString)
    requires s.Definite?
    ensures BytesOf(s) == s.data
  {
  }

  lemma TwoItems(a: Item, b: Item, tags: TagHandler)
    requires Accepts(a, tags) && Accepts(b, tags)
    ensures EncodeItems([a, b], tags) == Encode(a, tags) + Encode(b, tags)
    ensures ItemEvents([a, b], tags) == Events(a, tags) + Events(b, tags)
  {
    hide Accepts, Encode, Events;
    var items, last := [a, b], [b];
    assert items[1..] == last && last[1..] == [];
    assert EncodeItems(last, tags) == Encode(b, tags) + [] == Encode(b, tags);
    assert ItemEvents(last, tags) == Events(b, tags) + [] == Events(b, tags);
  }

  /** [1, 2] with a length and up to a break. */
  lemma StandardArrays(tags: TagHandler)
    ensures DecodeAt([0x82, 0x01, 0x02], 0, tags) ==
              Some(Decoded([StartArrayEvent(2), UnsignedEvent(1), UnsignedEvent(2), EndArrayEvent], 3))
    ensures DecodeAt([0x9F, 0x01, 0x02, 0xFF], 0, tags) ==
              Some(Decoded([StartArrayEvent(UNKNOWN_SIZE), UnsignedEvent(1), UnsignedEvent(2), EndArrayEvent], 4))
  {
    hide DecodeAt, Head, EncodeItems, ItemEvents;
    SmallHead(4, 2);
    SmallHead(0, 1);
    SmallHead(0, 2);
    var a, b := Unsigned(Immediate, 1), Unsigned(Immediate, 2);
    TwoItems(a, b, tags);
    assert EncodeItems([a, b], tags) == [0x01, 0x02];
    assert ItemEvents([a, b], tags) == [UnsignedEvent(1), UnsignedEvent(2)];
    assert Events(ArrayItem(Immediate, [a, b]), tags) ==
      [StartArrayEvent(2), UnsignedEvent(1), UnsignedEvent(2), EndArrayEvent];
    assert Events(OpenArray(Indefinite, [a, b]), tags) ==
      [StartArrayEvent(UNKNOWN_SIZE), UnsignedEvent(1), UnsignedEvent(2), EndArrayEvent];
    hide Events;
    ExampleIsDecoded(ArrayItem(Immediate, [a, b]), [0x82, 0x01, 0x02], tags);
    ExampleIsDecoded(OpenArray(Indefinite, [a, b]), [0x9F, 0x01, 0x02, 0xFF], tags);
  }

  /** Tag 42 before the byte string 01, stored as a subtype or ignored. */
  lemma StandardTag()
    ensures DecodeAt([0xD8, 0x2A, 0x41, 0x01], 0, Store) == Some(Decoded([BinaryEvent([0x01], Some(42))], 4))
    ensures DecodeAt([0xD8, 0x2A, 0x41, 0x01], 0, Ignore) == Some(Decoded([BinaryEvent([0x01], None)], 4))
  {
    hide DecodeAt, Head;
    HeadOfOne(6, 42);
    SmallHead(2, 1);
    var item := Tagged(Width.One, 42, Bytes(Definite(Immediate, [0x01])));
    ExampleIsDecoded(item, [0xD8, 0x2A, 0x41, 0x01], Store);
    ExampleIsDecoded(item, [0xD8, 0x2A, 0x41, 0x01], Ignore);
  }

  // --- the largest length ---

  /** An array or map announced with the largest length goes on to a break, as one of unknown length does. */
  lemma LargestLengthIsUnknown(items: seq<Item>, entries: seq<Entry>, rest: seq<Byte>, tags: TagHandler)
    requires forall x :: x in items ==> Accepts(x, tags)
    requires forall e :: e in entries ==> AcceptsEntry(e, tags)
    ensures var code, open := EncodeItems(items, tags) + [0xFF], StartArrayEvent(UNKNOWN_SIZE);
            DecodeAt(Head(4, Eight, 0xFFFF_FFFF_FFFF_FFFF) + code + rest, 0, tags) ==
              Some(Decoded([open] + (ItemEvents(items, tags) + [EndArrayEvent]), 9 + |code|))
    ensures var code, open := EncodeEntries(entries, tags) + [0xFF], StartObjectEvent(UNKNOWN_SIZE);
            DecodeAt(Head(5, Eight, 0xFFFF_FFFF_FFFF_FFFF) + code + rest, 0, tags) ==
              Some(Decoded([open] + (EntryEvents(entries, tags) + [EndObjectEvent]), 9 + |code|))
  {
    hide DecodeAt, Head, EncodeItems, EncodeEntries, ItemEvents, EntryEvents;
    DecodedFromTheStart(OpenArray(LargestLength, items), rest, tags);
    DecodedFromTheStart(OpenMap(LargestLength, entries), rest, tags);
  }

  lemma DecodedFromTheStart(item: Item, rest: seq<Byte>, tags: TagHandler)
    requires Accepts(item, tags)
    ensures DecodeAt(Encode(item, tags) + rest, 0, tags) == Some(Decoded(Events(item, tags), |Encode(item, tags)|))
  {
    hide DecodeAt, Encode, Events, Accepts;
    var input := Encode(item, tags) + rest;
    assert input[0..0 + |Encode(item, tags)|] == Encode(item, tags);
    EncodingIsDecoded(input, 0, item, tags);
  }
}
