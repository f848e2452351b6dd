/** CBOR data items (RFC 8949): their encodings, and what a decoder makes of bytes. */
module Cbor {
  import opened Options

  type Byte = b: int | 0 <= b < 0x100

  /** detail::unknown_size(), which is also the largest length. */
  const UNKNOWN_SIZE := 0xFFFF_FFFF_FFFF_FFFF

  // --- events ---

  datatype Event =
    | NullEvent
    | BooleanEvent(b: bool)
    | UnsignedEvent(n: nat)
    | IntegerEvent(i: int)
    | FloatEvent(bits: nat, bytes: nat)
    | StringEvent(s: seq<Byte>)
    | BinaryEvent(data: seq<Byte>, subtype: Option<nat>)
    | StartArrayEvent(len: nat)
    | EndArrayEvent
    | StartObjectEvent(len: nat)
    | KeyEvent(s: seq<Byte>)
    | EndObjectEvent

  datatype TagHandler = Error | Ignore | Store

  // --- encodings ---

  /** Where the argument of a head stands: in the initial byte, or in one to eight bytes behind it. */
  datatype Width = Immediate | One | Two | Four | Eight
  {
    function Bytes(): nat {
      match this
      case Immediate => 0
      case One => 1
      case Two => 2
      case Four => 4
      case Eight => 8
    }

    /** The largest argument is below this. */
    function Limit(): nat {
      match this
      case Immediate => 24
      case One => 0x100
      case Two => 0x1_0000
      case Four => 0x1_0000_0000
      case Eight => 0x1_0000_0000_0000_0000
    }

    /** The additional information of the initial byte (section 3 of RFC 8949). */
    function Info(n: nat): (info: nat)
      requires n < Limit()
      ensures info <= 27
    {
      match this
      case Immediate => n
      case One => 24
      case Two => 25
      case Four => 26
      case Eight => 27
    }
  }

  function BigEndian(n: nat, bytes: nat): (s: seq<Byte>)
    ensures |s| == bytes
  {
    if bytes == 0 then [] else BigEndian(n / 0x100, bytes - 1) + [n % 0x100]
  }

  function FromBytes(s: seq<Byte>): nat {
    if s == [] then 0 else FromBytes(s[..|s| - 1]) * 0x100 + s[|s| - 1]
  }

  /** The head of a data item: major type and argument. */
  function Head(major: nat, w: Width, n: nat): (s: seq<Byte>)
    requires major < 8 && n < w.Limit()
    ensures |s| == 1 + w.Bytes()
  {
    [major * 0x20 + w.Info(n)] + BigEndian(n, w.Bytes())
  }

  /** The bytes of a string, in one piece or in chunks; the decoder lets chunks have chunks again. */
  datatype ByteString = Definite(w: Width, data: seq<Byte>) | Chunked(chunks: seq<ByteString>)

  /** How a container up to a break is opened; the largest length is taken for an unknown one. */
  datatype Opening = Indefinite | LargestLength

  datatype Entry = Entry(key: ByteString, value: Item)

  /** An encoded data item; every length may be definite or not, and every argument as wide as it likes. */
  datatype Item =
    | Unsigned(w: Width, n: nat)
    | Negative(w: Width, n: nat)
    | Bytes(s: ByteString)
    | Text(s: ByteString)
    | ArrayItem(w: Width, items: seq<Item>)
    | OpenArray(opening: Opening, items: seq<Item>)
    | MapItem(w: Width, entries: seq<Entry>)
    | OpenMap(opening: Opening, entries: seq<Entry>)
    | False | True | Null
    | FloatItem(w: Width, bits: nat)
    | Tagged(w: Width, tag: nat, item: Item)

  predicate ValidString(s: ByteString) {
    match s
    case Definite(w, data) => |data| < w.Limit()
    case Chunked(chunks) => forall c :: c in chunks ==> ValidString(c)
  }

  /** The items the decoder is for; "error" accepts no tag, and "store" only tags it can store. */
  predicate Accepts(item: Item, tags: TagHandler) {
    match item
    case Unsigned(w, n) => n < w.Limit()
    case Negative(w, n) => n < w.Limit()
    case Bytes(s) => ValidString(s)
    case Text(s) => ValidString(s)
    case ArrayItem(w, items) =>
      |items| < w.Limit() && |items| < UNKNOWN_SIZE && forall x :: x in items ==> Accepts(x, tags)
    case OpenArray(_, items) => forall x :: x in items ==> Accepts(x, tags)
    case MapItem(w, entries) =>
      |entries| < w.Limit() && |entries| < UNKNOWN_SIZE && forall e :: e in entries ==> AcceptsEntry(e, tags)
    case OpenMap(_, entries) => forall e :: e in entries ==> AcceptsEntry(e, tags)
    case FloatItem(w, bits) => bits < w.Limit() && (w.Two? || w.Four? || w.Eight?)
    case Tagged(w, tag, inner) => tag < w.Limit() && Accepts(inner, tags) && AcceptsTag(w, tag, inner, tags)
    case _ => true
  }

  /** Of the tags in the initial byte, the source knows 6 to 20; it stores the others, with a byte string. */
  predicate AcceptsTag(w: Width, tag: nat, inner: Item, tags: TagHandler) {
    && !tags.Error?
    && (w.Immediate? ==> 6 <= tag <= 20)
    && (tags.Store? && !w.Immediate? ==> inner.Bytes?)
  }

  predicate AcceptsEntry(e: Entry, tags: TagHandler) {
    ValidString(e.key) && Accepts(e.value, tags)
  }

  /** Chunks have no chunks, and a length that stands for an unknown one is not used (section 3.2 of RFC 8949). */
  predicate IsStandard(item: Item) {
    match item
    case Bytes(s) => IsStandardString(s)
    case Text(s) => IsStandardString(s)
    case ArrayItem(_, items) => forall x :: x in items ==> IsStandard(x)
    case OpenArray(opening, items) => opening.Indefinite? && forall x :: x in items ==> IsStandard(x)
    case MapItem(_, entries) => forall e :: e in entries ==> IsStandardString(e.key) && IsStandard(e.value)
    case OpenMap(opening, entries) =>
      opening.Indefinite? && forall e :: e in entries ==> IsStandardString(e.key) && IsStandard(e.value)
    case Tagged(_, _, inner) => IsStandard(inner)
    case _ => true
  }

  predicate IsStandardString(s: ByteString) {
    s.Chunked? ==> forall c :: c in s.chunks ==> c.Definite?
  }

  function EncodeString(major: nat, s: ByteString): seq<Byte>
    requires major < 8 && ValidString(s)
  {
    match s
    case Definite(w, data) => Head(major, w, |data|) + data
    case Chunked(chunks) => [major * 0x20 + 0x1F] + EncodeChunks(major, chunks)
  }

  function EncodeChunks(major: nat, chunks: seq<ByteString>): seq<Byte>
    requires major < 8 && forall c :: c in chunks ==> ValidString(c)
  {
    if chunks == [] then [0xFF] else EncodeString(major, chunks[0]) + EncodeChunks(major, chunks[1..])
  }

  function OpeningBytes(major: nat, opening: Opening): seq<Byte>
    requires major < 8
  {
    if opening.Indefinite? then [major * 0x20 + 0x1F] else Head(major, Eight, UNKNOWN_SIZE)
  }

  /** Sections 3.1 and 3.2 of RFC 8949. */
  function Encode(item: Item, tags: TagHandler): seq<Byte>
    requires Accepts(item, tags)
  {
    match item
    case Unsigned(w, n) => Head(0, w, n)
    case Negative(w, n) => Head(1, w, n)
    case Bytes(s) => EncodeString(2, s)
    case Text(s) => EncodeString(3, s)
    case ArrayItem(w, items) => Head(4, w, |items|) + EncodeItems(items, tags)
    case OpenArray(opening, items) => OpeningBytes(4, opening) + (EncodeItems(items, tags) + [0xFF])
    case MapItem(w, entries) => Head(5, w, |entries|) + EncodeEntries(entries, tags)
    case OpenMap(opening, entries) => OpeningBytes(5, opening) + (EncodeEntries(entries, tags) + [0xFF])
    case False => [0xF4]
    case True => [0xF5]
    case Null => [0xF6]
    case FloatItem(w, bits) => Head(7, w, bits)
    case Tagged(w, tag, inner) => Head(6, w, tag) + Encode(inner, tags)
  }

  function EncodeItems(items: seq<Item>, tags: TagHandler): seq<Byte>
    requires forall x :: x in items ==> Accepts(x, tags)
  {
    if items == [] then [] else Encode(items[0], tags) + EncodeItems(items[1..], tags)
  }

  function EncodeEntry(e: Entry, tags: TagHandler): seq<Byte>
    requires AcceptsEntry(e, tags)
  {
    EncodeString(3, e.key) + Encode(e.value, tags)
  }

  function EncodeEntries(entries: seq<Entry>, tags: TagHandler): seq<Byte>
    requires forall e :: e in entries ==> AcceptsEntry(e, tags)
  {
    if entries == [] then []
    else
      EncodeEntry(entries[0], tags) + EncodeEntries(entries[1..], tags)
  }

  // --- the events of an item ---

  function BytesOf(s: ByteString): seq<Byte> {
    match s
    case Definite(_, data) => data
    case Chunked(chunks) => ChunkBytes(chunks)
  }

  function ChunkBytes(chunks: seq<ByteString>): seq<Byte> {
    if chunks == [] then [] else BytesOf(chunks[0]) + ChunkBytes(chunks[1..])
  }

  /** -1 - n, computed in 64 bits. */
  function NegativeOf(n: nat): int {
    if n < 0x8000_0000_0000_0000 then -1 - n else 0xFFFF_FFFF_FFFF_FFFF - n
  }

  /** The value an integer item stands for (section 3.1 of RFC 8949) is emitted exactly if it is an int64. */
  lemma NegativeIsExactIfInRange(n: nat)
    ensures NegativeOf(n) == -1 - n <==> n < 0x8000_0000_0000_0000
  {
  }

  function Events(item: Item, tags: TagHandler): seq<Event>
    requires Accepts(item, tags)
  {
    match item
    case Unsigned(_, n) => [UnsignedEvent(n)]
    case Negative(_, n) => [IntegerEvent(NegativeOf(n))]
    case Bytes(s) => [BinaryEvent(BytesOf(s), None)]
    case Text(s) => [StringEvent(BytesOf(s))]
    case ArrayItem(_, items) => [StartArrayEvent(|items|)] + (ItemEvents(items, tags) + [EndArrayEvent])
    case OpenArray(_, items) => [StartArrayEvent(UNKNOWN_SIZE)] + (ItemEvents(items, tags) + [EndArrayEvent])
    case MapItem(_, entries) => [StartObjectEvent(|entries|)] + (EntryEvents(entries, tags) + [EndObjectEvent])
    case OpenMap(_, entries) => [StartObjectEvent(UNKNOWN_SIZE)] + (EntryEvents(entries, tags) + [EndObjectEvent])
    case False => [BooleanEvent(false)]
    case True => [BooleanEvent(true)]
    case Null => [NullEvent]
    case FloatItem(w, bits) => [FloatEvent(bits, w.Bytes())]
    case Tagged(w, tag, inner) =>
      if tags.Store? && !w.Immediate? then [BinaryEvent(BytesOf(inner.s), Some(tag))] else Events(inner, tags)
  }

  function ItemEvents(items: seq<Item>, tags: TagHandler): seq<Event>
    requires forall x :: x in items ==> Accepts(x, tags)
  {
    if items == [] then [] else Events(items[0], tags) + ItemEvents(items[1..], tags)
  }

  function EventsOfEntry(e: Entry, tags: TagHandler): seq<Event>
    requires AcceptsEntry(e, tags)
  {
    [KeyEvent(BytesOf(e.key))] + Events(e.value, tags)
  }

  function EntryEvents(entries: seq<Entry>, tags: TagHandler): seq<Event>
    requires forall e :: e in entries ==> AcceptsEntry(e, tags)
  {
    if entries == [] then []
    else
      EventsOfEntry(entries[0], tags) + EntryEvents(entries[1..], tags)
  }
}
