/** No bytes are the encoding of two items. */
module CborUniqueness {
  import opened Options
  import opened Cbor
  import opened CborDecoding

  lemma InfoIsUnique(m1: nat, w1: Width, n1: nat, m2: nat, w2: Width, n2: nat)
    requires n1 < w1.Limit() && n2 < w2.Limit() && m1 * 0x20 + w1.Info(n1) == m2 * 0x20 + w2.Info(n2)
    ensures m1 == m2 && w1 == w2
  {
  }

  lemma HeadIsUnique(input: seq<Byte>, i: nat, m1: nat, w1: Width, n1: nat, m2: nat, w2: Width, n2: nat)
    requires m1 < 8 && n1 < w1.Limit() && Stands(input, i, Head(m1, w1, n1))
    requires m2 < 8 && n2 < w2.Limit() && Stands(input, i, Head(m2, w2, n2))
    ensures m1 == m2 && w1 == w2 && n1 == n2
  {
    hide Head, Stands, ArgumentAt, Width.Limit, Width.Info, Width.Bytes;
    HeadStands(input, i, m1, w1, n1);
    HeadStands(input, i, m2, w2, n2);
    InfoIsUnique(m1, w1, n1, m2, w2, n2);
  }

  lemma SameBytes(input: seq<Byte>, i: nat, a: seq<Byte>, b: seq<Byte>)
    requires Stands(input, i, a) && Stands(input, i, b) && |a| == |b|
    ensures a == b
  {
  }

  // --- strings ---

  lemma StringParts(major: nat, s: ByteString)
    requires major < 8 && ValidString(s)
    ensures s.Definite? ==> |s.data| < s.w.Limit() && EncodeString(major, s) == Head(major, s.w, |s.data|) + s.data
    ensures s.Chunked? ==>
      (forall c :: c in s.chunks ==> ValidString(c))
      && EncodeString(major, s) == [(major * 0x20 + 0x1F) as Byte] + EncodeChunks(major, s.chunks)
  {
    hide Head, EncodeChunks;
  }

  lemma StringStart(input: seq<Byte>, i: nat, major: nat, s: ByteString)
    requires (major == 2 || major == 3) && ValidString(s) && Stands(input, i, EncodeString(major, s))
    ensures i < |input| && input[i] != 0xFF && (input[i] == major * 0x20 + 0x1F <==> s.Chunked?)
  {
    hide Head, EncodeString, EncodeChunks, ValidString, Stands, Width.Limit, Width.Info, Width.Bytes;
    StringParts(major, s);
    if s.Definite? {
      Split(input, i, Head(major, s.w, |s.data|), s.data);
      HeadStands(input, i, major, s.w, |s.data|);
      InfoIsSmall(s.w, |s.data|);
    } else {
      Split(input, i, [(major * 0x20 + 0x1F) as Byte], EncodeChunks(major, s.chunks));
    }
  }

  lemma {:induction false} StringIsUnique(input: seq<Byte>, i: nat, major: nat, s: ByteString, t: ByteString)
    requires (major == 2 || major == 3) && ValidString(s) && ValidString(t)
    requires Stands(input, i, EncodeString(major, s)) && Stands(input, i, EncodeString(major, t))
    ensures s == t
    decreases s, 1
  {
    hide Head, EncodeString, EncodeChunks, ValidString, Stands, Width.Limit, Width.Info, Width.Bytes;
    StringParts(major, s);
    StringParts(major, t);
    StringStart(input, i, major, s);
    StringStart(input, i, major, t);
    if s.Definite? {
      var head := Head(major, s.w, |s.data|);
      Split(input, i, head, s.data);
      Split(input, i, Head(major, t.w, |t.data|), t.data);
      HeadIsUnique(input, i, major, s.w, |s.data|, major, t.w, |t.data|);
      SameBytes(input, i + |head|, s.data, t.data);
    } else {
      Split(input, i, [(major * 0x20 + 0x1F) as Byte], EncodeChunks(major, s.chunks));
      Split(input, i, [(major * 0x20 + 0x1F) as Byte], EncodeChunks(major, t.chunks));
      ChunksAreUnique(input, i + 1, major, s.chunks, t.chunks);
    }
  }

  lemma ChunksParts(major: nat, chunks: seq<ByteString>)
    requires major < 8 && forall c :: c in chunks ==> ValidString(c)
    ensures chunks == [] ==> EncodeChunks(major, chunks) == [0xFF] + []
    ensures chunks != [] ==> EncodeChunks(major, chunks) == EncodeString(major, chunks[0]) + EncodeChunks(major, chunks[1..])
  {
  }

  lemma ChunksStart(input: seq<Byte>, i: nat, major: nat, chunks: seq<ByteString>)
    requires (major == 2 || major == 3) && forall c :: c in chunks ==> ValidString(c)
    requires Stands(input, i, EncodeChunks(major, chunks))
    ensures i < |input| && (input[i] == 0xFF <==> chunks == [])
  {
    hide EncodeString, EncodeChunks, ValidString, Stands;
    ChunksParts(major, chunks);
    if chunks == [] {
      Split(input, i, [0xFF], []);
    } else {
      Split(input, i, EncodeString(major, chunks[0]), EncodeChunks(major, chunks[1..]));
      StringStart(input, i, major, chunks[0]);
    }
  }

  lemma {:induction false} ChunksAreUnique(input: seq<Byte>, i: nat, major: nat, a: seq<ByteString>, b: seq<ByteString>)
    requires (major == 2 || major == 3)
    requires (forall c :: c in a ==> ValidString(c)) && (forall c :: c in b ==> ValidString(c))
    requires Stands(input, i, EncodeChunks(major, a)) && Stands(input, i, EncodeChunks(major, b))
    ensures a == b
    decreases a, |a|
  {
    hide EncodeString, EncodeChunks, ValidString, Stands;
    ChunksStart(input, i, major, a);
    ChunksStart(input, i, major, b);
    ChunksParts(major, a);
    ChunksParts(major, b);
    if a != [] {
      Split(input, i, EncodeString(major, a[0]), EncodeChunks(major, a[1..]));
      Split(input, i, EncodeString(major, b[0]), EncodeChunks(major, b[1..]));
      StringIsUnique(input, i, major, a[0], b[0]);
      ChunksAreUnique(input, i + |EncodeString(major, a[0])|, major, a[1..], b[1..]);
      assert a == [a[0]] + a[1..] && b == [b[0]] + b[1..];
    }
  }

  // --- items ---

  function Major(item: Item): nat {
    match item
    case Unsigned(_, _) => 0
    case Negative(_, _) => 1
    case Bytes(_) => 2
    case Text(_) => 3
    case ArrayItem(_, _) => 4
    case OpenArray(_, _) => 4
    case MapItem(_, _) => 5
    case OpenMap(_, _) => 5
    case Tagged(_, _, _) => 6
    case _ => 7
  }

  /** The first byte shows the major type, and the initial bytes of major type 7 its literals. */
  lemma ItemStart(input: seq<Byte>, i: nat, item: Item, tags: TagHandler)
    requires Accepts(item, tags) && Stands(input, i, Encode(item, tags))
    ensures i < |input| && input[i] / 0x20 == Major(item)
    ensures (input[i] == 0xF4 <==> item.False?) && (input[i] == 0xF5 <==> item.True?) && (input[i] == 0xF6 <==> item.Null?)
    ensures input[i] == 0x9F <==> item.OpenArray? && item.opening.Indefinite?
    ensures input[i] == 0xBF <==> item.OpenMap? && item.opening.Indefinite?
  {
    hide EncodeItems, EncodeEntries, EncodeChunks, BigEndian;
    assert input[i] == input[i..i + |Encode(item, tags)|][0];
  }

  lemma {:induction false} ItemIsUnique(input: seq<Byte>, i: nat, a: Item, b: Item, tags: TagHandler)
    requires Accepts(a, tags) && Stands(input, i, Encode(a, tags))
    requires Accepts(b, tags) && Stands(input, i, Encode(b, tags))
    ensures a == b
    decreases a, 1
  {
    hide Accepts, Encode, Stands;
    ItemStart(input, i, a, tags);
    ItemStart(input, i, b, tags);
    match a
    case ArrayItem(_, _) => ArrayIsUnique(input, i, a, b, tags);
    case OpenArray(_, _) => ArrayIsUnique(input, i, a, b, tags);
    case MapItem(_, _) => MapIsUnique(input, i, a, b, tags);
    case OpenMap(_, _) => MapIsUnique(input, i, a, b, tags);
    case Tagged(_, _, _) => TaggedIsUnique(input, i, a, b, tags);
    case Bytes(_) => StringItemIsUnique(input, i, a, b, tags);
    case Text(_) => StringItemIsUnique(input, i, a, b, tags);
    case False =>
    case True =>
    case Null =>
    case _ => NumberIsUnique(input, i, a, b, tags);
  }

  lemma StringItemIsUnique(input: seq<Byte>, i: nat, a: Item, b: Item, tags: TagHandler)
    requires Accepts(a, tags) && Stands(input, i, Encode(a, tags))
    requires Accepts(b, tags) && Stands(input, i, Encode(b, tags))
    requires (a.Bytes? && b.Bytes?) || (a.Text? && b.Text?)
    ensures a == b
  {
    hide Stands, EncodeString, ValidString;
    StringIsUnique(input, i, if a.Bytes? then 2 else 3, a.s, b.s);
  }

  predicate IsNumberItem(item: Item) {
    item.Unsigned? || item.Negative? || item.FloatItem?
  }

  lemma NumberIsUnique(input: seq<Byte>, i: nat, a: Item, b: Item, tags: TagHandler)
    requires Accepts(a, tags) && Stands(input, i, Encode(a, tags))
    requires Accepts(b, tags) && Stands(input, i, Encode(b, tags))
    requires IsNumberItem(a) && IsNumberItem(b)
    ensures a == b
  {
    hide Stands, Head, Width.Limit;
    var na := if a.FloatItem? then a.bits else a.n;
    var nb := if b.FloatItem? then b.bits else b.n;
    HeadIsUnique(input, i, Major(a), a.w, na, Major(b), b.w, nb);
  }

  lemma {:induction false} TaggedIsUnique(input: seq<Byte>, i: nat, a: Item, b: Item, tags: TagHandler)
    requires Accepts(a, tags) && Stands(input, i, Encode(a, tags))
    requires Accepts(b, tags) && Stands(input, i, Encode(b, tags))
    requires a.Tagged? && b.Tagged?
    ensures a == b
    decreases a, 0
  {
    hide Stands, Head, Width.Limit, Accepts, Encode, Events;
    TaggedParts(a.w, a.tag, a.item, tags);
    TaggedParts(b.w, b.tag, b.item, tags);
    Split(input, i, Head(6, a.w, a.tag), Encode(a.item, tags));
    Split(input, i, Head(6, b.w, b.tag), Encode(b.item, tags));
    HeadIsUnique(input, i, 6, a.w, a.tag, 6, b.w, b.tag);
    ItemIsUnique(input, i + |Head(6, a.w, a.tag)|, a.item, b.item, tags);
  }

  /** What opens a container, and whether a break closes it. */
  function Start(item: Item): seq<Byte>
    requires (item.ArrayItem? && |item.items| < item.w.Limit()) || item.OpenArray?
             || (item.MapItem? && |item.entries| < item.w.Limit()) || item.OpenMap?
  {
    match item
    case ArrayItem(w, items) => Head(4, w, |items|)
    case OpenArray(opening, _) => OpeningBytes(4, opening)
    case MapItem(w, entries) => Head(5, w, |entries|)
    case OpenMap(opening, _) => OpeningBytes(5, opening)
    case _ => []
  }

  /** Arrays that start alike are opened alike, and hold as many items if these are counted. */
  lemma ArrayStartIsUnique(input: seq<Byte>, i: nat, a: Item, b: Item, tags: TagHandler)
    requires (a.ArrayItem? || a.OpenArray?) && Accepts(a, tags) && Stands(input, i, Start(a))
    requires (b.ArrayItem? || b.OpenArray?) && Accepts(b, tags) && Stands(input, i, Start(b))
    requires (a.OpenArray? && a.opening.Indefinite?) <==> (b.OpenArray? && b.opening.Indefinite?)
    ensures a.ArrayItem? <==> b.ArrayItem?
    ensures a.ArrayItem? ==> a.w == b.w && |a.items| == |b.items|
    ensures a.OpenArray? ==> a.opening == b.opening
    ensures Start(a) == Start(b)
  {
    hide Head, Stands, Width.Limit;
    LargestLengthFits();
    if !(a.OpenArray? && a.opening.Indefinite?) {
      var wa, na := if a.ArrayItem? then a.w else Eight, if a.ArrayItem? then |a.items| else UNKNOWN_SIZE;
      var wb, nb := if b.ArrayItem? then b.w else Eight, if b.ArrayItem? then |b.items| else UNKNOWN_SIZE;
      HeadIsUnique(input, i, 4, wa, na, 4, wb, nb);
    }
  }

  lemma LargestLengthFits()
    ensures UNKNOWN_SIZE < Eight.Limit()
  {
  }

  lemma {:induction false} ArrayIsUnique(input: seq<Byte>, i: nat, a: Item, b: Item, tags: TagHandler)
    requires (a.ArrayItem? || a.OpenArray?) && Accepts(a, tags) && Stands(input, i, Encode(a, tags))
    requires (b.ArrayItem? || b.OpenArray?) && Accepts(b, tags) && Stands(input, i, Encode(b, tags))
    requires (a.OpenArray? && a.opening.Indefinite?) <==> (b.OpenArray? && b.opening.Indefinite?)
    ensures a == b
    decreases a, 0
  {
    hide Stands, Head, OpeningBytes, Width.Limit, EncodeItems;
    var ea := EncodeItems(a.items, tags) + if a.ArrayItem? then [] else [0xFF];
    var eb := EncodeItems(b.items, tags) + if b.ArrayItem? then [] else [0xFF];
    assert Encode(a, tags) == Start(a) + ea && Encode(b, tags) == Start(b) + eb;
    Split(input, i, Start(a), ea);
    Split(input, i, Start(b), eb);
    ArrayStartIsUnique(input, i, a, b, tags);
    ItemsAreUnique(input, i + |Start(a)|, a.items, b.items, a.OpenArray?, tags);
  }

  /** Items up to a break, or as many on both sides. */
  lemma {:induction false} ItemsAreUnique(input: seq<Byte>, i: nat, a: seq<Item>, b: seq<Item>, open: bool, tags: TagHandler)
    requires (forall x :: x in a ==> Accepts(x, tags)) && (forall x :: x in b ==> Accepts(x, tags))
    requires Stands(input, i, EncodeItems(a, tags) + if open then [0xFF] else [])
    requires Stands(input, i, EncodeItems(b, tags) + if open then [0xFF] else [])
    requires !open ==> |a| == |b|
    ensures a == b
    decreases a, |a|
  {
    hide Accepts, Encode, EncodeItems, Stands;
    var end := if open then [0xFF] else [];
    ItemsStart(input, i, a, open, tags);
    ItemsStart(input, i, b, open, tags);
    if a != [] {
      ItemsParts(a, end, tags);
      ItemsParts(b, end, tags);
      var ra, rb := EncodeItems(a[1..], tags) + end, EncodeItems(b[1..], tags) + end;
      Split(input, i, Encode(a[0], tags), ra);
      Split(input, i, Encode(b[0], tags), rb);
      ItemIsUnique(input, i, a[0], b[0], tags);
      ItemsAreUnique(input, i + |Encode(a[0], tags)|, a[1..], b[1..], open, tags);
      assert a == [a[0]] + a[1..] && b == [b[0]] + b[1..];
    }
  }

  lemma ItemsParts(items: seq<Item>, end: seq<Byte>, tags: TagHandler)
    requires forall x :: x in items ==> Accepts(x, tags)
    ensures items == [] ==> EncodeItems(items, tags) + end == end
    ensures items != [] ==> EncodeItems(items, tags) + end == Encode(items[0], tags) + (EncodeItems(items[1..], tags) + end)
  {
    hide Accepts, Encode;
  }

  lemma ItemsStart(input: seq<Byte>, i: nat, items: seq<Item>, open: bool, tags: TagHandler)
    requires forall x :: x in items ==> Accepts(x, tags)
    requires Stands(input, i, EncodeItems(items, tags) + if open then [0xFF] else [])
    ensures open ==> i < |input| && (input[i] == 0xFF <==> items == [])
  {
    hide Accepts, Encode, EncodeItems, Stands, DecodeAt, Events;
    var end := if open then [0xFF] else [];
    ItemsParts(items, end, tags);
    if items != [] {
      Split(input, i, Encode(items[0], tags), EncodeItems(items[1..], tags) + end);
      EncodingIsDecoded(input, i, items[0], tags);
    } else if open {
      assert end == [0xFF] + [];
      Split(input, i, [0xFF], []);
    }
  }

  lemma MapStartIsUnique(input: seq<Byte>, i: nat, a: Item, b: Item, tags: TagHandler)
    requires (a.MapItem? || a.OpenMap?) && Accepts(a, tags) && Stands(input, i, Start(a))
    requires (b.MapItem? || b.OpenMap?) && Accepts(b, tags) && Stands(input, i, Start(b))
    requires (a.OpenMap? && a.opening.Indefinite?) <==> (b.OpenMap? && b.opening.Indefinite?)
    ensures a.MapItem? <==> b.MapItem?
    ensures a.MapItem? ==> a.w == b.w && |a.entries| == |b.entries|
    ensures a.OpenMap? ==> a.opening == b.opening
    ensures Start(a) == Start(b)
  {
    hide Head, Stands, Width.Limit, AcceptsEntry;
    LargestLengthFits();
    if !(a.OpenMap? && a.opening.Indefinite?) {
      var wa, na := if a.MapItem? then a.w else Eight, if a.MapItem? then |a.entries| else UNKNOWN_SIZE;
      var wb, nb := if b.MapItem? then b.w else Eight, if b.MapItem? then |b.entries| else UNKNOWN_SIZE;
      HeadIsUnique(input, i, 5, wa, na, 5, wb, nb);
    }
  }

  lemma {:induction false} MapIsUnique(input: seq<Byte>, i: nat, a: Item, b: Item, tags: TagHandler)
    requires (a.MapItem? || a.OpenMap?) && Accepts(a, tags) && Stands(input, i, Encode(a, tags))
    requires (b.MapItem? || b.OpenMap?) && Accepts(b, tags) && Stands(input, i, Encode(b, tags))
    requires (a.OpenMap? && a.opening.Indefinite?) <==> (b.OpenMap? && b.opening.Indefinite?)
    ensures a == b
    decreases a, 0
  {
    hide Stands, Head, OpeningBytes, Width.Limit, EncodeEntries, AcceptsEntry;
    var ea := EncodeEntries(a.entries, tags) + if a.MapItem? then [] else [0xFF];
    var eb := EncodeEntries(b.entries, tags) + if b.MapItem? then [] else [0xFF];
    assert Encode(a, tags) == Start(a) + ea && Encode(b, tags) == Start(b) + eb;
    Split(input, i, Start(a), ea);
    Split(input, i, Start(b), eb);
    MapStartIsUnique(input, i, a, b, tags);
    EntriesAreUnique(input, i + |Start(a)|, a.entries, b.entries, a.OpenMap?, tags);
  }

  lemma {:induction false} EntriesAreUnique(input: seq<Byte>, i: nat, a: seq<Entry>, b: seq<Entry>, open: bool, tags: TagHandler)
    requires (forall e :: e in a ==> AcceptsEntry(e, tags)) && (forall e :: e in b ==> AcceptsEntry(e, tags))
    requires Stands(input, i, EncodeEntries(a, tags) + if open then [0xFF] else [])
    requires Stands(input, i, EncodeEntries(b, tags) + if open then [0xFF] else [])
    requires !open ==> |a| == |b|
    ensures a == b
    decreases a, |a|
  {
    hide AcceptsEntry, EncodeEntry, EncodeEntries, Stands;
    var end := if open then [0xFF] else [];
    EntriesStart(input, i, a, open, tags);
    EntriesStart(input, i, b, open, tags);
    if a != [] {
      EntriesParts(a, end, tags);
      EntriesParts(b, end, tags);
      var ra, rb := EncodeEntries(a[1..], tags) + end, EncodeEntries(b[1..], tags) + end;
      Split(input, i, EncodeEntry(a[0], tags), ra);
      Split(input, i, EncodeEntry(b[0], tags), rb);
      EntryIsUnique(input, i, a[0], b[0], tags);
      EntriesAreUnique(input, i + |EncodeEntry(a[0], tags)|, a[1..], b[1..], open, tags);
      assert a == [a[0]] + a[1..] && b == [b[0]] + b[1..];
    }
  }

  lemma EntriesParts(entries: seq<Entry>, end: seq<Byte>, tags: TagHandler)
    requires forall e :: e in entries ==> AcceptsEntry(e, tags)
    ensures entries == [] ==> EncodeEntries(entries, tags) + end == end
    ensures entries != [] ==>
      EncodeEntries(entries, tags) + end == EncodeEntry(entries[0], tags) + (EncodeEntries(entries[1..], tags) + end)
  {
    hide AcceptsEntry, EncodeEntry;
  }

  lemma EntriesStart(input: seq<Byte>, i: nat, entries: seq<Entry>, open: bool, tags: TagHandler)
    requires forall e :: e in entries ==> AcceptsEntry(e, tags)
    requires Stands(input, i, EncodeEntries(entries, tags) + if open then [0xFF] else [])
    ensures open ==> i < |input| && (input[i] == 0xFF <==> entries == [])
  {
    hide AcceptsEntry, EncodeEntry, EncodeEntries, Stands, EntryAt, EventsOfEntry;
    var end := if open then [0xFF] else [];
    EntriesParts(entries, end, tags);
    if entries != [] {
      Split(input, i, EncodeEntry(entries[0], tags), EncodeEntries(entries[1..], tags) + end);
      EntryIsDecoded(input, i, entries[0], tags);
    } else if open {
      assert end == [0xFF] + [];
      Split(input, i, [0xFF], []);
    }
  }

  lemma {:induction false} EntryIsUnique(input: seq<Byte>, i: nat, a: Entry, b: Entry, tags: TagHandler)
    requires AcceptsEntry(a, tags) && Stands(input, i, EncodeEntry(a, tags))
    requires AcceptsEntry(b, tags) && Stands(input, i, EncodeEntry(b, tags))
    ensures a == b
    decreases a, 0
  {
    hide Stands, Encode, EncodeString, Accepts, ValidString;
    Split(input, i, EncodeString(3, a.key), Encode(a.value, tags));
    Split(input, i, EncodeString(3, b.key), Encode(b.value, tags));
    StringIsUnique(input, i, 3, a.key, b.key);
    ItemIsUnique(input, i + |EncodeString(3, a.key)|, a.value, b.value, tags);
  }

  // --- which byte strings are standard ---

  /** The bytes of an accepted item start with the encoding of an item of RFC 8949 exactly if it is one itself. */
  lemma StandardIffItself(input: seq<Byte>, i: nat, item: Item, tags: TagHandler)
    requires Accepts(item, tags) && Stands(input, i, Encode(item, tags))
    ensures IsStandard(item) <==>
      exists other :: Accepts(other, tags) && IsStandard(other) && Stands(input, i, Encode(other, tags))
  {
    hide Accepts, Stands, Encode, IsStandard;
    forall other | Accepts(other, tags) && Stands(input, i, Encode(other, tags))
      ensures other == item
    {
      ItemIsUnique(input, i, other, item, tags);
    }
  }
}
