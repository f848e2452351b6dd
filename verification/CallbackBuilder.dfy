/** The SAX handler with a callback, for a callback that keeps everything. */
module CallbackBuilding {
  import opened JsonValues
  import opened Options
  import opened DomBuilding

  /** A tree that may hold discarded values. */
  datatype Node = Discarded | Leaf(j: Json) | NodeArray(elements: seq<Node>) | NodeObject(members: map<string, Node>)

  datatype ParseEvent = ObjectStart | ObjectEnd | ArrayStart | ArrayEnd | KeyRead | ValueRead

  /** An ordinary tree as one that could hold discarded values. */
  function Plain(j: Json): Node {
    match j
    case Array(elements) => NodeArray(seq(|elements|, i requires 0 <= i < |elements| => Plain(elements[i])))
    case Object(members) => NodeObject(map k | k in members :: Plain(members[k]))
    case _ => Leaf(j)
  }

  lemma {:induction false} PlainIsInjective(a: Json, b: Json)
    requires Plain(a) == Plain(b)
    ensures a == b
  {
    if a.Array? {
      assert |Plain(a).elements| == |Plain(b).elements|;
      assert |a.elements| == |b.elements|;
      forall i | 0 <= i < |a.elements|
        ensures a.elements[i] == b.elements[i]
      {
        assert Plain(a).elements[i] == Plain(b).elements[i];
        PlainIsInjective(a.elements[i], b.elements[i]);
      }
    } else if a.Object? {
      assert Plain(a).members.Keys == a.members.Keys && Plain(b).members.Keys == b.members.Keys;
      forall k | k in a.members
        ensures a.members[k] == b.members[k]
      {
        assert Plain(a).members[k] == Plain(b).members[k];
        PlainIsInjective(a.members[k], b.members[k]);
      }
    }
  }

  /** No discarded value anywhere. */
  predicate NothingDiscarded(n: Node) {
    match n
    case Discarded => false
    case Leaf(_) => true
    case NodeArray(elements) => forall e :: e in elements ==> NothingDiscarded(e)
    case NodeObject(members) => forall k :: k in members ==> NothingDiscarded(members[k])
  }

  lemma {:induction false} PlainHoldsNothingDiscarded(j: Json)
    ensures NothingDiscarded(Plain(j))
  {
    if j.Array? {
      forall e | e in Plain(j).elements
        ensures NothingDiscarded(e)
      {
        var i :| 0 <= i < |j.elements| && e == Plain(j.elements[i]);
        PlainHoldsNothingDiscarded(j.elements[i]);
      }
    } else if j.Object? {
      forall k | k in j.members
        ensures NothingDiscarded(Plain(j.members[k]))
      {
        PlainHoldsNothingDiscarded(j.members[k]);
      }
    }
  }

  // --- places ---

  function Child(n: Node, s: Step): Option<Node> {
    if n.NodeArray? && s.Index? && s.i < |n.elements| then Some(n.elements[s.i])
    else if n.NodeObject? && s.Key? && s.k in n.members then Some(n.members[s.k])
    else None
  }

  function At(n: Node, p: Path): Option<Node>
    decreases |p|
  {
    if p == [] then Some(n)
    else
      var child := Child(n, p[0]);
      if child.None? then None else At(child.value, p[1..])
  }

  /** The tree after an assignment through a pointer; a pointer to nothing changes nothing. */
  function Put(n: Node, p: Path, v: Node): Node
    decreases |p|
  {
    if p == [] then v
    else
      var child := Child(n, p[0]);
      if child.None? then n
      else if n.NodeArray? then NodeArray(n.elements[p[0].i := Put(child.value, p[1..], v)])
      else NodeObject(n.members[p[0].k := Put(child.value, p[1..], v)])
  }

  /** A container around one node that need not be kept. */
  function Around(f: Frame, n: Node): Node {
    match f
    case ArrayFrame(elements) => NodeArray(Plain(Array(elements)).elements + [n])
    case ObjectFrame(members, key) => NodeObject(Plain(Object(members)).members[key := n])
  }

  function PlugNode(frames: seq<Frame>, n: Node): Node {
    if frames == [] then n else Around(frames[0], PlugNode(frames[1..], n))
  }

  lemma AroundPlain(f: Frame, v: Json)
    ensures Around(f, Plain(v)) == Plain(With(f, v))
  {
  }

  lemma {:induction false} PlugPlain(frames: seq<Frame>, v: Json)
    ensures PlugNode(frames, Plain(v)) == Plain(Plug(frames, v))
  {
    if frames != [] {
      PlugPlain(frames[1..], v);
      AroundPlain(frames[0], Plug(frames[1..], v));
    }
  }

  lemma {:induction false} PutPlugged(frames: seq<Frame>, n: Node, m: Node)
    ensures At(PlugNode(frames, n), Hole(frames)) == Some(n)
    ensures Put(PlugNode(frames, n), Hole(frames), m) == PlugNode(frames, m)
  {
    if frames != [] {
      assert Hole(frames)[1..] == Hole(frames[1..]);
      PutPlugged(frames[1..], n, m);
      var f := frames[0];
      var inner, outer := PlugNode(frames[1..], n), PlugNode(frames[1..], m);
      if f.ArrayFrame? {
        var before := Plain(Array(f.elements)).elements;
        assert (before + [inner])[|before| := outer] == before + [outer];
      } else {
        var before := Plain(Object(f.members)).members;
        assert before[f.key := inner][f.key := outer] == before[f.key := outer];
      }
    }
  }

  lemma {:induction false} PlugNodeSnoc(front: seq<Frame>, f: Frame, n: Node)
    ensures PlugNode(front + [f], n) == PlugNode(front, Around(f, n))
  {
    if front == [] {
      assert [f][1..] == [];
    } else {
      assert (front + [f])[1..] == front[1..] + [f];
      PlugNodeSnoc(front[1..], f, n);
    }
  }

  /** The container as it stands, with a discarded placeholder for a key whose value is still to come. */
  function NodeContent(f: Frame, due: bool): Node {
    if due then Around(f, Discarded) else Plain(Content(f, false))
  }

  function Pointers(frames: seq<Frame>): (p: seq<Option<Path>>)
    ensures |p| == |frames|
  {
    seq(|frames|, i requires 0 <= i < |frames| => Some(Hole(frames[..i])))
  }

  lemma PointersSnoc(frames: seq<Frame>, f: Frame)
    ensures Pointers(frames + [f]) == Pointers(frames) + [Some(Hole(frames))]
  {
    assert forall i :: 0 <= i <= |frames| ==> (frames + [f])[..i] == frames[..i];
    assert frames[..|frames|] == frames;
  }

  predicate AllTrue(s: seq<bool>) {
    forall i :: 0 <= i < |s| ==> s[i]
  }

  lemma CallbackReceiveInside(front: seq<Frame>, top: Frame, due: bool, v: Json)
    requires due ==> top.ObjectFrame?
    ensures var n := PlugNode(front, NodeContent(top, due));
            && At(n, Hole(front)) == Some(NodeContent(top, due))
            && (NodeContent(top, due).NodeArray? <==> top.ArrayFrame?)
            && (top.ArrayFrame? ==>
                  && NodeContent(top, false) == NodeArray(Plain(Array(top.elements)).elements)
                  && |Plain(Array(top.elements)).elements| == |top.elements|
                  && Put(n, Hole(front), NodeArray(Plain(Array(top.elements)).elements + [Plain(v)])) == PlugNode(front + [top], Plain(v))
                  && Hole(front + [top]) == Hole(front) + [Index(|top.elements|)])
            && (due ==> Put(n, Hole(front + [top]), Plain(v)) == PlugNode(front + [top], Plain(v)))
    ensures PlugNode(front + [top], Plain(v)) == PlugNode(front, NodeContent(Filled(top, v), false))
  {
    PutPlugged(front, NodeContent(top, due), Around(top, Plain(v)));
    PlugNodeSnoc(front, top, Plain(v));
    PlugNodeSnoc(front, top, Discarded);
    PlugSnoc(front, top, v);
    PutPlugged(front + [top], Discarded, Plain(v));
    AroundPlain(top, v);
  }

  class CallbackBuilder {
    var root: Node
    var refStack: seq<Option<Path>>
    var keepStack: seq<bool>
    var keyKeepStack: seq<bool>
    var objectElement: Option<Path>
    const callback: (nat, ParseEvent, Node) -> bool
    ghost var frames: seq<Frame>
    ghost var due: bool

    ghost predicate KeepsEverything() {
      forall depth, event, value :: callback(depth, event, value)
    }

    ghost predicate Valid()
      reads this
    {
      ValidWith(false)
    }

    /** While a container is opened, it is already on the stack of kept containers and not yet on that of pointers. */
    ghost predicate ValidWith(opening: bool)
      reads this
    {
      && KeepsEverything()
      && refStack == Pointers(frames)
      && |keepStack| == |refStack| + (if opening then 2 else 1) && AllTrue(keepStack)
      && keyKeepStack == (if due then [true] else [])
      && (frames != [] ==> root == PlugNode(Front(frames), NodeContent(Top(frames), due)))
      && (due ==> frames != [] && Top(frames).ObjectFrame? && objectElement == Some(Hole(frames)))
    }

    ghost predicate Ready()
      reads this
    {
      ReadyWith(false)
    }

    ghost predicate ReadyWith(opening: bool)
      reads this
    {
      ValidWith(opening) && (frames == [] || due || Top(frames).ArrayFrame?)
    }

    constructor (callback: (nat, ParseEvent, Node) -> bool)
      requires forall depth, event, value :: callback(depth, event, value)
      ensures this.callback == callback && Ready() && frames == [] && !due
    {
      this.callback := callback;
      root := Leaf(Null);
      refStack := [];
      keepStack := [true];
      keyKeepStack := [];
      objectElement := None;
      frames := [];
      due := false;
    }

    /** Whether the value is kept, and a pointer to it. The callback is skipped when the value is a container being opened. */
    method HandleValue(value: Node, skipCallback: bool, ghost v: Json) returns (kept: bool, place: Option<Path>)
      requires ReadyWith(skipCallback) && value == Plain(v)
      modifies this`root, this`keyKeepStack, this`frames, this`due
      ensures kept && ValidWith(skipCallback) && !due && frames == Received(old(frames), v)
      ensures root == PlugNode(old(frames), value) && place == Some(Hole(old(frames)))
    {
      hide PlugNode, Hole, Pointers, NodeContent, At, Put, Received, Plain;
      ghost var open := frames;
      due := false;
      frames := Received(open, v);
      if !keepStack[|keepStack| - 1] {
        return false, None;
      }
      var keep := skipCallback || callback(|refStack|, ValueRead, value);
      if !keep {
        return false, None;
      }
      NoPointers(v);
      if refStack == [] {
        root := value;
        return true, Some([]);
      }
      ghost var front, top := Front(open), Top(open);
      assert open == front + [top];
      PointersSnoc(front, top);
      CallbackReceiveInside(front, top, old(due), v);
      CallbackReceived(front, top, v);
      assert Front(frames) == front;
      var back := refStack[|refStack| - 1];
      if back.None? {
        return false, None;
      }
      var container := At(root, back.value);
      if container.Some? && container.value.NodeArray? {
        var elements := container.value.elements;
        root := Put(root, back.value, NodeArray(elements + [value]));
        return true, Some(back.value + [Index(|elements|)]);
      }
      var storeElement := keyKeepStack[|keyKeepStack| - 1];
      keyKeepStack := keyKeepStack[..|keyKeepStack| - 1];
      if !storeElement {
        return false, None;
      }
      root := Put(root, objectElement.value, value);
      return true, objectElement;
    }

    /** Opens a container in the place of the next value. */
    method Start(event: ParseEvent, value: Node, ghost f: Frame)
      requires Ready() && value == Plain(Content(f, false))
      modifies this`root, this`refStack, this`keepStack, this`keyKeepStack, this`frames, this`due
      ensures Valid() && !due && frames == old(frames) + [f]
    {
      hide PlugNode, Hole, Pointers, At, Put, Received, Plain, Content;
      ghost var open := frames;
      var keep := callback(|refStack|, event, Discarded);
      keepStack := keepStack + [keep];
      var kept, place := HandleValue(value, true, Content(f, false));
      CallbackPointers(open, Content(f, false));
      PointersSnoc(open, f);
      refStack := refStack + [place];
      frames := open + [f];
      assert Front(frames) == open;
    }

    method StartObject()
      requires Ready()
      modifies this`root, this`refStack, this`keepStack, this`keyKeepStack, this`frames, this`due
      ensures Valid() && !due && frames == old(frames) + [ObjectFrame(map[], "")]
    {
      EmptyNodes();
      Start(ObjectStart, NodeObject(map[]), ObjectFrame(map[], ""));
    }

    method StartArray()
      requires Ready()
      modifies this`root, this`refStack, this`keepStack, this`keyKeepStack, this`frames, this`due
      ensures Valid() && !due && frames == old(frames) + [ArrayFrame([])]
    {
      EmptyNodes();
      Start(ArrayStart, NodeArray([]), ArrayFrame([]));
    }

    /** key() */
    method AddKey(key: string)
      requires Valid() && !due && frames != [] && Top(frames).ObjectFrame?
      modifies this`root, this`objectElement, this`keyKeepStack, this`frames, this`due
      ensures Valid() && due && frames == Front(old(frames)) + [ObjectFrame(Top(old(frames)).members, key)]
    {
      hide PlugNode, Hole, Pointers, At, Put, Received, Plain;
      ghost var front, top := Front(frames), Top(frames);
      ghost var next := ObjectFrame(top.members, key);
      assert frames == front + [top];
      PointersSnoc(front, top);
      PointersSnoc(front, next);
      ObjectIsThere(front, top, key);
      var keep := callback(|refStack|, KeyRead, Leaf(String(key)));
      keyKeepStack := keyKeepStack + [keep];
      var back := refStack[|refStack| - 1];
      if keep && back.Some? {
        var members := At(root, back.value).value.members;
        root := Put(root, back.value, NodeObject(members[key := Discarded]));
        objectElement := Some(back.value + [Key(key)]);
      }
      frames := front + [next];
      due := true;
    }

    method EndObject()
      requires Valid() && !due && frames != [] && Top(frames).ObjectFrame?
      modifies this`root, this`refStack, this`keepStack, this`frames
      ensures Valid() && !due && frames == Received(Front(old(frames)), Object(Top(old(frames)).members))
      ensures root == old(root) == PlugNode(Front(old(frames)), Plain(Object(Top(old(frames)).members)))
    {
      hide PlugNode, Hole, Pointers, At, Put, Received, Plain;
      ghost var front, top := Front(frames), Top(frames);
      assert frames == front + [top];
      PointersSnoc(front, top);
      CallbackPointers(front, Object(top.members));
      ContainerIsThere(front, Object(top.members));
      var back := refStack[|refStack| - 1];
      if back.Some? {
        var place := back.value;
        var keep := callback(|refStack| - 1, ObjectEnd, At(root, place).value);
        root := if keep then root else Put(root, place, Discarded);
      }
      refStack := refStack[..|refStack| - 1];
      keepStack := keepStack[..|keepStack| - 1];
      frames := Received(front, Object(top.members));
      if refStack != [] && refStack[|refStack| - 1].Some? {
        var place := refStack[|refStack| - 1].value;
        ghost var outer, parent := Front(front), Top(front);
        assert front == outer + [parent];
        PointersSnoc(outer, parent);
        ParentIsThere(outer, parent, Object(top.members));
        var structured := At(root, place);
        var cleaned := RemoveDiscarded(structured.value);
        root := Put(root, place, cleaned);
      }
    }

    method EndArray()
      requires Valid() && !due && frames != [] && Top(frames).ArrayFrame?
      modifies this`root, this`refStack, this`keepStack, this`frames
      ensures Valid() && !due && frames == Received(Front(old(frames)), Array(Top(old(frames)).elements))
      ensures root == old(root) == PlugNode(Front(old(frames)), Plain(Array(Top(old(frames)).elements)))
    {
      hide PlugNode, Hole, Pointers, At, Put, Received, Plain;
      ghost var front, top := Front(frames), Top(frames);
      assert frames == front + [top];
      PointersSnoc(front, top);
      CallbackPointers(front, Array(top.elements));
      ContainerIsThere(front, Array(top.elements));
      var keep := true;
      var back := refStack[|refStack| - 1];
      if back.Some? {
        var place := back.value;
        keep := callback(|refStack| - 1, ArrayEnd, At(root, place).value);
        root := if keep then root else Put(root, place, Discarded);
      }
      refStack := refStack[..|refStack| - 1];
      keepStack := keepStack[..|keepStack| - 1];
      frames := Received(front, Array(top.elements));
      if refStack != [] && refStack[|refStack| - 1].Some? {
        var outer := refStack[|refStack| - 1].value;
        root := if keep then root else WithoutLast(root, outer);
      }
    }
  }

  /** pop_back() on the array at a place. */
  function WithoutLast(n: Node, p: Path): Node {
    var found := At(n, p);
    if found.Some? && found.value.NodeArray? && found.value.elements != [] then
      Put(n, p, NodeArray(found.value.elements[..|found.value.elements| - 1]))
    else n
  }

  predicate NoDiscardedChild(n: Node) {
    && (n.NodeArray? ==> forall e :: e in n.elements ==> e != Discarded)
    && (n.NodeObject? ==> forall k :: k in n.members ==> n.members[k] != Discarded)
  }

  /** Erases the first discarded child. */
  method RemoveDiscarded(n: Node) returns (r: Node)
    ensures NoDiscardedChild(n) ==> r == n
  {
    r := n;
    match n {
      case NodeArray(elements) =>
        for i := 0 to |elements| {
          assert elements[i] in elements;
          if elements[i] == Discarded {
            return NodeArray(elements[..i] + elements[i + 1..]);
          }
        }
      case NodeObject(members) =>
        var keys := Ordered(members.Keys);
        for i := 0 to |keys| {
          assert keys[i] in members.Keys;
          if members[keys[i]] == Discarded {
            return NodeObject(members - {keys[i]});
          }
        }
      case _ =>
    }
  }

  lemma EmptyNodes()
    ensures NodeArray([]) == Plain(Content(ArrayFrame([]), false))
    ensures NodeObject(map[]) == Plain(Content(ObjectFrame(map[], ""), false))
  {
  }

  lemma CallbackPointers(frames: seq<Frame>, v: Json)
    ensures Pointers(Received(frames, v)) == Pointers(frames)
    ensures var after := Received(frames, v);
            after != [] ==> PlugNode(Front(after), NodeContent(Top(after), false)) == PlugNode(frames, Plain(v))
  {
    if frames != [] {
      var front, top := Front(frames), Top(frames);
      assert frames == front + [top];
      CallbackReceived(front, top, v);
      CallbackReceiveInside(front, top, false, v);
      assert Front(front + [Filled(top, v)]) == front;
    }
  }

  /** The open object can be given a placeholder for a key. */
  lemma ObjectIsThere(front: seq<Frame>, top: Frame, key: string)
    requires top.ObjectFrame?
    ensures var n, next := PlugNode(front, NodeContent(top, false)), ObjectFrame(top.members, key);
            && At(n, Hole(front)) == Some(Plain(Object(top.members))) && Plain(Object(top.members)).NodeObject?
            && Put(n, Hole(front), NodeObject(Plain(Object(top.members)).members[key := Discarded]))
               == PlugNode(front, NodeContent(next, true))
            && Hole(front + [next]) == Hole(front) + [Key(key)]
            && Front(front + [next]) == front
  {
    var next := ObjectFrame(top.members, key);
    PutPlugged(front, NodeContent(top, false), NodeContent(next, true));
    PlugSnoc(front, next, Null);
  }

  lemma ContainerIsThere(front: seq<Frame>, v: Json)
    ensures At(PlugNode(front, Plain(v)), Hole(front)) == Some(Plain(v))
  {
    PutPlugged(front, Plain(v), Plain(v));
  }

  /** A parent whose value is complete has no discarded child. */
  lemma ParentIsThere(outer: seq<Frame>, parent: Frame, v: Json)
    ensures var n, whole := PlugNode(outer + [parent], Plain(v)), Plain(With(parent, v));
            && At(n, Hole(outer)) == Some(whole) && Put(n, Hole(outer), whole) == n
            && NoDiscardedChild(whole)
  {
    PlugNodeSnoc(outer, parent, Plain(v));
    AroundPlain(parent, v);
    PutPlugged(outer, Plain(With(parent, v)), Plain(With(parent, v)));
    PlainHoldsNothingDiscarded(With(parent, v));
  }

  lemma NoPointers(v: Json)
    ensures Received([], v) == [] && PlugNode([], Plain(v)) == Plain(v) && Hole([]) == [] && Pointers([]) == []
    ensures forall frames :: Pointers(frames) == [] <==> frames == []
  {
  }

  lemma CallbackReceived(front: seq<Frame>, top: Frame, v: Json)
    ensures Received(front + [top], v) == front + [Filled(top, v)]
    ensures Pointers(front + [Filled(top, v)]) == Pointers(front + [top])
  {
    PointersSnoc(front, top);
    PointersSnoc(front, Filled(top, v));
    assert Front(front + [top]) == front;
  }

  // --- both handlers on the same events ---

  datatype Event = ValueEvent(v: Json) | StartObjectEvent | KeyEvent(key: string) | EndObjectEvent | StartArrayEvent | EndArrayEvent

  /** Whether an event may follow, given the open containers. */
  ghost predicate Allowed(frames: seq<Frame>, due: bool, e: Event) {
    match e
    case ValueEvent(v) => (v.IsPrimitive()) && (frames == [] || due || Top(frames).ArrayFrame?)
    case StartObjectEvent => frames == [] || due || Top(frames).ArrayFrame?
    case StartArrayEvent => frames == [] || due || Top(frames).ArrayFrame?
    case KeyEvent(_) => !due && frames != [] && Top(frames).ObjectFrame?
    case EndObjectEvent => !due && frames != [] && Top(frames).ObjectFrame?
    case EndArrayEvent => !due && frames != [] && Top(frames).ArrayFrame?
  }

  function FramesAfter(frames: seq<Frame>, e: Event): seq<Frame>
    requires e.KeyEvent? || e.EndObjectEvent? ==> frames != [] && Top(frames).ObjectFrame?
    requires e.EndArrayEvent? ==> frames != [] && Top(frames).ArrayFrame?
  {
    match e
    case ValueEvent(v) => Received(frames, v)
    case StartObjectEvent => frames + [ObjectFrame(map[], "")]
    case StartArrayEvent => frames + [ArrayFrame([])]
    case KeyEvent(key) => Front(frames) + [ObjectFrame(Top(frames).members, key)]
    case EndObjectEvent => Received(Front(frames), Object(Top(frames).members))
    case EndArrayEvent => Received(Front(frames), Array(Top(frames).elements))
  }

  /** The events are well bracketed, keys and values alternate in objects, and one value results. */
  ghost predicate WellBracketed(frames: seq<Frame>, due: bool, events: seq<Event>)
    decreases |events|
  {
    if events == [] then frames == []
    else
      && Allowed(frames, due, events[0])
      && WellBracketed(FramesAfter(frames, events[0]), events[0].KeyEvent?, events[1..])
  }

  method Feed(plain: DomBuilder, filtering: CallbackBuilder, e: Event)
    requires plain.Valid() && filtering.Valid() && plain.frames == filtering.frames && plain.due == filtering.due
    requires Allowed(plain.frames, plain.due, e)
    modifies plain, filtering
    ensures plain.Valid() && filtering.Valid() && plain.frames == filtering.frames && plain.due == filtering.due
    ensures plain.frames == FramesAfter(old(plain.frames), e) && plain.due == e.KeyEvent?
    ensures plain.frames == [] ==> filtering.root == Plain(plain.root)
  {
    match e {
      case ValueEvent(v) =>
        PlugPlain(plain.frames, v);
        var _ := plain.HandleValue(v);
        var _, _ := filtering.HandleValue(Leaf(v), false, v);
      case StartObjectEvent =>
        plain.StartObject();
        filtering.StartObject();
      case StartArrayEvent =>
        plain.StartArray();
        filtering.StartArray();
      case KeyEvent(key) =>
        plain.AddKey(key);
        filtering.AddKey(key);
      case EndObjectEvent =>
        PlugPlain(Front(plain.frames), Object(Top(plain.frames).members));
        plain.EndObject();
        filtering.EndObject();
      case EndArrayEvent =>
        PlugPlain(Front(plain.frames), Array(Top(plain.frames).elements));
        plain.EndArray();
        filtering.EndArray();
    }
  }

  /** On every well-bracketed sequence of events, both handlers build the same tree, and nothing in it is discarded. */
  method BuildBoth(events: seq<Event>, callback: (nat, ParseEvent, Node) -> bool) returns (plainRoot: Json, root: Node)
    requires forall depth, event, value :: callback(depth, event, value)
    requires events != [] && WellBracketed([], false, events)
    ensures root == Plain(plainRoot) && NothingDiscarded(root)
  {
    hide Plain;
    var plain := new DomBuilder(Null);
    var filtering := new CallbackBuilder(callback);
    for i := 0 to |events|
      invariant plain.Valid() && filtering.Valid() && plain.frames == filtering.frames && plain.due == filtering.due
      invariant WellBracketed(plain.frames, plain.due, events[i..])
      invariant |filtering.keepStack| == |filtering.refStack| + 1
      invariant 0 < i && plain.frames == [] ==> filtering.root == Plain(plain.root)
    {
      assert events[i..][0] == events[i] && events[i..][1..] == events[i + 1..];
      Feed(plain, filtering, events[i]);
    }
    plainRoot, root := plain.root, filtering.root;
    PlainHoldsNothingDiscarded(plainRoot);
  }
}
