/** The SAX handler that builds the tree; pointers into the tree are paths from its root. */
module DomBuilding {
  import opened JsonValues
  import opened Options

  // --- places in a tree ---

  datatype Step = Index(i: nat) | Key(k: string)
  type Path = seq<Step>

  function Descend(j: Json, s: Step): Option<Json> {
    if j.Array? && s.Index? && s.i < |j.elements| then Some(j.elements[s.i])
    else if j.Object? && s.Key? && s.k in j.members then Some(j.members[s.k])
    else None
  }

  /** What a pointer refers to. */
  function Get(j: Json, p: Path): Option<Json>
    decreases |p|
  {
    if p == [] then Some(j)
    else
      var child := Descend(j, p[0]);
      if child.None? then None else Get(child.value, p[1..])
  }

  /** The tree after an assignment through a pointer. */
  function Set(j: Json, p: Path, v: Json): Json
    requires Get(j, p).Some?
    decreases |p|
  {
    if p == [] then v
    else
      var child := Set(Descend(j, p[0]).value, p[1..], v);
      if j.Array? then Array(j.elements[p[0].i := child]) else Object(j.members[p[0].k := child])
  }

  // --- open containers ---

  /** A container that is being filled: what is complete, and for an object the key of the next or current value. */
  datatype Frame = ArrayFrame(elements: seq<Json>) | ObjectFrame(members: map<string, Json>, key: string)

  function StepOf(f: Frame): Step {
    match f
    case ArrayFrame(elements) => Index(|elements|)
    case ObjectFrame(_, key) => Key(key)
  }

  /** The container with its current value. */
  function With(f: Frame, v: Json): Json {
    match f
    case ArrayFrame(elements) => Array(elements + [v])
    case ObjectFrame(members, key) => Object(members[key := v])
  }

  /** The container as it stands, with a null for a key whose value is still to come. */
  function Content(f: Frame, due: bool): Json {
    match f
    case ArrayFrame(elements) => Array(elements)
    case ObjectFrame(members, key) => Object(if due then members[key := Lookup(members, key)] else members)
  }

  /** The frame once its value is complete. */
  function Filled(f: Frame, v: Json): Frame {
    match f
    case ArrayFrame(elements) => ArrayFrame(elements + [v])
    case ObjectFrame(members, key) => ObjectFrame(members[key := v], key)
  }

  /** The path of the value that comes next. */
  function Hole(frames: seq<Frame>): Path {
    seq(|frames|, i requires 0 <= i < |frames| => StepOf(frames[i]))
  }

  /** The tree of open containers around a value. */
  function Plug(frames: seq<Frame>, v: Json): Json
  {
    if frames == [] then v else With(frames[0], Plug(frames[1..], v))
  }

  lemma {:induction false} GetPlugged(frames: seq<Frame>, v: Json)
    ensures Get(Plug(frames, v), Hole(frames)) == Some(v)
  {
    if frames != [] {
      assert Hole(frames)[1..] == Hole(frames[1..]);
      GetPlugged(frames[1..], v);
    }
  }

  lemma {:induction false} SetPlugged(frames: seq<Frame>, v: Json, w: Json)
    ensures Get(Plug(frames, v), Hole(frames)).Some?
    ensures Set(Plug(frames, v), Hole(frames), w) == Plug(frames, w)
  {
    GetPlugged(frames, v);
    if frames != [] {
      assert Hole(frames)[1..] == Hole(frames[1..]);
      SetPlugged(frames[1..], v, w);
      var inner, outer := Plug(frames[1..], v), Plug(frames[1..], w);
      var f := frames[0];
      if f.ArrayFrame? {
        assert (f.elements + [inner])[|f.elements| := outer] == f.elements + [outer];
      } else {
        assert f.members[f.key := inner][f.key := outer] == f.members[f.key := outer];
      }
    }
  }

  lemma {:induction false} PlugSnoc(front: seq<Frame>, f: Frame, v: Json)
    ensures Plug(front + [f], v) == Plug(front, With(f, v))
    ensures Hole(front + [f]) == Hole(front) + [StepOf(f)]
  {
    if front == [] {
      assert [f][1..] == [];
    } else {
      assert (front + [f])[1..] == front[1..] + [f];
      PlugSnoc(front[1..], f, v);
    }
  }

  function Front(frames: seq<Frame>): seq<Frame>
    requires frames != []
  {
    frames[..|frames| - 1]
  }

  function Top(frames: seq<Frame>): Frame
    requires frames != []
  {
    frames[|frames| - 1]
  }

  /** The paths of the open containers, the outermost first. */
  function Places(frames: seq<Frame>): seq<Path> {
    seq(|frames|, i requires 0 <= i < |frames| => Hole(frames[..i]))
  }

  lemma PlacesSnoc(frames: seq<Frame>, f: Frame)
    ensures Places(frames + [f]) == Places(frames) + [Hole(frames)]
    ensures Places(frames + [f])[..|frames|] == Places(frames)
  {
    assert forall i :: 0 <= i <= |frames| ==> (frames + [f])[..i] == frames[..i];
    assert frames[..|frames|] == frames;
  }

  /** The frames after a value is complete: it belongs to the innermost open container. */
  function Received(frames: seq<Frame>, v: Json): seq<Frame> {
    if frames == [] then [] else Front(frames) + [Filled(Top(frames), v)]
  }

  // --- the handler ---

  class DomBuilder {
    var root: Json
    var refStack: seq<Path>
    var objectElement: Option<Path>
    var errored: bool
    ghost var frames: seq<Frame>
    /** Whether a key was read whose value is still to come. */
    ghost var due: bool

    ghost predicate Valid()
      reads this
    {
      && refStack == Places(frames)
      && (frames != [] ==> root == Plug(Front(frames), Content(Top(frames), due)))
      && (due ==> frames != [] && Top(frames).ObjectFrame? && objectElement == Some(Hole(frames)))
    }

    /** Whether a value may come next. */
    ghost predicate Ready()
      reads this
    {
      Valid() && (frames == [] || due || Top(frames).ArrayFrame?)
    }

    constructor (j: Json)
      ensures Ready() && frames == [] && !due && !errored
    {
      root := j;
      refStack := [];
      objectElement := None;
      errored := false;
      frames := [];
      due := false;
    }

    /** Puts a value where it belongs and returns a pointer to it. */
    method HandleValue(v: Json) returns (place: Path)
      requires Ready()
      modifies this`root, this`frames, this`due
      ensures Valid() && !due && frames == Received(old(frames), v)
      ensures root == Plug(old(frames), v) && place == Hole(old(frames))
    {
      hide Plug, Hole, Places, Content, With, Get, Set, Received;
      ghost var open := frames;
      due := false;
      frames := Received(open, v);
      ReceiveOutermost(v);
      if refStack == [] {
        root := v;
        return [];
      }
      var back := refStack[|refStack| - 1];
      ghost var front, top := Front(open), Top(open);
      assert open == front + [top];
      ReceiveInside(front, top, v);
      BackOfPlaces(front, top, old(due), v);
      var container := Get(root, back).value;
      if container.Array? {
        root := Set(root, back, Array(container.elements + [v]));
        return back + [Index(|container.elements|)];
      }
      SetThroughElement(front, top, v);
      root := Set(root, objectElement.value, v);
      return objectElement.value;
    }

    /** Opens a container in the place of the next value. */
    method Start(v: Json, ghost f: Frame)
      requires Ready() && v == Content(f, false)
      modifies this`root, this`refStack, this`frames, this`due
      ensures Valid() && !due && frames == old(frames) + [f]
    {
      hide Plug, Hole, Places, Content, Received;
      ghost var open := frames;
      var place := HandleValue(v);
      ReceivedPlaces(open, v);
      PlacesSnoc(open, f);
      refStack := refStack + [place];
      frames := open + [f];
      assert Front(frames) == open;
    }

    method StartObject()
      requires Ready()
      modifies this`root, this`refStack, this`frames, this`due
      ensures Valid() && !due && frames == old(frames) + [ObjectFrame(map[], "")]
    {
      Start(Object(map[]), ObjectFrame(map[], ""));
    }

    method StartArray()
      requires Ready()
      modifies this`root, this`refStack, this`frames, this`due
      ensures Valid() && !due && frames == old(frames) + [ArrayFrame([])]
    {
      Start(Array([]), ArrayFrame([]));
    }

    /** key() */
    method AddKey(key: string)
      requires Valid() && !due && frames != [] && Top(frames).ObjectFrame?
      modifies this`root, this`objectElement, this`frames, this`due
      ensures Valid() && due && frames == Front(old(frames)) + [ObjectFrame(Top(old(frames)).members, key)]
    {
      hide Plug, Hole, Places, With, Get, Set, Received;
      ghost var front, top := Front(frames), Top(frames);
      assert frames == front + [top];
      BackOfPlaces(front, top, false, Null);
      var back := refStack[|refStack| - 1];
      var members := Get(root, back).value.members;
      ghost var next := ObjectFrame(members, key);
      SetPlugged(front, Content(top, false), Content(next, true));
      ReceiveInside(front, top, Null);
      PlacesSnoc(front, top);
      PlacesSnoc(front, next);
      PlugSnoc(front, next, Null);
      root := Set(root, back, Object(members[key := Lookup(members, key)]));
      objectElement := Some(back + [Key(key)]);
      frames := front + [next];
      due := true;
    }

    /** Closes the innermost container: it is complete. */
    method End(ghost f: Frame)
      requires Valid() && !due && frames != [] && f == Top(frames)
      modifies this`refStack, this`frames
      ensures Valid() && !due && frames == Received(Front(old(frames)), Content(f, false))
      ensures root == old(root) == Plug(Front(old(frames)), Content(f, false))
    {
      hide Plug, Hole, Places, Content, Received;
      ghost var front := Front(frames);
      assert frames == front + [f];
      PlacesSnoc(front, f);
      ReceivedPlaces(front, Content(f, false));
      refStack := refStack[..|refStack| - 1];
      frames := Received(front, Content(f, false));
    }

    method EndObject()
      requires Valid() && !due && frames != [] && Top(frames).ObjectFrame?
      modifies this`refStack, this`frames
      ensures Valid() && !due && frames == Received(Front(old(frames)), Object(Top(old(frames)).members))
      ensures root == old(root) == Plug(Front(old(frames)), Object(Top(old(frames)).members))
    {
      End(Top(frames));
    }

    method EndArray()
      requires Valid() && !due && frames != [] && Top(frames).ArrayFrame?
      modifies this`refStack, this`frames
      ensures Valid() && !due && frames == Received(Front(old(frames)), Array(Top(old(frames)).elements))
      ensures root == old(root) == Plug(Front(old(frames)), Array(Top(old(frames)).elements))
    {
      End(Top(frames));
    }

    /** parse_error() without exceptions. */
    method Fail() returns (r: bool)
      modifies this`errored
      ensures errored && !r
    {
      errored := true;
      r := false;
    }
  }

  /** After a value is received the stack is the same and the tree is the one around it. */
  lemma ReceivedPlaces(frames: seq<Frame>, v: Json)
    ensures Places(Received(frames, v)) == Places(frames)
    ensures var after := Received(frames, v);
            after != [] ==> Plug(Front(after), Content(Top(after), false)) == Plug(frames, v)
  {
    if frames != [] {
      var front, top := Front(frames), Top(frames);
      assert frames == front + [top];
      ReceiveInside(front, top, v);
    }
  }

  lemma ReceiveOutermost(v: Json)
    ensures Received([], v) == [] && Plug([], v) == v && Hole([]) == [] && Places([]) == []
    ensures forall frames :: Places(frames) == [] <==> frames == []
  {
  }

  lemma ReceiveInside(front: seq<Frame>, top: Frame, v: Json)
    ensures Received(front + [top], v) == front + [Filled(top, v)]
    ensures Places(front + [Filled(top, v)]) == Places(front + [top])
    ensures Plug(front + [top], v) == Plug(front, Content(Filled(top, v), false))
  {
    PlacesSnoc(front, top);
    PlacesSnoc(front, Filled(top, v));
    PlugSnoc(front, top, v);
    assert Front(front + [top]) == front;
  }

  /** The last pointer on the stack refers to the innermost open container. */
  lemma BackOfPlaces(front: seq<Frame>, top: Frame, due: bool, v: Json)
    ensures var j, places := Plug(front, Content(top, due)), Places(front + [top]);
            && places != [] && places[|places| - 1] == Hole(front)
            && Get(j, Hole(front)) == Some(Content(top, due))
            && (Content(top, due).Array? <==> top.ArrayFrame?)
            && (top.ArrayFrame? ==>
                  && Content(top, due).elements == top.elements
                  && Set(j, Hole(front), Array(top.elements + [v])) == Plug(front + [top], v)
                  && Hole(front + [top]) == Hole(front) + [Index(|top.elements|)])
  {
    PlacesSnoc(front, top);
    GetPlugged(front, Content(top, due));
    SetPlugged(front, Content(top, due), With(top, v));
    PlugSnoc(front, top, v);
  }

  /** Assigning through the pointer a key leaves behind. */
  lemma SetThroughElement(front: seq<Frame>, top: Frame, v: Json)
    requires top.ObjectFrame?
    ensures var j := Plug(front, Content(top, true));
            && Get(j, Hole(front + [top])).Some?
            && Set(j, Hole(front + [top]), v) == Plug(front + [top], v)
  {
    var before := Lookup(top.members, top.key);
    PlugSnoc(front, top, before);
    SetPlugged(front + [top], before, v);
  }
}
