/** JSON Patch (RFC 6902) applied in place. */
module Patching {
  import DigitGen
  import opened JsonValues
  import opened JsonPointers

  /** The outcome of a failed assertion in the source: "add" below a value that can have no members. */
  const ASSERTION_FAILED: nat := 0

  // --- one operation, by recursion on the path ---

  /** "add" of a direct child: a new or overwritten member, or an element inserted before a position or at the end. */
  function AddedChild(parent: Json, token: string, v: Json): Result<Json> {
    match parent
    case Null => Ok(Object(map[token := v]))
    case Object(members) => Ok(Object(members[token := v]))
    case Array(elements) =>
      if token == "-" then Ok(Array(elements + [v]))
      else
        var i :- ArrayIndex(token);
        if |elements| < i then Err(401) else Ok(Array(elements[..i] + [v] + elements[i..]))
    case _ => Err(ASSERTION_FAILED)
  }

  function Added(j: Json, tokens: seq<string>, v: Json): Result<Json>
    decreases |tokens|
  {
    if tokens == [] then Ok(v)
    else if |tokens| == 1 then AddedChild(j, tokens[0], v)
    else
      var child :- Child(j, tokens[0]);
      var added :- Added(child, tokens[1..], v);
      Ok(WithChild(j, tokens[0], added))
  }

  /** "remove" of a direct child; a primitive parent is silently left as it is. */
  function RemovedChild(parent: Json, token: string): Result<Json> {
    match parent
    case Object(members) => if token in members then Ok(Object(members - {token})) else Err(403)
    case Array(elements) =>
      var i :- ArrayIndex(token);
      if i < |elements| then Ok(Array(elements[..i] + elements[i + 1..])) else Err(401)
    case _ => Ok(parent)
  }

  function Removed(j: Json, tokens: seq<string>): Result<Json>
    decreases |tokens|
  {
    if tokens == [] then Err(405)
    else if |tokens| == 1 then RemovedChild(j, tokens[0])
    else
      var child :- Child(j, tokens[0]);
      var removed :- Removed(child, tokens[1..]);
      Ok(WithChild(j, tokens[0], removed))
  }

  /** Adding to the parent where it stands is adding by recursion. */
  lemma {:induction false} AddedInPlace(j: Json, tokens: seq<string>, v: Json)
    requires tokens != []
    ensures var front, last := tokens[..|tokens| - 1], tokens[|tokens| - 1];
            Added(j, tokens, v) ==
              if At(j, front).Err? then Err(At(j, front).id)
              else var parent := AddedChild(At(j, front).value, last, v);
                   if parent.Err? then parent else Ok(Replaced(j, front, parent.value))
    decreases |tokens|
  {
    var front := tokens[..|tokens| - 1];
    if 1 < |tokens| {
      assert front[1..] == tokens[1..][..|tokens| - 2];
      if Child(j, tokens[0]).Ok? {
        AddedInPlace(Child(j, tokens[0]).value, tokens[1..], v);
      }
    }
  }

  lemma {:induction false} RemovedInPlace(j: Json, tokens: seq<string>)
    requires tokens != []
    ensures var front, last := tokens[..|tokens| - 1], tokens[|tokens| - 1];
            Removed(j, tokens) ==
              if At(j, front).Err? then Err(At(j, front).id)
              else var parent := RemovedChild(At(j, front).value, last);
                   if parent.Err? then parent else Ok(Replaced(j, front, parent.value))
    decreases |tokens|
  {
    var front := tokens[..|tokens| - 1];
    if 1 < |tokens| {
      assert front[1..] == tokens[1..][..|tokens| - 2];
      if Child(j, tokens[0]).Ok? {
        RemovedInPlace(Child(j, tokens[0]).value, tokens[1..]);
      }
    }
  }

  /**
   * Section 4.2 of RFC 6902 wants the target of "remove" to exist. The code meets this
   * exactly for parents that are objects or arrays.
   */
  lemma RemoveNeedsItsTarget(j: Json, tokens: seq<string>)
    requires tokens != []
    ensures var parent := At(j, tokens[..|tokens| - 1]);
            (Removed(j, tokens).Ok? && At(j, tokens).Err?) <==> (parent.Ok? && parent.value.IsPrimitive())
  {
    var front, last := tokens[..|tokens| - 1], tokens[|tokens| - 1];
    RemovedInPlace(j, tokens);
    assert tokens == front + [last];
    if At(j, front).Ok? {
      AtAppend(j, front, [last]);
      OneStep(At(j, front).value, last);
      DashIsNoIndex();
    } else {
      AtFailsEarly(j, front, [last]);
    }
  }

  /**
   * Section 4.1 of RFC 6902 wants the parent of what is added to be an object or an array. Below any other value "add"
   * ends in a failed assertion, except that below null it succeeds.
   */
  lemma AddNeedsContainerOrNull(j: Json, tokens: seq<string>, v: Json)
    requires tokens != []
    ensures var parent := At(j, tokens[..|tokens| - 1]);
            && ((parent.Ok? && Added(j, tokens, v) == Err(ASSERTION_FAILED))
                <==> (parent.Ok? && parent.value.IsPrimitive() && !parent.value.Null?))
            && (parent.Ok? && parent.value.IsPrimitive() ==> (Added(j, tokens, v).Ok? <==> parent.value.Null?))
  {
    AddedInPlace(j, tokens, v);
  }

  /** {"a":1} and {"a":null}, with a value added at "/a/b". */
  lemma AddBelowPrimitive(v: Json)
    ensures Added(Object(map["a" := Number(1.0)]), ["a", "b"], v) == Err(ASSERTION_FAILED)
    ensures Added(Object(map["a" := Null]), ["a", "b"], v) == Ok(Object(map["a" := Object(map["b" := v])]))
  {
    assert ["a", "b"][1..] == ["b"];
    var below := Object(map["b" := v]);
    assert map["a" := Null]["a" := below] == map["a" := below];
  }

  /** Section 4.2 wants an existing target to be removed. The code meets this exactly if it is not the whole document. */
  lemma {:induction false} RemoveWorksIff(j: Json, tokens: seq<string>)
    ensures At(j, tokens).Ok? ==> (Removed(j, tokens).Ok? <==> tokens != [])
    ensures At(j, tokens).Ok? && tokens != [] ==> Removed(j, tokens) != Ok(j)
    decreases |tokens|
  {
    if tokens != [] && At(j, tokens).Ok? {
      if |tokens| == 1 {
        RemovedChildDiffers(j, tokens[0]);
      } else {
        var child := Child(j, tokens[0]).value;
        RemoveWorksIff(child, tokens[1..]);
        ChildTwice(j, tokens[0], Removed(child, tokens[1..]).value, child);
      }
    }
  }

  lemma RemovedChildDiffers(j: Json, token: string)
    requires Child(j, token).Ok?
    ensures RemovedChild(j, token).Ok? && RemovedChild(j, token).value != j
  {
    hide ArrayIndex;
    if j.Object? {
      assert token !in j.members - {token};
    }
  }

  lemma WholeDocumentStays(j: Json)
    ensures At(j, []).Ok? && Removed(j, []) == Err(405)
  {
  }

  /** {"a":1} with "remove" at "/a/b", which does not exist. */
  lemma RemoveBelowPrimitive()
    ensures var j := Object(map["a" := Number(1.0)]);
            Removed(j, ["a", "b"]) == Ok(j) && At(j, ["a", "b"]).Err?
  {
    assert ["a", "b"][1..] == ["b"];
    assert map["a" := Number(1.0)]["a" := Number(1.0)] == map["a" := Number(1.0)];
  }

  /** What stands in the place of a removed value: the next element of its array, or nothing. */
  ghost predicate NextTakes(j: Json, from: seq<string>, rest: seq<string>, v: Json)
    requires from != []
  {
    && At(j, from[..|from| - 1]).Ok?
    && var parent, i := At(j, from[..|from| - 1]).value, ArrayIndex(from[|from| - 1]);
    parent.Array? && i.Ok? && i.value + 1 < |parent.elements| && Added(parent.elements[i.value + 1], rest, v).Ok?
  }

  /** Adding below the place of a value that was removed works exactly if the next element slides in and takes it. */
  lemma {:induction false} AddBelowRemoved(j: Json, from: seq<string>, rest: seq<string>, v: Json)
    requires from != [] && rest != [] && At(j, from).Ok?
    ensures Removed(j, from).Ok?
    ensures Added(Removed(j, from).value, from + rest, v).Ok? <==> NextTakes(j, from, rest, v)
    decreases |from|
  {
    hide Child, WithChild, RemovedChild, AddedChild, ArrayIndex;
    RemoveWorksIff(j, from);
    assert (from + rest)[0] == from[0] && (from + rest)[1..] == from[1..] + rest;
    if |from| == 1 {
      AddBelowRemovedChild(j, from, rest, v);
    } else {
      var child, below := Child(j, from[0]).value, from[1..];
      AddBelowRemoved(child, below, rest, v);
      ChildTwice(j, from[0], Removed(child, below).value, child);
      assert from[..|from| - 1][1..] == below[..|below| - 1];
    }
  }

  lemma AddBelowRemovedChild(j: Json, from: seq<string>, rest: seq<string>, v: Json)
    requires |from| == 1 && rest != [] && At(j, from).Ok? && Removed(j, from).Ok?
    ensures Added(Removed(j, from).value, from + rest, v).Ok? <==> NextTakes(j, from, rest, v)
  {
    hide RemovedChild, WithChild, AddedChild, ArrayIndex;
    assert from[..0] == [] && (from + rest)[0] == from[0] && (from + rest)[1..] == rest;
    NextElementSlidesIn(j, from[0]);
  }

  lemma NextElementSlidesIn(j: Json, token: string)
    requires Child(j, token).Ok?
    ensures RemovedChild(j, token).Ok?
    ensures j.Object? ==> Child(RemovedChild(j, token).value, token).Err?
    ensures j.Array? ==> ArrayIndex(token).Ok?
    ensures j.Array? ==>
      var i := ArrayIndex(token).value;
      Child(RemovedChild(j, token).value, token) == if i + 1 < |j.elements| then Ok(j.elements[i + 1]) else Err(401)
  {
    hide ArrayIndex;
  }

  lemma {:induction false} AtFailsEarly(j: Json, a: seq<string>, b: seq<string>)
    requires At(j, a).Err?
    ensures At(j, a + b) == At(j, a)
    decreases |a|
  {
    if Child(j, a[0]).Ok? {
      assert (a + b)[1..] == a[1..] + b;
      AtFailsEarly(Child(j, a[0]).value, a[1..], b);
    }
  }

  /** The value added is found at the path, except at "-", which names no element. */
  lemma AddedIsFound(j: Json, tokens: seq<string>, v: Json)
    requires Added(j, tokens, v).Ok?
    requires tokens != [] ==>
      var parent := At(j, tokens[..|tokens| - 1]);
      parent.Ok? && parent.value.Array? ==> tokens[|tokens| - 1] != "-"
    ensures At(Added(j, tokens, v).value, tokens) == Ok(v)
  {
    if tokens != [] {
      var front, last := tokens[..|tokens| - 1], tokens[|tokens| - 1];
      AddedInPlace(j, tokens, v);
      var parent := AddedChild(At(j, front).value, last, v).value;
      AtReplaced(j, front, parent);
      assert tokens == front + [last];
      AtAppend(Replaced(j, front, parent), front, [last]);
      OneStep(parent, last);
    }
  }

  // --- "add" and "remove" undo each other ---

  lemma AddUndoesRemoveChild(j: Json, token: string)
    requires Child(j, token).Ok?
    ensures RemovedChild(j, token).Ok?
    ensures AddedChild(RemovedChild(j, token).value, token, Child(j, token).value) == Ok(j)
  {
    hide ArrayIndex;
    if j.Object? {
      assert (j.members - {token})[token := j.members[token]] == j.members;
    } else {
      var i := ArrayIndex(token).value;
      var rest := j.elements[..i] + j.elements[i + 1..];
      assert rest[..i] + [j.elements[i]] + rest[i..] == j.elements;
    }
  }

  /** A removed value that is added again at its path restores the tree. */
  lemma {:induction false} AddUndoesRemove(j: Json, tokens: seq<string>)
    requires tokens != [] && At(j, tokens).Ok?
    ensures Removed(j, tokens).Ok?
    ensures Added(Removed(j, tokens).value, tokens, At(j, tokens).value) == Ok(j)
    decreases |tokens|
  {
    hide Child, WithChild, RemovedChild, AddedChild;
    RemoveWorksIff(j, tokens);
    if |tokens| == 1 {
      OneStep(j, tokens[0]);
      assert tokens == [tokens[0]];
      AddUndoesRemoveChild(j, tokens[0]);
    } else {
      var child, below := Child(j, tokens[0]).value, tokens[1..];
      AddUndoesRemove(child, below);
      ChildTwice(j, tokens[0], Removed(child, below).value, child);
      SameChild(j, tokens[0]);
    }
  }

  lemma SameChild(j: Json, token: string)
    requires Child(j, token).Ok?
    ensures WithChild(j, token, Child(j, token).value) == j
  {
    hide ArrayIndex;
  }

  /** Whether "add" makes room at this place: before a position of an array, or for a new member. */
  predicate MakesRoom(parent: Json, token: string) {
    match parent
    case Array(_) => token != "-"
    case Object(members) => token !in members
    case _ => false
  }

  lemma RemoveUndoesAddChild(j: Json, token: string, v: Json)
    requires AddedChild(j, token, v).Ok?
    ensures RemovedChild(AddedChild(j, token, v).value, token) == Ok(j) <==> MakesRoom(j, token)
  {
    hide ArrayIndex;
    match j
    case Object(members) =>
      if token in members {
        assert token !in members[token := v] - {token};
      } else {
        assert members[token := v] - {token} == members;
      }
    case Array(elements) =>
      DashIsNoIndex();
      if token != "-" {
        var i := ArrayIndex(token).value;
        var more := elements[..i] + [v] + elements[i..];
        assert more[..i] + more[i + 1..] == elements;
      }
    case _ =>
  }

  /** What was added is removed again, and nothing else, exactly if it overwrote nothing and made no object of null. */
  lemma {:induction false} RemoveUndoesAdd(j: Json, tokens: seq<string>, v: Json)
    requires tokens != [] && Added(j, tokens, v).Ok?
    ensures At(j, tokens[..|tokens| - 1]).Ok?
    ensures Removed(Added(j, tokens, v).value, tokens) == Ok(j)
       <==> MakesRoom(At(j, tokens[..|tokens| - 1]).value, tokens[|tokens| - 1])
    decreases |tokens|
  {
    hide Child, WithChild, RemovedChild, AddedChild, MakesRoom;
    if |tokens| == 1 {
      RemoveUndoesAddChild(j, tokens[0], v);
    } else {
      var child, below := Child(j, tokens[0]).value, tokens[1..];
      var added := Added(child, below, v).value;
      RemoveUndoesAdd(child, below, v);
      assert tokens[..|tokens| - 1][1..] == below[..|below| - 1];
      SameChild(j, tokens[0]);
      ChildTwice(j, tokens[0], added, child);
      if Removed(added, below).Ok? {
        ChildTwice(j, tokens[0], added, Removed(added, below).value);
        ChildTwice(j, tokens[0], Removed(added, below).value, child);
      }
    }
  }

  // --- patch documents ---

  function Member(op: Json, name: string): Result<Json>
    requires op.Object?
  {
    if name in op.members then Ok(op.members[name]) else Err(105)
  }

  function TextMember(op: Json, name: string): Result<string>
    requires op.Object?
  {
    var v :- Member(op, name);
    if v.String? then Ok(v.s) else Err(105)
  }

  /** One operation of section 4 of RFC 6902. */
  ghost function Applied(j: Json, op: Json): Result<Json> {
    if !op.Object? then Err(104)
    else
      var name :- TextMember(op, "op");
      var path :- TextMember(op, "path");
      var tokens :- Parsed(path);
      if name == "add" then
        var v :- Member(op, "value");
        Added(j, tokens, v)
      else if name == "remove" then
        Removed(j, tokens)
      else if name == "replace" then
        var v :- Member(op, "value");
        var _ :- At(j, tokens);
        Ok(Replaced(j, tokens, v))
      else if name == "move" then
        var from :- TextMember(op, "from");
        var source :- Parsed(from);
        var v :- At(j, source);
        var without :- Removed(j, source);
        Added(without, tokens, v)
      else if name == "copy" then
        var from :- TextMember(op, "from");
        var source :- Parsed(from);
        var v :- At(j, source);
        Added(j, tokens, v)
      else if name == "test" then
        var found := At(j, tokens);
        if found.Err? then Err(if found.id / 100 == 4 then 501 else found.id)
        else
          var v :- Member(op, "value");
          if found.value == v then Ok(j) else Err(501)
      else Err(105)
  }

  /** The tree when an operation has failed: a "move" may have removed the value already. */
  ghost function LeftBehind(j: Json, op: Json): Json {
    if op.Object? && TextMember(op, "op") == Ok("move") && TextMember(op, "path").Ok? && TextMember(op, "from").Ok?
       && Parsed(TextMember(op, "path").value).Ok? && Parsed(TextMember(op, "from").value).Ok? then
      var source := Parsed(TextMember(op, "from").value).value;
      if At(j, source).Ok? && Removed(j, source).Ok? then Removed(j, source).value else j
    else j
  }

  /** The tree in place after the operations up to the first that fails. */
  ghost function AfterAll(j: Json, ops: seq<Json>): Json
    decreases |ops|
  {
    if ops == [] then j
    else if Applied(j, ops[0]).Ok? then AfterAll(Applied(j, ops[0]).value, ops[1..])
    else LeftBehind(j, ops[0])
  }

  /** A failed operation has changed the tree exactly if it is a "move" of an existing value that is not the whole tree. */
  lemma OnlyMoveLeavesTraces(j: Json, op: Json)
    requires Applied(j, op).Err?
    ensures LeftBehind(j, op) != j <==>
      && op.Object? && TextMember(op, "op") == Ok("move") && TextMember(op, "path").Ok? && TextMember(op, "from").Ok?
      && Parsed(TextMember(op, "path").value).Ok? && Parsed(TextMember(op, "from").value).Ok?
      && var source := Parsed(TextMember(op, "from").value).value; source != [] && At(j, source).Ok?
  {
    hide Applied, Parsed, At, Removed;
    if op.Object? && TextMember(op, "from").Ok? && Parsed(TextMember(op, "from").value).Ok? {
      RemoveWorksIff(j, Parsed(TextMember(op, "from").value).value);
    }
  }

  ghost function MoveOp(from: seq<string>, path: seq<string>): Json {
    Object(map["op" := String("move"), "from" := String(ToString(from)), "path" := String(ToString(path))])
  }

  lemma MoveIsApplied(j: Json, from: seq<string>, path: seq<string>)
    ensures Applied(j, MoveOp(from, path)) ==
      if At(j, from).Err? then Err(At(j, from).id)
      else if Removed(j, from).Err? then Err(Removed(j, from).id)
      else Added(Removed(j, from).value, path, At(j, from).value)
  {
    hide Parsed, ToString, At, Removed, Added;
    ParseAfterPrint(from);
    ParseAfterPrint(path);
  }

  /**
   * Section 4.4 forbids to move a value below itself. The code does it exactly if the value is an element of an array with
   * an element behind it, below which the value can be added.
   */
  lemma MoveBelowItself(j: Json, from: seq<string>, rest: seq<string>)
    requires rest != []
    ensures Applied(j, MoveOp(from, from + rest)).Ok? <==>
      from != [] && At(j, from).Ok? && NextTakes(j, from, rest, At(j, from).value)
  {
    hide Applied, MoveOp, At, Removed, Added, NextTakes;
    MoveIsApplied(j, from, from + rest);
    RemoveWorksIff(j, from);
    if from != [] && At(j, from).Ok? {
      AddBelowRemoved(j, from, rest, At(j, from).value);
    }
  }

  /** [{"a":1},{"b":2}] with a "move" from "/0" to "/0/x" becomes [{"b":2,"x":{"a":1}}]. */
  lemma ValueIsMovedBelowTheNext()
    ensures var a, b := Object(map["a" := Number(1.0)]), map["b" := Number(2.0)];
            Applied(Array([a, Object(b)]), MoveOp(["0"], ["0", "x"])) == Ok(Array([Object(b["x" := a])]))
  {
    var a, b := Object(map["a" := Number(1.0)]), map["b" := Number(2.0)];
    var j := Array([a, Object(b)]);
    IndexZero();
    MoveIsApplied(j, ["0"], ["0", "x"]);
    assert ["0"][1..] == [] && ["0", "x"][1..] == ["x"];
    assert At(j, ["0"]) == Ok(a);
    assert [a, Object(b)][..0] + [a, Object(b)][1..] == [Object(b)];
    assert Removed(j, ["0"]) == Ok(Array([Object(b)]));
    assert [Object(b)][0 := Object(b["x" := a])] == [Object(b["x" := a])];
  }

  lemma IndexZero()
    ensures ArrayIndex("0") == Ok(0)
  {
    assert "0"[..0] == "" && "0"[..1] == "0" && DigitGen.NumberOf("") == 0 && DigitGen.NumberOf("0") == 0;
  }

  // --- the outcome of "test", "copy" and "replace" ---

  /** An object with at least these members. */
  ghost predicate IsOperation(op: Json, name: string, path: seq<string>) {
    && op.Object? && "op" in op.members && "path" in op.members
    && op.members["op"] == String(name) && op.members["path"] == String(ToString(path))
  }

  /** Section 4.6: "test" succeeds exactly if the value at its path is the given one, and changes nothing. */
  lemma TestComparesValues(j: Json, op: Json, path: seq<string>)
    requires IsOperation(op, "test", path) && "value" in op.members
    ensures Applied(j, op).Ok? <==> At(j, path) == Ok(op.members["value"])
    ensures Applied(j, op).Ok? ==> Applied(j, op).value == j
    ensures At(j, path).Ok? && At(j, path).value != op.members["value"] ==> Applied(j, op) == Err(501)
    ensures At(j, path) == Err(403) ==> Applied(j, op) == Err(501)
  {
    hide Parsed, ToString, At;
    ParseAfterPrint(path);
  }

  /** Whether a path ends in "-" at an array, which names no element. */
  ghost predicate EndsInDash(j: Json, tokens: seq<string>) {
    && tokens != [] && tokens[|tokens| - 1] == "-"
    && At(j, tokens[..|tokens| - 1]).Ok? && At(j, tokens[..|tokens| - 1]).value.Array?
  }

  lemma FoundUnlessDash(j: Json, tokens: seq<string>, v: Json)
    requires Added(j, tokens, v).Ok? && !EndsInDash(j, tokens)
    ensures At(Added(j, tokens, v).value, tokens) == Ok(v)
  {
    hide Added, At;
    AddedIsFound(j, tokens, v);
  }

  /** Section 4.5: after "copy", what was at "from" is found at the path. */
  lemma CopyIsFound(j: Json, op: Json, from: seq<string>, path: seq<string>)
    requires IsOperation(op, "copy", path) && "from" in op.members && op.members["from"] == String(ToString(from))
    ensures Applied(j, op).Ok? ==> At(j, from).Ok?
    ensures Applied(j, op).Ok? && !EndsInDash(j, path) ==> At(Applied(j, op).value, path) == At(j, from)
    ensures At(j, from).Ok? ==> Applied(j, op) == Added(j, path, At(j, from).value)
  {
    hide Parsed, ToString, At, Added, EndsInDash;
    ParseAfterPrint(from);
    ParseAfterPrint(path);
    if At(j, from).Ok? && Added(j, path, At(j, from).value).Ok? && !EndsInDash(j, path) {
      FoundUnlessDash(j, path, At(j, from).value);
    }
  }

  /** Section 4.4: after "move", what was at "from" is found at the path. */
  lemma MoveIsFound(j: Json, op: Json, from: seq<string>, path: seq<string>)
    requires IsOperation(op, "move", path) && "from" in op.members && op.members["from"] == String(ToString(from))
    ensures Applied(j, op).Ok? ==> At(j, from).Ok? && Removed(j, from).Ok?
    ensures Applied(j, op).Ok? && !EndsInDash(Removed(j, from).value, path) ==> At(Applied(j, op).value, path) == At(j, from)
    ensures from != [] && from == path && At(j, from).Ok? ==> Applied(j, op) == Ok(j)
  {
    hide Parsed, ToString, At, Added, Removed, EndsInDash;
    ParseAfterPrint(from);
    ParseAfterPrint(path);
    if Applied(j, op).Ok? && !EndsInDash(Removed(j, from).value, path) {
      FoundUnlessDash(Removed(j, from).value, path, At(j, from).value);
    }
    if from != [] && At(j, from).Ok? {
      AddUndoesRemove(j, from);
    }
  }

  /** Section 4.3: "replace" succeeds exactly if there is a value, and puts the new one in its place. */
  lemma ReplaceNeedsItsTarget(j: Json, op: Json, path: seq<string>)
    requires IsOperation(op, "replace", path) && "value" in op.members
    ensures Applied(j, op).Ok? <==> At(j, path).Ok?
    ensures Applied(j, op).Ok? ==> At(Applied(j, op).value, path) == Ok(op.members["value"])
    ensures At(j, path) == Ok(op.members["value"]) ==> Applied(j, op) == Ok(j)
  {
    hide Parsed, ToString, At, Replaced;
    ParseAfterPrint(path);
    if At(j, path).Ok? {
      AtReplaced(j, path, op.members["value"]);
      ReplacedBySame(j, path);
    }
  }

  /** Sections 4.1 and 4.2: "add" and "remove" are the two operations on trees above. */
  lemma AddAndRemoveAreApplied(j: Json, op: Json, path: seq<string>)
    ensures IsOperation(op, "add", path) && "value" in op.members ==> Applied(j, op) == Added(j, path, op.members["value"])
    ensures IsOperation(op, "remove", path) ==> Applied(j, op) == Removed(j, path)
  {
    hide Parsed, ToString, Added, Removed;
    ParseAfterPrint(path);
  }

  /** Whether an operation lacks a member with a text. */
  predicate LacksText(op: Json, name: string)
    requires op.Object?
  {
    name !in op.members || !op.members[name].String?
  }

  /** Section 3 and 4: what makes an operation malformed, and the exception then. */
  lemma MalformedOperations(j: Json, op: Json)
    ensures !op.Object? ==> Applied(j, op) == Err(104)
    ensures op.Object? && (LacksText(op, "op") || LacksText(op, "path")) ==> Applied(j, op) == Err(105)
    ensures op.Object? && !LacksText(op, "op") && !LacksText(op, "path") && Parsed(op.members["path"].s).Ok? ==>
              var name := op.members["op"].s;
              && (name !in {"add", "remove", "replace", "move", "copy", "test"} ==> Applied(j, op) == Err(105))
              && (name in {"add", "replace"} && "value" !in op.members ==> Applied(j, op) == Err(105))
              && (name in {"move", "copy"} && LacksText(op, "from") ==> Applied(j, op) == Err(105))
  {
    hide Parsed, At, Added, Removed;
  }

  /** The operations one after the other, up to the first that fails. */
  ghost function AppliedAll(j: Json, ops: seq<Json>): Result<Json>
    decreases |ops|
  {
    if ops == [] then Ok(j)
    else
      var next :- Applied(j, ops[0]);
      AppliedAll(next, ops[1..])
  }

  ghost function Patched(j: Json, patch: Json): Result<Json> {
    if patch.Array? then AppliedAll(j, patch.elements) else Err(104)
  }

  lemma {:induction false} AppliedAllAppend(j: Json, a: seq<Json>, b: seq<Json>)
    ensures AppliedAll(j, a + b) ==
      if AppliedAll(j, a).Err? then AppliedAll(j, a) else AppliedAll(AppliedAll(j, a).value, b)
    decreases |a|
  {
    if a == [] {
      assert a + b == b;
    } else {
      assert (a + b)[1..] == a[1..] + b;
      if Applied(j, a[0]).Ok? {
        AppliedAllAppend(Applied(j, a[0]).value, a[1..], b);
      }
    }
  }

  // --- the document that is patched ---

  class Document {
    var result: Json

    constructor (j: Json)
      ensures result == j
    {
      result := j;
    }

    method OperationAdd(ptr: seq<string>, val: Json) returns (r: Result<()>)
      modifies this
      ensures r.Ok? ==> Added(old(result), ptr, val) == Ok(result)
      ensures r.Err? ==> Added(old(result), ptr, val) == Err(r.id) && result == old(result)
    {
      if ptr == [] {
        result := val;
        return Ok(());
      }
      AddedInPlace(result, ptr, val);
      if [ptr[0]] != ptr {
        var top := GetChecked(result, [ptr[0]]);
        if top.Err? {
          ghost var front := ptr[..|ptr| - 1];
          assert front == [ptr[0]] + front[1..];
          AtFailsEarly(result, [ptr[0]], front[1..]);
          return Err(top.id);
        }
      }
      var lastPath := ptr[|ptr| - 1];
      var parentPtr := ptr[..|ptr| - 1];
      var found := GetChecked(result, parentPtr);
      if found.Err? {
        return Err(found.id);
      }
      var parent := found.value;
      match parent {
        case Null =>
          parent := Object(map[lastPath := val]);
        case Object(members) =>
          parent := Object(members[lastPath := val]);
        case Array(elements) =>
          if lastPath == "-" {
            parent := Array(elements + [val]);
          } else {
            var idx := ArrayIndex(lastPath);
            if idx.Err? {
              return Err(idx.id);
            }
            if |elements| < idx.value {
              return Err(401);
            }
            parent := Array(elements[..idx.value] + [val] + elements[idx.value..]);
          }
        case _ =>
          return Err(ASSERTION_FAILED);
      }
      result := Replaced(result, parentPtr, parent);
      r := Ok(());
    }

    method OperationRemove(ptr: seq<string>) returns (r: Result<()>)
      modifies this
      ensures r.Ok? ==> Removed(old(result), ptr) == Ok(result)
      ensures r.Err? ==> Removed(old(result), ptr) == Err(r.id) && result == old(result)
    {
      if ptr == [] {
        return Err(405);
      }
      RemovedInPlace(result, ptr);
      var lastPath := ptr[|ptr| - 1];
      var parentPtr := ptr[..|ptr| - 1];
      var found := GetChecked(result, parentPtr);
      if found.Err? {
        return Err(found.id);
      }
      var parent := found.value;
      if parent.Object? {
        if lastPath !in parent.members {
          return Err(403);
        }
        parent := Object(parent.members - {lastPath});
      } else if parent.Array? {
        var idx := ArrayIndex(lastPath);
        if idx.Err? {
          return Err(idx.id);
        }
        if |parent.elements| <= idx.value {
          return Err(401);
        }
        parent := Array(parent.elements[..idx.value] + parent.elements[idx.value + 1..]);
      }
      result := Replaced(result, parentPtr, parent);
      r := Ok(());
    }

    /** One operation. A "move" whose second half fails has removed the value already. */
    method Apply(op: Json) returns (r: Result<()>)
      modifies this
      ensures r.Ok? ==> Applied(old(result), op) == Ok(result)
      ensures r.Err? ==> Applied(old(result), op) == Err(r.id) && result == LeftBehind(old(result), op)
    {
      if !op.Object? {
        return Err(104);
      }
      var name := TextMember(op, "op");
      if name.Err? {
        return Err(name.id);
      }
      var path := TextMember(op, "path");
      if path.Err? {
        return Err(path.id);
      }
      var parsed := Split(path.value);
      if parsed.Err? {
        return Err(parsed.id);
      }
      var ptr := parsed.value;
      if name.value == "add" {
        var val := Member(op, "value");
        if val.Err? {
          return Err(val.id);
        }
        r := OperationAdd(ptr, val.value);
      } else if name.value == "remove" {
        r := OperationRemove(ptr);
      } else if name.value == "replace" {
        var val := Member(op, "value");
        if val.Err? {
          return Err(val.id);
        }
        var found := GetChecked(result, ptr);
        if found.Err? {
          return Err(found.id);
        }
        result := Replaced(result, ptr, val.value);
        r := Ok(());
      } else if name.value == "move" || name.value == "copy" {
        r := MoveOrCopy(op, ptr, name.value == "move");
      } else if name.value == "test" {
        var found := GetChecked(result, ptr);
        if found.Err? {
          return Err(if found.id / 100 == 4 then 501 else found.id);
        }
        var val := Member(op, "value");
        if val.Err? {
          return Err(val.id);
        }
        r := if found.value == val.value then Ok(()) else Err(501);
      } else {
        r := Err(105);
      }
    }

    method MoveOrCopy(op: Json, ptr: seq<string>, move: bool) returns (r: Result<()>)
      requires op.Object? && TextMember(op, "op") == Ok(if move then "move" else "copy")
      requires TextMember(op, "path").Ok? && Parsed(TextMember(op, "path").value) == Ok(ptr)
      modifies this
      ensures r.Ok? ==> Applied(old(result), op) == Ok(result)
      ensures r.Err? ==> Applied(old(result), op) == Err(r.id) && result == LeftBehind(old(result), op)
    {
      var fromPath := TextMember(op, "from");
      if fromPath.Err? {
        return Err(fromPath.id);
      }
      var fromPtr := Split(fromPath.value);
      if fromPtr.Err? {
        return Err(fromPtr.id);
      }
      var v := GetChecked(result, fromPtr.value);
      if v.Err? {
        return Err(v.id);
      }
      if move {
        r := OperationRemove(fromPtr.value);
        if r.Err? {
          return;
        }
      }
      r := OperationAdd(ptr, v.value);
    }

    method PatchInplace(patch: Json) returns (r: Result<()>)
      modifies this
      ensures r.Ok? ==> Patched(old(result), patch) == Ok(result)
      ensures r.Err? ==> Patched(old(result), patch) == Err(r.id)
      ensures result == if patch.Array? then AfterAll(old(result), patch.elements) else old(result)
    {
      if !patch.Array? {
        return Err(104);
      }
      var ops := patch.elements;
      assert ops[0..] == ops;
      for i := 0 to |ops|
        invariant AppliedAll(result, ops[i..]) == AppliedAll(old(result), ops)
        invariant AfterAll(result, ops[i..]) == AfterAll(old(result), ops)
      {
        assert ops[i..][1..] == ops[i + 1..];
        r := Apply(ops[i]);
        if r.Err? {
          return;
        }
      }
      r := Ok(());
    }
  }

  /** patch(): the original is copied, so a failing patch changes nothing. */
  method Patch(j: Json, patch: Json) returns (r: Result<Json>)
    ensures r == Patched(j, patch)
  {
    var document := new Document(j);
    var outcome := document.PatchInplace(patch);
    r := if outcome.Ok? then Ok(document.result) else Err(outcome.id);
  }
}
