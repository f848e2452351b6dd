/** The operations of a difference are exactly those that the two values call for, place by place. */
module DiffPlaces {
  import opened DigitGen
  import opened JsonValues
  import opened StringEscape
  import opened JsonPointers
  import opened Diffing

  // --- what two values call for ---

  predicate SameKind(s: Json, t: Json) {
    (s.Array? && t.Array?) || (s.Object? && t.Object?)
  }

  /** Every container on the way to a place is of one kind in both values. */
  ghost predicate Alongside(source: Json, target: Json, place: seq<string>) {
    forall n :: 0 <= n < |place| ==>
      At(source, place[..n]).Ok? && At(target, place[..n]).Ok?
      && SameKind(At(source, place[..n]).value, At(target, place[..n]).value)
  }

  /** Both have a value, of different kinds or unequal without parts to compare. */
  ghost predicate IsReplaced(op: Json, source: Json, target: Json, path: string, place: seq<string>) {
    var s, t := At(source, place), At(target, place);
    && s.Ok? && t.Ok? && s.value != t.value && !SameKind(s.value, t.value)
    && op == ReplaceOp(path + ToString(place), t.value)
  }

  ghost predicate IsRemoved(op: Json, source: Json, target: Json, path: string, place: seq<string>) {
    At(source, place).Ok? && At(target, place).Err? && op == RemoveOp(path + ToString(place))
  }

  /** A member of the target only. */
  ghost predicate IsNewMember(op: Json, source: Json, target: Json, path: string, front: seq<string>, key: string) {
    && At(source, front + [key]).Err? && At(target, front + [key]).Ok?
    && At(target, front).Ok? && At(target, front).value.Object?
    && op == AddOp(path + ToString(front + [key]), At(target, front + [key]).value)
  }

  /** An element of the target behind the end of the source, added at "-". */
  ghost predicate IsAppended(op: Json, source: Json, target: Json, path: string, front: seq<string>, last: string) {
    && At(source, front).Ok? && At(target, front).Ok? && At(source, front).value.Array? && At(target, front).value.Array?
    && last == "-"
    && exists i :: |At(source, front).value.elements| <= i < |At(target, front).value.elements|
                   && op == AddOp(path + ToString(front + [last]), At(target, front).value.elements[i])
  }

  ghost predicate CallsFor(op: Json, source: Json, target: Json, path: string, place: seq<string>) {
    && Alongside(source, target, place)
    && (|| IsReplaced(op, source, target, path, place)
        || IsRemoved(op, source, target, path, place)
        || (place != [] && var front, last := place[..|place| - 1], place[|place| - 1];
            IsNewMember(op, source, target, path, front, last) || IsAppended(op, source, target, path, front, last)))
  }

  // --- the place of a child ---

  lemma {:induction false} ToStringCons(token: string, below: seq<string>)
    ensures ToString([token] + below) == "/" + Escaped(token) + ToString(below)
    decreases |below|
  {
    hide Escaped, ToString;
    if below == [] {
      OneToken("/" + Escaped(token), token, Escaped(token));
      NothingPrinted();
      assert [token] + [] == [token];
    } else {
      var front, last := below[..|below| - 1], below[|below| - 1];
      ToStringCons(token, front);
      assert below == front + [last] && [token] + below == ([token] + front) + [last];
      PathOfChild(ToString(front), front, last);
      PathOfChild(ToString([token] + front), [token] + front, last);
    }
  }

  lemma AtCons(j: Json, token: string, below: seq<string>)
    ensures At(j, [token] + below) ==
      if Child(j, token).Err? then Err(Child(j, token).id) else At(Child(j, token).value, below)
  {
    assert ([token] + below)[1..] == below;
  }

  lemma AlongsideCons(source: Json, target: Json, token: string, below: seq<string>)
    requires Child(source, token).Ok? && Child(target, token).Ok?
    ensures Alongside(source, target, [token] + below)
       <==> SameKind(source, target) && Alongside(Child(source, token).value, Child(target, token).value, below)
  {
    hide At, Child, SameKind;
    var all, s, t := [token] + below, Child(source, token).value, Child(target, token).value;
    assert all[..0] == [];
    AtNothing(source);
    AtNothing(target);
    forall n | 0 <= n < |below|
      ensures At(source, all[..n + 1]) == At(s, below[..n]) && At(target, all[..n + 1]) == At(t, below[..n])
    {
      assert all[..n + 1] == [token] + below[..n];
      AtCons(source, token, below[..n]);
      AtCons(target, token, below[..n]);
    }
    if Alongside(source, target, all) {
      assert SameKind(At(source, all[..0]).value, At(target, all[..0]).value);
      forall n | 0 <= n < |below|
        ensures At(s, below[..n]).Ok? && At(t, below[..n]).Ok? && SameKind(At(s, below[..n]).value, At(t, below[..n]).value)
      {
        assert At(source, all[..n + 1]).Ok?;
      }
    }
    if SameKind(source, target) && Alongside(s, t, below) {
      forall n | 0 <= n < |all|
        ensures At(source, all[..n]).Ok? && At(target, all[..n]).Ok?
                && SameKind(At(source, all[..n]).value, At(target, all[..n]).value)
      {
        if 0 < n {
          assert At(s, below[..n - 1]).Ok?;
        }
      }
    }
  }

  lemma AtNothing(j: Json)
    ensures At(j, []) == Ok(j)
  {
  }

  lemma ChangedCons(op: Json, source: Json, target: Json, path: string, token: string, below: seq<string>)
    requires Child(source, token).Ok? && Child(target, token).Ok?
    ensures var s, t, under := Child(source, token).value, Child(target, token).value, path + "/" + Escaped(token);
            && (IsReplaced(op, source, target, path, [token] + below) <==> IsReplaced(op, s, t, under, below))
            && (IsRemoved(op, source, target, path, [token] + below) <==> IsRemoved(op, s, t, under, below))
  {
    hide At, Child, SameKind, Escaped, ToString;
    AtCons(source, token, below);
    AtCons(target, token, below);
    PathCons(path, token, below);
  }

  lemma NewMemberCons(op: Json, source: Json, target: Json, path: string, token: string, front: seq<string>, key: string)
    requires Child(source, token).Ok? && Child(target, token).Ok?
    ensures IsNewMember(op, source, target, path, [token] + front, key)
       <==> IsNewMember(op, Child(source, token).value, Child(target, token).value, path + "/" + Escaped(token), front, key)
  {
    hide At, Child, Escaped, ToString, AddOp;
    assert [token] + front + [key] == [token] + (front + [key]);
    AtCons(target, token, front);
    AtCons(source, token, front + [key]);
    AtCons(target, token, front + [key]);
    PathCons(path, token, front + [key]);
  }

  lemma AppendedCons(op: Json, source: Json, target: Json, path: string, token: string, front: seq<string>, last: string)
    requires Child(source, token).Ok? && Child(target, token).Ok?
    ensures IsAppended(op, source, target, path, [token] + front, last)
       <==> IsAppended(op, Child(source, token).value, Child(target, token).value, path + "/" + Escaped(token), front, last)
  {
    hide At, Child, Escaped, ToString, AddOp;
    assert [token] + front + [last] == [token] + (front + [last]);
    AtCons(source, token, front);
    AtCons(target, token, front);
    PathCons(path, token, front + [last]);
  }

  /** What is called for below a child is called for below its parent. */
  lemma CallsForCons(op: Json, source: Json, target: Json, path: string, token: string, below: seq<string>)
    requires SameKind(source, target) && Child(source, token).Ok? && Child(target, token).Ok?
    ensures CallsFor(op, source, target, path, [token] + below)
       <==> CallsFor(op, Child(source, token).value, Child(target, token).value, path + "/" + Escaped(token), below)
  {
    hide At, Child, SameKind, Alongside, Escaped, ToString, IsReplaced, IsRemoved, IsNewMember, IsAppended;
    AlongsideCons(source, target, token, below);
    ChangedCons(op, source, target, path, token, below);
    var all := [token] + below;
    if below == [] {
      assert all[..0] == [];
      NothingAppended(op, source, target, path, token);
    } else {
      var front, last := below[..|below| - 1], below[|below| - 1];
      assert all[..|all| - 1] == [token] + front && all[|all| - 1] == last;
      NewMemberCons(op, source, target, path, token, front, last);
      AppendedCons(op, source, target, path, token, front, last);
    }
  }

  lemma PathCons(path: string, token: string, below: seq<string>)
    ensures path + ToString([token] + below) == path + "/" + Escaped(token) + ToString(below)
  {
    hide Escaped, ToString;
    ToStringCons(token, below);
  }

  lemma NothingAppended(op: Json, source: Json, target: Json, path: string, token: string)
    requires Child(source, token).Ok?
    ensures !IsNewMember(op, source, target, path, [], token) && !IsAppended(op, source, target, path, [], token)
  {
    OneStep(source, token);
    assert [] + [token] == [token];
  }

  // --- the operations of the parts ---

  lemma {:induction false} InCommonOps(op: Json, source: Json, target: Json, path: string, n: nat)
    requires source.Array? && target.Array? && n <= |source.elements| && n <= |target.elements|
    ensures op in CommonOps(source, target, path, n)
       <==> exists i :: 0 <= i < n && op in DiffOps(source.elements[i], target.elements[i], IndexPath(path, i))
  {
    hide DiffOps, IndexPath;
    if 0 < n {
      InCommonOps(op, source, target, path, n - 1);
    }
  }

  lemma {:induction false} InRemoveOps(op: Json, path: string, from: nat, end: nat)
    ensures op in RemoveOps(path, from, end) <==> exists i :: from <= i < end && op == RemoveOp(IndexPath(path, i))
    decreases if end <= from then 0 else end - from
  {
    hide RemoveOp, IndexPath;
    if from < end {
      InRemoveOps(op, path, from + 1, end);
    }
  }

  lemma {:induction false} InAppendOps(op: Json, path: string, elements: seq<Json>, from: nat)
    requires from <= |elements|
    ensures op in AppendOps(path, elements, from)
       <==> exists i :: from <= i < |elements| && op == AddOp(path + "/-", elements[i])
    decreases |elements| - from
  {
    hide AddOp, AppendOps;
    AppendOpsStep(path, elements, from);
    if from < |elements| {
      InAppendOps(op, path, elements, from + 1);
      var added := AddOp(path + "/-", elements[from]);
      assert op in AppendOps(path, elements, from) <==> op == added || op in AppendOps(path, elements, from + 1);
    }
  }

  lemma AppendOpsStep(path: string, elements: seq<Json>, from: nat)
    requires from <= |elements|
    ensures AppendOps(path, elements, from) ==
      if from == |elements| then [] else [AddOp(path + "/-", elements[from])] + AppendOps(path, elements, from + 1)
  {
    hide AddOp;
  }

  lemma {:induction false} InKeyOps(op: Json, source: Json, target: Json, path: string, n: nat)
    requires source.Object? && target.Object? && n <= |source.members|
    ensures op in KeyOps(source, target, path, n)
       <==> exists i :: 0 <= i < n && Ordered(source.members.Keys)[i] in source.members
                        && op in KeyOp(source, target, path, Ordered(source.members.Keys)[i])
  {
    hide KeyOp, Ordered;
    if 0 < n {
      OrderedIsInDomain(source.members, n - 1);
      InKeyOps(op, source, target, path, n - 1);
    }
  }

  lemma InAllKeyOps(op: Json, source: Json, target: Json, path: string)
    requires source.Object? && target.Object?
    ensures op in KeyOps(source, target, path, |source.members|)
       <==> exists key :: key in source.members && op in KeyOp(source, target, path, key)
  {
    hide KeyOp, KeyOps, Ordered;
    var keys := Ordered(source.members.Keys);
    InKeyOps(op, source, target, path, |source.members|);
    if key :| key in source.members && op in KeyOp(source, target, path, key) {
      assert key in source.members.Keys;
      var i :| 0 <= i < |keys| && keys[i] == key;
    }
  }

  lemma {:induction false} InNewKeyOps(op: Json, source: map<string, Json>, target: map<string, Json>, path: string, n: nat)
    requires n <= |target|
    ensures op in NewKeyOps(source, target, path, n)
       <==> exists i :: 0 <= i < n && Ordered(target.Keys)[i] in target && Ordered(target.Keys)[i] !in source
                        && op == AddOp(KeyPath(path, Ordered(target.Keys)[i]), target[Ordered(target.Keys)[i]])
  {
    hide AddOp, Ordered, KeyPath;
    if 0 < n {
      OrderedIsInDomain(target, n - 1);
      InNewKeyOps(op, source, target, path, n - 1);
    }
  }

  lemma InAllNewKeyOps(op: Json, source: map<string, Json>, target: map<string, Json>, path: string)
    ensures op in NewKeyOps(source, target, path, |target|)
       <==> exists key :: key in target && key !in source && op == AddOp(KeyPath(path, key), target[key])
  {
    hide AddOp, NewKeyOps, Ordered, KeyPath;
    var keys := Ordered(target.Keys);
    InNewKeyOps(op, source, target, path, |target|);
    if key :| key in target && key !in source && op == AddOp(KeyPath(path, key), target[key]) {
      assert key in target.Keys;
      var i :| 0 <= i < |keys| && keys[i] == key;
    }
  }

  // --- every operation is called for ---

  lemma AlongsideOne(source: Json, target: Json, token: string)
    requires SameKind(source, target)
    ensures Alongside(source, target, [token])
  {
    hide SameKind;
    assert [token][..0] == [];
    AtNothing(source);
    AtNothing(target);
  }

  lemma OneDown(path: string, token: string)
    ensures path + ToString([token]) == path + "/" + Escaped(token) && path + ToString([]) == path
    ensures [token][..0] == [] && [] + [token] == [token]
  {
    hide Escaped;
    ToStringCons(token, []);
    assert [token] + [] == [token];
  }

  lemma RemovalIsCalledFor(source: Json, target: Json, path: string, token: string)
    requires SameKind(source, target) && Child(source, token).Ok? && Child(target, token).Err?
    ensures CallsFor(RemoveOp(path + "/" + Escaped(token)), source, target, path, [token])
  {
    hide Child, SameKind, Alongside, Escaped, ToString, RemoveOp, IsNewMember, IsAppended, IsReplaced;
    AlongsideOne(source, target, token);
    OneStep(source, token);
    OneStep(target, token);
    OneDown(path, token);
  }

  lemma NewMemberIsCalledFor(source: Json, target: Json, path: string, key: string)
    requires source.Object? && target.Object? && key in target.members && key !in source.members
    ensures CallsFor(AddOp(KeyPath(path, key), target.members[key]), source, target, path, [key])
  {
    hide Alongside, Escaped, ToString, AddOp, IsReplaced, IsRemoved, IsAppended, IsNewMember;
    AlongsideOne(source, target, key);
    var op, place := AddOp(KeyPath(path, key), target.members[key]), [key];
    assert place[..|place| - 1] == [] && place[|place| - 1] == key;
    KeyIsNew(source, target, path, key);
    assert IsNewMember(op, source, target, path, [], key);
  }

  lemma KeyIsNew(source: Json, target: Json, path: string, key: string)
    requires source.Object? && target.Object? && key in target.members && key !in source.members
    ensures IsNewMember(AddOp(KeyPath(path, key), target.members[key]), source, target, path, [], key)
  {
    hide Escaped, ToString, AddOp;
    OneStep(source, key);
    OneStep(target, key);
    OneDown(path, key);
    AtNothing(target);
  }

  lemma AppendedIsCalledFor(source: Json, target: Json, path: string, i: nat)
    requires source.Array? && target.Array? && |source.elements| <= i < |target.elements|
    ensures CallsFor(AddOp(path + "/-", target.elements[i]), source, target, path, ["-"])
  {
    hide Alongside, ToString, AddOp, IsReplaced, IsRemoved, IsNewMember;
    AlongsideOne(source, target, "-");
    NoEscapeInDash();
    OneDown(path, "-");
    assert path + "/" + "-" == path + "/-";
    assert IsAppended(AddOp(path + "/-", target.elements[i]), source, target, path, [], "-");
  }

  lemma {:induction false} IsCalledFor(op: Json, source: Json, target: Json, path: string) returns (place: seq<string>)
    requires InMemory(source) && op in DiffOps(source, target, path)
    ensures CallsFor(op, source, target, path, place)
    decreases source, 1
  {
    hide At, Child, ToString, ReplaceOp;
    if source.Array? && target.Array? {
      place := ArraysCallFor(op, source, target, path);
    } else if source.Object? && target.Object? {
      place := ObjectsCallFor(op, source, target, path);
    } else {
      place := [];
      AtNothing(source);
      AtNothing(target);
      OneDown(path, "");
    }
  }

  lemma {:induction false} ArraysCallFor(op: Json, source: Json, target: Json, path: string) returns (place: seq<string>)
    requires source.Array? && target.Array? && InMemory(source) && op in DiffOps(source, target, path)
    ensures CallsFor(op, source, target, path, place)
    decreases source, 0
  {
    hide CallsFor, Child, RemoveOp, AddOp, CommonOps, RemoveOps, AppendOps, NatText;
    var s, t := source.elements, target.elements;
    var n := Min(|s|, |t|);
    assert source != target;
    ArrayDiffOps(source, target, path);
    InCommonOps(op, source, target, path, n);
    if op in CommonOps(source, target, path, n) {
      var i :| 0 <= i < n && op in DiffOps(s[i], t[i], IndexPath(path, i));
      var below := IsCalledFor(op, s[i], t[i], IndexPath(path, i));
      IndexChild(s, i);
      IndexChild(t, i);
      CallsForCons(op, source, target, path, NatText(i), below);
      place := [NatText(i)] + below;
    } else if n < |s| {
      InRemoveOps(op, path, n, |s|);
      var i :| n <= i < |s| && op == RemoveOp(IndexPath(path, i));
      IndexChild(s, i);
      IndexChild(t, i);
      RemovalIsCalledFor(source, target, path, NatText(i));
      place := [NatText(i)];
    } else {
      InAppendOps(op, path, t, n);
      var i :| n <= i < |t| && op == AddOp(path + "/-", t[i]);
      AppendedIsCalledFor(source, target, path, i);
      place := ["-"];
    }
  }

  lemma {:induction false} ObjectsCallFor(op: Json, source: Json, target: Json, path: string) returns (place: seq<string>)
    requires source.Object? && target.Object? && InMemory(source) && op in DiffOps(source, target, path)
    ensures CallsFor(op, source, target, path, place)
    decreases source, 0
  {
    hide CallsFor, RemoveOp, AddOp, KeyOps, NewKeyOps;
    assert source != target;
    ObjectDiffOps(source, target, path);
    InAllKeyOps(op, source, target, path);
    if op in KeyOps(source, target, path, |source.members|) {
      var key :| key in source.members && op in KeyOp(source, target, path, key);
      if key in target.members {
        var below := IsCalledFor(op, source.members[key], target.members[key], KeyPath(path, key));
        CallsForCons(op, source, target, path, key, below);
        place := [key] + below;
      } else {
        RemovalIsCalledFor(source, target, path, key);
        place := [key];
      }
    } else {
      InAllNewKeyOps(op, source.members, target.members, path);
      var key :| key in target.members && key !in source.members
                 && op == AddOp(KeyPath(path, key), target.members[key]);
      NewMemberIsCalledFor(source, target, path, key);
      place := [key];
    }
  }

  // --- everything called for is an operation ---

  lemma {:induction false} IsEmitted(op: Json, source: Json, target: Json, path: string, place: seq<string>)
    requires InMemory(source) && CallsFor(op, source, target, path, place)
    ensures op in DiffOps(source, target, path)
    decreases |place|
  {
    hide At, Child, ToString, ReplaceOp, RemoveOp, AddOp, DiffOps;
    if place == [] {
      AtNothing(source);
      AtNothing(target);
      OneDown(path, "");
      ReplaceOfDifferent(source, target, path);
    } else {
      var token, below := place[0], place[1..];
      assert place == [token] + below && place[..0] == [];
      AtNothing(source);
      AtNothing(target);
      assert SameKind(At(source, place[..0]).value, At(target, place[..0]).value);
      if Child(source, token).Ok? && Child(target, token).Ok? {
        InBothIsEmitted(op, source, target, path, token, below);
      } else {
        OnlyOneToken(source, target, token, below);
        InOneIsEmitted(op, source, target, path, token);
      }
    }
  }

  lemma ReplaceOfDifferent(source: Json, target: Json, path: string)
    requires source != target && !SameKind(source, target)
    ensures DiffOps(source, target, path) == [ReplaceOp(path, target)]
  {
  }

  lemma OnlyOneToken(source: Json, target: Json, token: string, below: seq<string>)
    requires Alongside(source, target, [token] + below) && (Child(source, token).Err? || Child(target, token).Err?)
    ensures below == [] && [token] + below == [token]
  {
    hide Child, At, SameKind;
    var all := [token] + below;
    if below != [] {
      assert all[..1] == [token];
      assert At(source, all[..1]).Ok? && At(target, all[..1]).Ok?;
      OneStep(source, token);
      OneStep(target, token);
    }
  }

  lemma {:induction false} InBothIsEmitted(op: Json, source: Json, target: Json, path: string, token: string,
                                           below: seq<string>)
    requires InMemory(source) && SameKind(source, target) && Child(source, token).Ok? && Child(target, token).Ok?
    requires CallsFor(op, source, target, path, [token] + below)
    ensures op in DiffOps(source, target, path)
    decreases |below| + 1, 0
  {
    hide CallsFor, DiffOps, CommonOps, RemoveOps, AppendOps, KeyOps, NewKeyOps, NatText;
    var s, t := Child(source, token).value, Child(target, token).value;
    CallsForCons(op, source, target, path, token, below);
    if source.Array? {
      ChildIsIndex(source.elements, token);
      ChildIsIndex(target.elements, token);
      IndexChild(source.elements, NumberOf(token));
      IndexChild(target.elements, NumberOf(token));
      IsEmitted(op, s, t, path + "/" + Escaped(token), below);
      NothingIfEqual(op, s, t, path + "/" + Escaped(token));
      InCommonOps(op, source, target, path, Min(|source.elements|, |target.elements|));
      ArrayDiffOps(source, target, path);
    } else {
      IsEmitted(op, s, t, KeyPath(path, token), below);
      NothingIfEqual(op, s, t, KeyPath(path, token));
      InAllKeyOps(op, source, target, path);
      ObjectDiffOps(source, target, path);
    }
  }

  lemma NothingIfEqual(op: Json, source: Json, target: Json, path: string)
    requires op in DiffOps(source, target, path)
    ensures source != target
  {
  }

  lemma InOneIsEmitted(op: Json, source: Json, target: Json, path: string, token: string)
    requires InMemory(source) && SameKind(source, target) && (Child(source, token).Err? || Child(target, token).Err?)
    requires CallsFor(op, source, target, path, [token])
    ensures op in DiffOps(source, target, path)
  {
    hide ToString, ReplaceOp, RemoveOp, AddOp, DiffOps, At, Child, Escaped, Alongside;
    OneStep(source, token);
    OneStep(target, token);
    OneDown(path, token);
    AtNothing(source);
    AtNothing(target);
    assert [token][..|[token]| - 1] == [] && [token][|[token]| - 1] == token;
    if IsRemoved(op, source, target, path, [token]) {
      RemovalIsEmitted(op, source, target, path, token);
    } else if IsNewMember(op, source, target, path, [], token) {
      ChildOfObject(source, token);
      ChildOfObject(target, token);
      NewMemberIsEmitted(op, source, target, path, token);
    } else {
      NoEscapeInDash();
      assert path + "/" + "-" == path + "/-";
      AppendedIsEmitted(op, source, target, path);
    }
  }

  lemma ChildOfObject(j: Json, key: string)
    requires j.Object?
    ensures Child(j, key) == if key in j.members then Ok(j.members[key]) else Err(403)
  {
  }

  lemma RemovalIsEmitted(op: Json, source: Json, target: Json, path: string, token: string)
    requires InMemory(source) && SameKind(source, target) && Child(source, token).Ok? && Child(target, token).Err?
    requires op == RemoveOp(path + "/" + Escaped(token))
    ensures op in DiffOps(source, target, path)
  {
    hide RemoveOp, DiffOps, CommonOps, RemoveOps, AppendOps, KeyOps, NewKeyOps, NatText;
    if source.Array? {
      var s, t, i := source.elements, target.elements, NumberOf(token);
      ChildIsIndex(s, token);
      IndexChild(s, i);
      IndexChild(t, i);
      assert op == RemoveOp(IndexPath(path, i));
      InRemoveOps(op, path, Min(|s|, |t|), |s|);
      ArrayDiffOps(source, target, path);
    } else {
      assert op in KeyOp(source, target, path, token);
      InAllKeyOps(op, source, target, path);
      ObjectDiffOps(source, target, path);
    }
  }

  lemma NewMemberIsEmitted(op: Json, source: Json, target: Json, path: string, key: string)
    requires source.Object? && target.Object? && key in target.members && key !in source.members
    requires op == AddOp(KeyPath(path, key), target.members[key])
    ensures op in DiffOps(source, target, path)
  {
    hide AddOp, KeyOps, NewKeyOps, DiffOps, KeyPath;
    InAllNewKeyOps(op, source.members, target.members, path);
    ObjectDiffOps(source, target, path);
  }

  lemma AppendedIsEmitted(op: Json, source: Json, target: Json, path: string)
    requires source.Array? && target.Array?
    requires exists i :: |source.elements| <= i < |target.elements| && op == AddOp(path + "/-", target.elements[i])
    ensures op in DiffOps(source, target, path)
  {
    hide AddOp, CommonOps, RemoveOps, AppendOps, DiffOps;
    InAppendOps(op, path, target.elements, Min(|source.elements|, |target.elements|));
    ArrayDiffOps(source, target, path);
  }

  // --- the theorem ---

  /**
   * The operations are exactly those called for: a "replace" where both have values that differ and have no parts to
   * compare, a "remove" where only the source has a value, an "add" where only the target has one.
   */
  lemma OpsAreThoseCalledFor(op: Json, source: Json, target: Json, path: string)
    requires InMemory(source)
    ensures op in DiffOps(source, target, path) <==> exists place :: CallsFor(op, source, target, path, place)
    ensures source == target ==> DiffOps(source, target, path) == []
  {
    hide CallsFor;
    if op in DiffOps(source, target, path) {
      var place := IsCalledFor(op, source, target, path);
    }
    if place :| CallsFor(op, source, target, path, place) {
      IsEmitted(op, source, target, path, place);
    }
  }
}
