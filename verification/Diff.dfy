/** The patch between two values, and the theorem that it leads from the one to the other. */
module Diffing {
  import opened JsonValues
  import opened StringEscape
  import opened JsonPointers
  import opened Patching

  // --- the operations of a patch ---

  function ReplaceOp(path: string, v: Json): Json {
    Object(map["op" := String("replace"), "path" := String(path), "value" := v])
  }

  function RemoveOp(path: string): Json {
    Object(map["op" := String("remove"), "path" := String(path)])
  }

  function AddOp(path: string, v: Json): Json {
    Object(map["op" := String("add"), "path" := String(path), "value" := v])
  }

  function IndexPath(path: string, i: nat): string {
    path + "/" + NatText(i)
  }

  function KeyPath(path: string, key: string): string {
    path + "/" + Escaped(key)
  }

  // --- the specification ---

  /** The operations of diff(source, target, path). */
  function DiffOps(source: Json, target: Json, path: string): seq<Json>
    decreases source, 1, 0
  {
    if source == target then []
    else if source.Array? && target.Array? then
      var n := Min(|source.elements|, |target.elements|);
      CommonOps(source, target, path, n)
      + RemoveOps(path, n, |source.elements|)
      + AppendOps(path, target.elements, n)
    else if source.Object? && target.Object? then
      KeyOps(source, target, path, |source.members|)
      + NewKeyOps(source.members, target.members, path, |target.members|)
    else [ReplaceOp(path, target)]
  }

  function Min(a: nat, b: nat): nat {
    if a < b then a else b
  }

  /** The differences of the first n elements. */
  function CommonOps(source: Json, target: Json, path: string, n: nat): seq<Json>
    requires source.Array? && target.Array? && n <= |source.elements| && n <= |target.elements|
    decreases source, 0, n
  {
    if n == 0 then []
    else CommonOps(source, target, path, n - 1) + DiffOps(source.elements[n - 1], target.elements[n - 1], IndexPath(path, n - 1))
  }

  /** Removal of the elements from position from on, the last one first. */
  function RemoveOps(path: string, from: nat, end: nat): seq<Json>
    decreases if end <= from then 0 else end - from
  {
    if end <= from then [] else RemoveOps(path, from + 1, end) + [RemoveOp(IndexPath(path, from))]
  }

  /** Elements from position from on, appended. */
  function AppendOps(path: string, elements: seq<Json>, from: nat): seq<Json>
    requires from <= |elements|
    decreases |elements| - from
  {
    if from == |elements| then [] else [AddOp(path + "/-", elements[from])] + AppendOps(path, elements, from + 1)
  }

  /** The operations at one key of the source. */
  function KeyOp(source: Json, target: Json, path: string, key: string): seq<Json>
    requires source.Object? && target.Object? && key in source.members
    decreases source, 0, 0
  {
    if key in target.members then DiffOps(source.members[key], target.members[key], KeyPath(path, key))
    else [RemoveOp(KeyPath(path, key))]
  }

  lemma OrderedIsInDomain(members: map<string, Json>, i: nat)
    requires i < |members|
    ensures Ordered(members.Keys)[i] in members
  {
    assert Ordered(members.Keys)[i] in members.Keys;
  }

  /** The differences at the first n keys of the source. */
  function KeyOps(source: Json, target: Json, path: string, n: nat): seq<Json>
    requires source.Object? && target.Object? && n <= |source.members|
    decreases source, 0, n
  {
    if n == 0 then []
    else
      var key := Ordered(source.members.Keys)[n - 1];
      OrderedIsInDomain(source.members, n - 1);
      KeyOps(source, target, path, n - 1) + KeyOp(source, target, path, key)
  }

  /** Those of the first n keys of the target that are new. */
  function NewKeyOps(source: map<string, Json>, target: map<string, Json>, path: string, n: nat): seq<Json>
    requires n <= |target|
    decreases n
  {
    if n == 0 then []
    else
      var key := Ordered(target.Keys)[n - 1];
      NewKeyOps(source, target, path, n - 1) + if key in source then [] else [AddOp(KeyPath(path, key), target[key])]
  }

  // --- the program ---

  lemma {:induction false} RemoveOpsFront(path: string, from: nat, end: nat)
    requires from <= end
    ensures RemoveOps(path, from, end + 1) == [RemoveOp(IndexPath(path, end))] + RemoveOps(path, from, end)
    decreases end - from
  {
    if from < end {
      RemoveOpsFront(path, from + 1, end);
    }
  }

  /** diff() */
  method Diff(source: Json, target: Json, path: string) returns (result: seq<Json>)
    ensures result == DiffOps(source, target, path)
    decreases source, 1
  {
    result := [];
    if source == target {
      return;
    }
    if source.Array? && target.Array? {
      result := DiffArrays(source, target, path);
    } else if source.Object? && target.Object? {
      result := DiffObjects(source, target, path);
    } else {
      result := result + [ReplaceOp(path, target)];
    }
  }

  /** The operations for two arrays end with the removals or with the additions. */
  lemma ArrayDiffOps(source: Json, target: Json, path: string)
    requires source.Array? && target.Array? && source != target
    ensures var n := Min(|source.elements|, |target.elements|);
            DiffOps(source, target, path) == CommonOps(source, target, path, n) +
              if n < |source.elements| then RemoveOps(path, n, |source.elements|) else AppendOps(path, target.elements, n)
  {
    hide CommonOps, RemoveOp, AddOp;
    var n := Min(|source.elements|, |target.elements|);
    if n < |source.elements| {
      assert AppendOps(path, target.elements, n) == [];
    } else {
      assert RemoveOps(path, n, |source.elements|) == [];
    }
  }

  method DiffArrays(source: Json, target: Json, path: string) returns (result: seq<Json>)
    requires source != target && source.Array? && target.Array?
    ensures result == DiffOps(source, target, path)
    decreases source, 0
  {
    hide DiffOps, RemoveOps, AppendOps, IndexPath;
    ArrayDiffOps(source, target, path);
    result := [];
    var i := 0;
    while i < |source.elements| && i < |target.elements|
      invariant i <= |source.elements| && i <= |target.elements|
      invariant result == CommonOps(source, target, path, i)
    {
      var tempDiff := Diff(source.elements[i], target.elements[i], IndexPath(path, i));
      result := result + tempDiff;
      i := i + 1;
    }
    NoRemoveOps(path, i);
    result, i := RemoveTail(result, source.elements, path, i);
    result := AddTail(result, target.elements, path, i);
  }

  /** The second loop: each removal goes in front of those before it. */
  method RemoveTail(done: seq<Json>, elements: seq<Json>, path: string, start: nat) returns (result: seq<Json>, i: nat)
    requires start <= |elements|
    ensures i == |elements| && result == done + RemoveOps(path, start, i)
  {
    hide RemoveOps, RemoveOp, IndexPath;
    result := done;
    i := start;
    var endIndex := |result|;
    NoRemoveOps(path, start);
    while i < |elements|
      invariant start <= i <= |elements|
      invariant result == done + RemoveOps(path, start, i)
    {
      RemoveOpsFront(path, start, i);
      assert result[..endIndex] == done && result[endIndex..] == RemoveOps(path, start, i);
      result := result[..endIndex] + [RemoveOp(IndexPath(path, i))] + result[endIndex..];
      i := i + 1;
    }
  }

  lemma NoRemoveOps(path: string, start: nat)
    ensures RemoveOps(path, start, start) == []
  {
  }

  /** The third loop. */
  method AddTail(done: seq<Json>, elements: seq<Json>, path: string, start: nat) returns (result: seq<Json>)
    ensures result == done + if start <= |elements| then AppendOps(path, elements, start) else []
  {
    hide AddOp;
    result := done;
    var i := start;
    while i < |elements|
      invariant start <= |elements| ==> i <= |elements|
      invariant start <= |elements| ==> result + AppendOps(path, elements, i) == done + AppendOps(path, elements, start)
      invariant |elements| < start ==> i == start && result == done
    {
      var op := AddOp(path + "/-", elements[i]);
      assert AppendOps(path, elements, i) == [op] + AppendOps(path, elements, i + 1);
      result := result + [op];
      i := i + 1;
    }
  }

  lemma ObjectDiffOps(source: Json, target: Json, path: string)
    requires source.Object? && target.Object? && source != target
    ensures DiffOps(source, target, path) ==
            KeyOps(source, target, path, |source.members|)
            + NewKeyOps(source.members, target.members, path, |target.members|)
  {
    hide KeyOps, NewKeyOps;
  }

  method DiffObjects(source: Json, target: Json, path: string) returns (result: seq<Json>)
    requires source != target && source.Object? && target.Object?
    ensures result == DiffOps(source, target, path)
    decreases source, 0
  {
    hide DiffOps, RemoveOp, NewKeyOps, KeyPath, Ordered;
    ObjectDiffOps(source, target, path);
    result := [];
    var keys := Ordered(source.members.Keys);
    for i := 0 to |keys|
      invariant result == KeyOps(source, target, path, i)
    {
      var key := keys[i];
      assert key in source.members.Keys;
      var pathKey := KeyPath(path, key);
      if key in target.members {
        var tempDiff := Diff(source.members[key], target.members[key], pathKey);
        result := result + tempDiff;
      } else {
        result := result + [RemoveOp(pathKey)];
      }
    }
    result := AddNewKeys(result, source.members, target.members, path);
  }

  /** The second loop over keys. */
  method AddNewKeys(done: seq<Json>, source: map<string, Json>, target: map<string, Json>, path: string)
    returns (result: seq<Json>)
    ensures result == done + NewKeyOps(source, target, path, |target|)
  {
    hide AddOp, KeyPath, Ordered;
    result := done;
    var keys := Ordered(target.Keys);
    for i := 0 to |keys|
      invariant result == done + NewKeyOps(source, target, path, i)
    {
      var key := keys[i];
      assert key in target.Keys;
      if key !in source {
        result := result + [AddOp(KeyPath(path, key), target[key])];
      }
    }
  }

  // --- one operation applied at a path ---

  /** Every operation, where its turn comes, changes the document. */
  ghost predicate EachChanges(j: Json, ops: seq<Json>)
    decreases |ops|
  {
    ops != [] ==>
      Applied(j, ops[0]).Ok? && Applied(j, ops[0]).value != j && EachChanges(Applied(j, ops[0]).value, ops[1..])
  }

  lemma {:induction false} EachChangesAppend(j: Json, a: seq<Json>, b: seq<Json>)
    requires EachChanges(j, a) && AppliedAll(j, a).Ok? && EachChanges(AppliedAll(j, a).value, b)
    ensures EachChanges(j, a + b)
    decreases |a|
  {
    hide Applied;
    if a == [] {
      assert a + b == b;
    } else {
      assert (a + b)[0] == a[0] && (a + b)[1..] == a[1..] + b;
      EachChangesAppend(Applied(j, a[0]).value, a[1..], b);
    }
  }

  /** The operations of a difference below path turn the value at tokens into another one, and none is superfluous. */
  ghost predicate Leads(root: Json, ops: seq<Json>, tokens: seq<string>, v: Json) {
    At(root, tokens).Ok? && AppliedAll(root, ops) == Ok(Replaced(root, tokens, v)) && EachChanges(root, ops)
  }

  lemma OneLeads(root: Json, op: Json, tokens: seq<string>, v: Json)
    requires At(root, tokens).Ok? && At(root, tokens).value != v && Applied(root, op) == Ok(Replaced(root, tokens, v))
    ensures Leads(root, [op], tokens, v)
  {
    hide Applied, At, Replaced;
    AtReplaced(root, tokens, v);
    var next := Applied(root, op).value;
    assert [op][1..] == [] && AppliedAll(next, []) == Ok(next) && EachChanges(next, []);
  }

  lemma ReplaceLeads(root: Json, path: string, tokens: seq<string>, v: Json)
    requires ToString(tokens) == path && At(root, tokens).Ok? && At(root, tokens).value != v
    ensures Leads(root, [ReplaceOp(path, v)], tokens, v)
  {
    ParsedIs(path, tokens);
    OneLeads(root, ReplaceOp(path, v), tokens, v);
  }

  /** An operation on a child is an operation on its parent. */
  lemma RemoveLeads(root: Json, path: string, tokens: seq<string>, token: string, parent: Json)
    requires ToString(tokens) == path && At(root, tokens).Ok?
    requires RemovedChild(At(root, tokens).value, token) == Ok(parent) && At(root, tokens).value != parent
    ensures Leads(root, [RemoveOp(path + "/" + Escaped(token))], tokens, parent)
  {
    var all := tokens + [token];
    var op := RemoveOp(path + "/" + Escaped(token));
    assert all[..|tokens|] == tokens;
    ParsedIs(path + "/" + Escaped(token), all);
    RemovedInPlace(root, all);
    OneLeads(root, op, tokens, parent);
  }

  lemma AddLeads(root: Json, path: string, tokens: seq<string>, token: string, v: Json, parent: Json)
    requires ToString(tokens) == path && At(root, tokens).Ok?
    requires AddedChild(At(root, tokens).value, token, v) == Ok(parent) && At(root, tokens).value != parent
    ensures Leads(root, [AddOp(path + "/" + Escaped(token), v)], tokens, parent)
  {
    var all := tokens + [token];
    var op := AddOp(path + "/" + Escaped(token), v);
    assert all[..|tokens|] == tokens;
    ParsedIs(path + "/" + Escaped(token), all);
    AddedInPlace(root, all, v);
    OneLeads(root, op, tokens, parent);
  }

  /** Two changes at the same place, one after the other. */
  lemma LeadsOn(root: Json, a: seq<Json>, b: seq<Json>, tokens: seq<string>, v: Json, w: Json)
    requires Leads(root, a, tokens, v) && Leads(Replaced(root, tokens, v), b, tokens, w)
    ensures Leads(root, a + b, tokens, w)
  {
    AppliedAllAppend(root, a, b);
    EachChangesAppend(root, a, b);
    ReplacedTwice(root, tokens, v, w);
  }

  /** A change of a child is a change of its parent. */
  lemma LeadsInside(root: Json, ops: seq<Json>, tokens: seq<string>, token: string, v: Json)
    requires At(root, tokens).Ok? && Child(At(root, tokens).value, token).Ok?
    requires Leads(root, ops, tokens + [token], v)
    ensures Leads(root, ops, tokens, WithChild(At(root, tokens).value, token, v))
  {
    OneStep(At(root, tokens).value, token);
    ReplacedAppend(root, tokens, [token], v);
    assert [token][1..] == [];
  }

  // --- the theorem ---

  lemma IndexToken(elements: seq<Json>, i: nat)
    requires i < |elements| <= SIZE_MAX
    ensures Child(Array(elements), NatText(i)) == Ok(elements[i])
    ensures forall v :: WithChild(Array(elements), NatText(i), v) == Array(elements[i := v])
    ensures RemovedChild(Array(elements), NatText(i)) == Ok(Array(elements[..i] + elements[i + 1..]))
  {
  }

  lemma PathOfChild(path: string, tokens: seq<string>, token: string)
    requires ToString(tokens) == path
    ensures ToString(tokens + [token]) == path + "/" + Escaped(token)
  {
    assert (tokens + [token])[..|tokens|] == tokens;
  }

  /** The values on the way: the first n elements are those of the target already. */
  function MixedArray(source: Json, target: Json, n: nat): Json
    requires source.Array? && target.Array? && n <= |source.elements| && n <= |target.elements|
  {
    Array(target.elements[..n] + source.elements[n..])
  }

  lemma {:induction false} CommonLeads(root: Json, source: Json, target: Json, path: string, tokens: seq<string>, n: nat)
    requires source.Array? && target.Array? && n <= |source.elements| && n <= |target.elements|
    requires At(root, tokens) == Ok(source) && ToString(tokens) == path && InMemory(source)
    ensures Leads(root, CommonOps(source, target, path, n), tokens, MixedArray(source, target, n))
    decreases source, 0, n
  {
    hide Leads, At, Replaced, ToString, DiffOps, IndexPath, NatText;
    if n == 0 {
      assert MixedArray(source, target, 0) == source;
      NothingLeads(root, tokens);
    } else {
      CommonLeads(root, source, target, path, tokens, n - 1);
      var mixed, after := MixedArray(source, target, n - 1), MixedArray(source, target, n);
      AtReplaced(root, tokens, mixed);
      assert after.elements == mixed.elements[n - 1 := target.elements[n - 1]];
      ElementLeads(Replaced(root, tokens, mixed), mixed.elements, n - 1, source.elements[n - 1], target.elements[n - 1],
                   path, tokens);
      LeadsOn(root, CommonOps(source, target, path, n - 1),
              DiffOps(source.elements[n - 1], target.elements[n - 1], IndexPath(path, n - 1)), tokens, mixed, after);
    }
  }

  /** The difference of one element, in an array on the way. */
  lemma {:induction false} ElementLeads(next: Json, elements: seq<Json>, i: nat, source: Json, target: Json, path: string,
                                        tokens: seq<string>)
    requires i < |elements| <= SIZE_MAX && elements[i] == source && InMemory(source)
    requires At(next, tokens) == Ok(Array(elements)) && ToString(tokens) == path
    ensures Leads(next, DiffOps(source, target, IndexPath(path, i)), tokens, Array(elements[i := target]))
    decreases source, 2, 0
  {
    hide Leads, At, Replaced, ToString, DiffOps, NatText;
    var token := NatText(i);
    IndexToken(elements, i);
    PathOfChild(path, tokens, token);
    DigitsNeedNoEscape(token);
    AtChild(next, tokens, token);
    DiffLeads(next, source, target, IndexPath(path, i), tokens + [token]);
    LeadsInside(next, DiffOps(source, target, IndexPath(path, i)), tokens, token, target);
  }

  lemma NothingLeads(root: Json, tokens: seq<string>)
    requires At(root, tokens).Ok?
    ensures Leads(root, [], tokens, At(root, tokens).value)
  {
    ReplacedBySame(root, tokens);
  }

  lemma {:induction false} RemovesLead(root: Json, elements: seq<Json>, path: string, tokens: seq<string>, from: nat)
    requires At(root, tokens) == Ok(Array(elements)) && ToString(tokens) == path
    requires from <= |elements| <= SIZE_MAX
    ensures Leads(root, RemoveOps(path, from, |elements|), tokens, Array(elements[..from]))
    decreases |elements| - from
  {
    hide Leads, At, Replaced, ToString;
    if from == |elements| {
      assert elements[..from] == elements;
      NothingLeads(root, tokens);
    } else {
      RemovesLead(root, elements, path, tokens, from + 1);
      var kept := elements[..from + 1];
      var next := Replaced(root, tokens, Array(kept));
      AtReplaced(root, tokens, Array(kept));
      IndexToken(kept, from);
      DigitsNeedNoEscape(NatText(from));
      assert kept[..from] + kept[from + 1..] == elements[..from];
      RemoveLeads(next, path, tokens, NatText(from), Array(elements[..from]));
      LeadsOn(root, RemoveOps(path, from + 1, |elements|), [RemoveOp(IndexPath(path, from))], tokens, Array(kept),
              Array(elements[..from]));
    }
  }

  lemma {:induction false} AppendsLead(root: Json, elements: seq<Json>, path: string, tokens: seq<string>, from: nat)
    requires from <= |elements| && At(root, tokens) == Ok(Array(elements[..from])) && ToString(tokens) == path
    ensures Leads(root, AppendOps(path, elements, from), tokens, Array(elements))
    decreases |elements| - from
  {
    hide Leads, At, Replaced, ToString;
    if from == |elements| {
      assert elements[..from] == elements;
      NothingLeads(root, tokens);
    } else {
      var grown := Array(elements[..from + 1]);
      assert elements[..from] + [elements[from]] == elements[..from + 1];
      NoEscapeInDash();
      AddLeads(root, path, tokens, "-", elements[from], grown);
      var next := Replaced(root, tokens, grown);
      AtReplaced(root, tokens, grown);
      AppendsLead(next, elements, path, tokens, from + 1);
      var op := AddOp(path + "/-", elements[from]);
      assert path + "/" + "-" == path + "/-";
      LeadsOn(root, [op], AppendOps(path, elements, from + 1), tokens, grown, Array(elements));
    }
  }

  lemma NoEscapeInDash()
    ensures Escaped("-") == "-"
  {
    assert "-"[1..] == "";
  }

  /** The members on the way: the first n keys of the source are settled already. */
  function MixedMembers(source: map<string, Json>, target: map<string, Json>, settled: set<string>): map<string, Json> {
    map k | k in source && (k in settled ==> k in target) :: if k in settled then target[k] else source[k]
  }

  lemma MixedStep(source: map<string, Json>, target: map<string, Json>, settled: set<string>, key: string)
    requires key in source && key !in settled
    ensures var mixed := MixedMembers(source, target, settled);
            && key in mixed && mixed[key] == source[key]
            && MixedMembers(source, target, settled + {key}) ==
                 if key in target then mixed[key := target[key]] else mixed - {key}
  {
  }

  lemma NothingSettled(source: map<string, Json>, target: map<string, Json>)
    ensures Settled(source, 0) == {} && MixedMembers(source, target, {}) == source
  {
  }

  /** The settled members of the source together with some of the target. */
  function Grown(source: map<string, Json>, target: map<string, Json>, keys: set<string>): map<string, Json>
  {
    MixedMembers(source, target, source.Keys) + (map k | k in keys && k in target :: target[k])
  }

  lemma GrownStep(source: map<string, Json>, target: map<string, Json>, keys: set<string>, key: string)
    requires key in target
    ensures Grown(source, target, keys + {key}) == Grown(source, target, keys)[key := target[key]]
    ensures key in source ==> Grown(source, target, keys + {key}) == Grown(source, target, keys)
    ensures key !in source && key !in keys ==> key !in Grown(source, target, keys)
  {
  }

  lemma GrownStarts(source: map<string, Json>, target: map<string, Json>)
    ensures Settled(target, 0) == {} && Grown(source, target, {}) == MixedMembers(source, target, source.Keys)
  {
    hide Ordered, MixedMembers;
  }

  lemma GrownEnds(source: map<string, Json>, target: map<string, Json>)
    ensures Grown(source, target, target.Keys) == target
  {
    var mixed := MixedMembers(source, target, source.Keys);
    assert forall k :: k in mixed ==> k in target && mixed[k] == target[k];
    hide MixedMembers;
    var all := Grown(source, target, target.Keys);
    assert all.Keys == target.Keys;
  }

  lemma {:induction false} KeysLead(root: Json, source: Json, target: Json, path: string, tokens: seq<string>, n: nat)
    requires source.Object? && target.Object? && n <= |source.members|
    requires At(root, tokens) == Ok(source) && ToString(tokens) == path && InMemory(source)
    ensures Leads(root, KeyOps(source, target, path, n), tokens,
                  Object(MixedMembers(source.members, target.members, Settled(source.members, n))))
    decreases source, 0, n
  {
    hide Leads, At, Replaced, ToString, DiffOps, Ordered, MixedMembers, Settled;
    if n == 0 {
      NothingSettled(source.members, target.members);
      NothingLeads(root, tokens);
    } else {
      KeysLead(root, source, target, path, tokens, n - 1);
      var key := Ordered(source.members.Keys)[n - 1];
      SettleOne(source.members, n);
      var settled := Settled(source.members, n - 1);
      MixedStep(source.members, target.members, settled, key);
      var mixed := Object(MixedMembers(source.members, target.members, settled));
      var after := Object(MixedMembers(source.members, target.members, settled + {key}));
      AtReplaced(root, tokens, mixed);
      KeyLeads(Replaced(root, tokens, mixed), source, target, path, tokens, key, mixed, after);
      LeadsOn(root, KeyOps(source, target, path, n - 1), KeyOp(source, target, path, key), tokens, mixed, after);
    }
  }

  lemma {:induction false} KeyLeads(next: Json, source: Json, target: Json, path: string, tokens: seq<string>,
                                    key: string, mixed: Json, after: Json)
    requires source.Object? && target.Object? && key in source.members && InMemory(source.members[key])
    requires At(next, tokens) == Ok(mixed) && ToString(tokens) == path
    requires mixed.Object? && key in mixed.members && mixed.members[key] == source.members[key]
    requires after == Object(if key in target.members then mixed.members[key := target.members[key]]
                             else mixed.members - {key})
    ensures Leads(next, KeyOp(source, target, path, key), tokens, after)
    decreases source, 0, 0
  {
    hide Leads, At, Replaced, ToString, DiffOps;
    if key in target.members {
      PathOfChild(path, tokens, key);
      AtChild(next, tokens, key);
      DiffLeads(next, source.members[key], target.members[key], KeyPath(path, key), tokens + [key]);
      LeadsInside(next, KeyOp(source, target, path, key), tokens, key, target.members[key]);
    } else {
      RemoveLeads(next, path, tokens, key, after);
    }
  }

  /** The first n keys in order. */
  function Settled(members: map<string, Json>, n: nat): set<string>
    requires n <= |members|
  {
    set k | k in Ordered(members.Keys)[..n]
  }

  lemma SettleOne(members: map<string, Json>, n: nat)
    requires 0 < n <= |members|
    ensures var key := Ordered(members.Keys)[n - 1];
            && key in members && key !in Settled(members, n - 1)
            && Settled(members, n) == Settled(members, n - 1) + {key}
  {
    hide Ordered, Less;
    var keys := Ordered(members.Keys);
    assert keys[n - 1] in members.Keys;
    NewAt(keys, n);
  }

  /** In an ascending list each key is new. */
  lemma NewAt(keys: seq<string>, n: nat)
    requires Ascending(keys) && 0 < n <= |keys|
    ensures keys[n - 1] !in keys[..n - 1] && keys[..n] == keys[..n - 1] + [keys[n - 1]]
  {
    hide Less;
    LessIsIrreflexive(keys[n - 1]);
    assert forall i :: 0 <= i < n - 1 ==> Less(keys[i], keys[n - 1]);
  }

  lemma {:induction false} NewKeysLead(root: Json, source: map<string, Json>, target: map<string, Json>, path: string,
                                       tokens: seq<string>, n: nat)
    requires n <= |target| && ToString(tokens) == path
    requires At(root, tokens) == Ok(Object(MixedMembers(source, target, source.Keys)))
    ensures Leads(root, NewKeyOps(source, target, path, n), tokens, Object(Grown(source, target, Settled(target, n))))
  {
    hide Leads, At, Replaced, ToString, Ordered, Grown, MixedMembers, Settled;
    GrownStarts(source, target);
    if n == 0 {
      NothingLeads(root, tokens);
    } else {
      NewKeysLead(root, source, target, path, tokens, n - 1);
      var key := Ordered(target.Keys)[n - 1];
      SettleOne(target, n);
      var settled := Settled(target, n - 1);
      GrownStep(source, target, settled, key);
      var before, after := Object(Grown(source, target, settled)), Object(Grown(source, target, settled + {key}));
      if key in source {
        assert NewKeyOps(source, target, path, n) == NewKeyOps(source, target, path, n - 1);
      } else {
        AtReplaced(root, tokens, before);
        AddLeads(Replaced(root, tokens, before), path, tokens, key, target[key], after);
        LeadsOn(root, NewKeyOps(source, target, path, n - 1), [AddOp(KeyPath(path, key), target[key])], tokens,
                before, after);
      }
    }
  }

  /** Below any path of any document, the operations turn source into target. */
  lemma {:induction false} DiffLeads(root: Json, source: Json, target: Json, path: string, tokens: seq<string>)
    requires At(root, tokens) == Ok(source) && ToString(tokens) == path && InMemory(source)
    ensures Leads(root, DiffOps(source, target, path), tokens, target)
    decreases source, 1, 0
  {
    hide Leads, At, Replaced, ToString;
    if source == target {
      NothingLeads(root, tokens);
    } else if source.Array? && target.Array? {
      DiffArraysLead(root, source, target, path, tokens);
    } else if source.Object? && target.Object? {
      DiffObjectsLead(root, source, target, path, tokens);
    } else {
      ReplaceLeads(root, path, tokens, target);
    }
  }

  lemma {:induction false} DiffArraysLead(root: Json, source: Json, target: Json, path: string, tokens: seq<string>)
    requires source.Array? && target.Array? && source != target
    requires At(root, tokens) == Ok(source) && ToString(tokens) == path && InMemory(source)
    ensures Leads(root, DiffOps(source, target, path), tokens, target)
    decreases source, 0, |source.elements| + 1
  {
    hide Leads, At, Replaced, ToString, RemoveOps, AppendOps, CommonOps;
    var n := Min(|source.elements|, |target.elements|);
    CommonLeads(root, source, target, path, tokens, n);
    var mixed := MixedArray(source, target, n);
    AtReplaced(root, tokens, mixed);
    var next := Replaced(root, tokens, mixed);
    ArrayDiffOps(source, target, path);
    if n < |source.elements| {
      RemovesLead(next, mixed.elements, path, tokens, n);
      assert mixed.elements[..n] == target.elements;
      LeadsOn(root, CommonOps(source, target, path, n), RemoveOps(path, n, |source.elements|), tokens, mixed, target);
    } else {
      assert mixed.elements == target.elements[..n];
      AppendsLead(next, target.elements, path, tokens, n);
      LeadsOn(root, CommonOps(source, target, path, n), AppendOps(path, target.elements, n), tokens, mixed, target);
    }
  }

  lemma {:induction false} DiffObjectsLead(root: Json, source: Json, target: Json, path: string, tokens: seq<string>)
    requires source.Object? && target.Object? && source != target
    requires At(root, tokens) == Ok(source) && ToString(tokens) == path && InMemory(source)
    ensures Leads(root, DiffOps(source, target, path), tokens, target)
    decreases source, 0, |source.members| + 1
  {
    hide Leads, At, Replaced, ToString, Ordered, Grown, MixedMembers, Settled;
    var s, t := source.members, target.members;
    KeysLead(root, source, target, path, tokens, |s|);
    AllSettled(s);
    AllSettled(t);
    GrownStarts(s, t);
    GrownEnds(s, t);
    var mixed := Object(MixedMembers(s, t, s.Keys));
    AtReplaced(root, tokens, mixed);
    NewKeysLead(Replaced(root, tokens, mixed), s, t, path, tokens, |t|);
    LeadsOn(root, KeyOps(source, target, path, |s|), NewKeyOps(s, t, path, |t|), tokens, mixed, target);
  }

  lemma AllSettled(members: map<string, Json>)
    ensures Settled(members, |members|) == members.Keys
  {
    var keys := Ordered(members.Keys);
    assert keys[..|members|] == keys;
  }

  /** Applying the difference to the source never fails and gives the target, and no operation of it is superfluous. */
  lemma PatchOfDiff(source: Json, target: Json)
    requires InMemory(source)
    ensures Patched(source, Array(DiffOps(source, target, ""))) == Ok(target)
    ensures EachChanges(source, DiffOps(source, target, ""))
  {
    assert At(source, []) == Ok(source) && ToString([]) == "";
    DiffLeads(source, source, target, "", []);
  }
}
