/** Flattening to a map from paths to primitive values, and back. */
module Flattening {
  import opened DigitGen
  import opened JsonValues
  import opened StringEscape
  import opened JsonPointers

  // --- leaves ---

  predicate IsEmptyContainer(j: Json) {
    (j.Array? && j.elements == []) || (j.Object? && j.members == map[])
  }

  /** The paths of the primitive values and the empty containers of a tree. */
  ghost function Leaves(j: Json): set<seq<string>> {
    match j
    case Array(elements) =>
      if elements == [] then {[]}
      else set i, p | 0 <= i < |elements| && p in Leaves(elements[i]) :: [NatText(i)] + p
    case Object(members) =>
      if members == map[] then {[]}
      else set k, p | k in members && p in Leaves(members[k]) :: [k] + p
    case _ => {[]}
  }

  /** The child of a container a token of one of its leaves names. */
  ghost predicate IsChild(j: Json, token: string, child: Json) {
    match j
    case Array(elements) => exists i :: 0 <= i < |elements| && token == NatText(i) && child == elements[i]
    case Object(members) => token in members && child == members[token]
    case _ => false
  }

  /** What flatten writes for a leaf. */
  function LeafText(j: Json): Json {
    if j.IsPrimitive() then j else Null
  }

  /** The value at a leaf. */
  ghost function LeafValue(j: Json, p: seq<string>): Json
    requires p in Leaves(j)
    decreases |p|
  {
    if p == [] then LeafText(j)
    else
      var child := ChildOf(j, p);
      LeafValue(child, p[1..])
  }

  /** The child a leaf path goes through. */
  ghost function ChildOf(j: Json, p: seq<string>): (child: Json)
    requires p in Leaves(j) && p != []
    ensures IsChild(j, p[0], child) && p[1..] in Leaves(child)
  {
    if j.Object? then
      var k, r :| k in j.members && r in Leaves(j.members[k]) && p == [k] + r;
      assert p[1..] == r;
      j.members[k]
    else
      var i, r :| 0 <= i < |j.elements| && r in Leaves(j.elements[i]) && p == [NatText(i)] + r;
      assert p[1..] == r;
      j.elements[i]
  }

  lemma ChildIsUnique(j: Json, token: string, a: Json, b: Json)
    requires IsChild(j, token, a) && IsChild(j, token, b)
    ensures a == b
  {
  }

  lemma ChildLeaf(j: Json, token: string, child: Json, r: seq<string>)
    requires IsChild(j, token, child) && r in Leaves(child)
    ensures [token] + r in Leaves(j) && LeafValue(j, [token] + r) == LeafValue(child, r)
  {
    var p := [token] + r;
    assert p in Leaves(j);
    assert p[1..] == r;
    ChildIsUnique(j, token, child, ChildOf(j, p));
  }

  lemma RootLeaf(j: Json)
    ensures [] in Leaves(j) <==> j.IsPrimitive() || IsEmptyContainer(j)
    ensures [] in Leaves(j) ==> Leaves(j) == {[]}
  {
  }

  lemma {:induction false} LeavesExist(j: Json)
    ensures Leaves(j) != {}
  {
    if j.Array? && j.elements != [] {
      LeavesExist(j.elements[0]);
      var p :| p in Leaves(j.elements[0]);
      assert [NatText(0)] + p in Leaves(j);
    } else if j.Object? && j.members != map[] {
      var k :| k in j.members;
      LeavesExist(j.members[k]);
      var p :| p in Leaves(j.members[k]);
      assert [k] + p in Leaves(j);
    }
  }

  // --- storing one value ---

  function Nulls(n: nat): seq<Json> {
    seq(n, _ => Null)
  }

  /** operator[] of an array: the array is filled up with null to reach the index. */
  function FilledUpTo(elements: seq<Json>, i: nat): (r: seq<Json>)
    ensures i < |r| && |elements| <= |r|
  {
    if i < |elements| then elements else elements + Nulls(i + 1 - |elements|)
  }

  /** get_and_create() and the assignment to what it refers to. */
  function Stored(j: Json, tokens: seq<string>, v: Json): Result<Json>
    decreases |tokens|
  {
    if tokens == [] then Ok(v)
    else
      match j
      case Null =>
        var child :- Stored(Null, tokens[1..], v);
        Ok(if tokens[0] == "0" then Array([child]) else Object(map[tokens[0] := child]))
      case Object(members) =>
        var child :- Stored(Lookup(members, tokens[0]), tokens[1..], v);
        Ok(Object(members[tokens[0] := child]))
      case Array(elements) =>
        var i :- ArrayIndex(tokens[0]);
        var filled := FilledUpTo(elements, i);
        var child :- Stored(filled[i], tokens[1..], v);
        Ok(Array(filled[i := child]))
      case _ => Err(313)
  }

  // --- the tree after some of its leaves are stored ---

  /** The rest of the paths that go through a token. */
  ghost function Below(paths: set<seq<string>>, token: string): set<seq<string>> {
    set p | p in paths && p != [] && p[0] == token :: p[1..]
  }

  /** One more than the largest index below n that a path goes through. */
  ghost function Extent(paths: set<seq<string>>, n: nat): (m: nat)
    ensures m <= n && (0 < m ==> Below(paths, NatText(m - 1)) != {})
    ensures forall i :: m <= i < n ==> Below(paths, NatText(i)) == {}
  {
    if n == 0 then 0 else if Below(paths, NatText(n - 1)) != {} then n else Extent(paths, n - 1)
  }

  ghost function Partial(j: Json, paths: set<seq<string>>): Json {
    if paths == {} then Null
    else match j
      case Array(elements) =>
        Array(seq(Extent(paths, |elements|), i requires 0 <= i < Extent(paths, |elements|) =>
          Partial(elements[i], Below(paths, NatText(i)))))
      case Object(members) =>
        Object(map k | k in members && Below(paths, k) != {} :: Partial(members[k], Below(paths, k)))
      case _ => j
  }

  /** The first path through a value that is still null says whether an array or an object is created. */
  ghost predicate StartsRight(j: Json, paths: set<seq<string>>, p: seq<string>)
    requires p in Leaves(j)
    decreases |p|
  {
    p == [] ||
    ((paths == {} ==> (p[0] == "0" <==> j.Array?)) && StartsRight(ChildOf(j, p), Below(paths, p[0]), p[1..]))
  }

  ghost predicate NoEmptyContainer(j: Json) {
    match j
    case Array(elements) => elements != [] && forall x :: x in elements ==> NoEmptyContainer(x)
    case Object(members) => members != map[] && forall k :: k in members ==> NoEmptyContainer(members[k])
    case _ => true
  }

  lemma BelowMore(paths: set<seq<string>>, p: seq<string>, token: string)
    requires p != []
    ensures Below(paths + {p}, token) == if token == p[0] then Below(paths, token) + {p[1..]} else Below(paths, token)
  {
    var more := Below(paths + {p}, token);
    if token == p[0] {
      assert p in paths + {p};
      assert more == Below(paths, token) + {p[1..]};
    } else {
      assert more == Below(paths, token);
    }
  }

  lemma BelowIsLeaves(j: Json, paths: set<seq<string>>, p: seq<string>)
    requires p in Leaves(j) && p != [] && paths <= Leaves(j) && p !in paths
    ensures Below(paths, p[0]) <= Leaves(ChildOf(j, p)) && p[1..] !in Below(paths, p[0])
  {
    forall r | r in Below(paths, p[0])
      ensures r in Leaves(ChildOf(j, p)) && r != p[1..]
    {
      var q :| q in paths && q != [] && q[0] == p[0] && r == q[1..];
      ChildIsUnique(j, p[0], ChildOf(j, q), ChildOf(j, p));
      assert q == [q[0]] + q[1..] && p == [p[0]] + p[1..];
    }
  }

  lemma PartialOfNothing(j: Json)
    ensures Partial(j, {}) == Null
  {
  }

  /** The step: storing one more leaf of the tree. */
  lemma {:induction false} StoreStep(j: Json, paths: set<seq<string>>, p: seq<string>)
    requires p in Leaves(j) && paths <= Leaves(j) && p !in paths
    requires NoEmptyContainer(j) && InMemory(j) && StartsRight(j, paths, p)
    ensures Stored(Partial(j, paths), p, LeafValue(j, p)) == Ok(Partial(j, paths + {p}))
    decreases |p|
  {
    RootLeaf(j);
    if p == [] {
      assert paths == {};
      assert Partial(j, {p}) == j;
    } else {
      var child := ChildOf(j, p);
      BelowIsLeaves(j, paths, p);
      StoreStep(child, Below(paths, p[0]), p[1..]);
      if j.Object? {
        StoreMember(j, paths, p, child, LeafValue(j, p));
      } else {
        StoreElement(j, paths, p, child, LeafValue(j, p));
      }
    }
  }

  /** What the members of a partial object are. */
  lemma PartialMembers(j: Json, paths: set<seq<string>>)
    requires j.Object? && paths != {}
    ensures Partial(j, paths).Object?
    ensures forall k :: k in Partial(j, paths).members <==> k in j.members && Below(paths, k) != {}
    ensures forall k :: k in Partial(j, paths).members ==> Partial(j, paths).members[k] == Partial(j.members[k], Below(paths, k))
  {
  }

  lemma StoredInObject(j: Json, tokens: seq<string>, v: Json, child: Json)
    requires tokens != [] && (j.Object? || (j.Null? && tokens[0] != "0"))
    requires Stored(if j.Object? then Lookup(j.members, tokens[0]) else Null, tokens[1..], v) == Ok(child)
    ensures Stored(j, tokens, v) == Ok(Object((if j.Object? then j.members else map[])[tokens[0] := child]))
  {
  }

  lemma StoreMember(j: Json, paths: set<seq<string>>, p: seq<string>, child: Json, v: Json)
    requires j.Object? && p != [] && p[0] in j.members && child == j.members[p[0]]
    requires paths == {} ==> p[0] != "0"
    requires Stored(Partial(child, Below(paths, p[0])), p[1..], v) == Ok(Partial(child, Below(paths, p[0]) + {p[1..]}))
    ensures Stored(Partial(j, paths), p, v) == Ok(Partial(j, paths + {p}))
  {
    hide Partial, Stored, Below;
    PartialOfNothing(j);
    PartialOfNothing(child);
    if paths != {} {
      PartialMembers(j, paths);
    }
    PartialMembers(j, paths + {p});
    forall k
      ensures Below(paths + {p}, k) == if k == p[0] then Below(paths, k) + {p[1..]} else Below(paths, k)
    {
      BelowMore(paths, p, k);
    }
    var before, after := Partial(j, paths), Partial(j, paths + {p});
    var stored := Partial(child, Below(paths, p[0]) + {p[1..]});
    if paths == {} {
      NothingBelow();
      assert after.members == map[p[0] := stored];
    } else {
      assert after.members == before.members[p[0] := stored];
    }
    StoredInObject(before, p, v, stored);
  }

  lemma NothingBelow()
    ensures forall token :: Below({}, token) == {}
  {
  }

  lemma IndexOfText(n: nat, i: nat)
    ensures NatText(n) == NatText(i) ==> n == i
    ensures n < SIZE_MAX ==> ArrayIndex(NatText(n)) == Ok(n)
    ensures NatText(n) == "0" <==> n == 0
    ensures NatText(n) != [] && (0 < n ==> '0' < NatText(n)[0])
  {
    assert NumberOf("0") == 10 * NumberOf([]) + 0;
  }

  /** What the elements of a partial array are. */
  lemma PartialElements(j: Json, paths: set<seq<string>>)
    requires j.Array? && paths != {}
    ensures Partial(j, paths).Array? && |Partial(j, paths).elements| == Extent(paths, |j.elements|)
    ensures forall i :: 0 <= i < Extent(paths, |j.elements|) ==>
      Partial(j, paths).elements[i] == Partial(j.elements[i], Below(paths, NatText(i)))
  {
  }

  lemma StoredInArray(j: Json, tokens: seq<string>, v: Json, i: nat, child: Json)
    requires tokens != [] && (j.Array? || (j.Null? && tokens[0] == "0" && i == 0)) && ArrayIndex(tokens[0]) == Ok(i)
    requires Stored(if j.Array? then FilledUpTo(j.elements, i)[i] else Null, tokens[1..], v) == Ok(child)
    ensures Stored(j, tokens, v) == Ok(Array(if j.Array? then FilledUpTo(j.elements, i)[i := child] else [child]))
  {
  }

  lemma StoreElement(j: Json, paths: set<seq<string>>, p: seq<string>, child: Json, v: Json)
    requires j.Array? && p != [] && IsChild(j, p[0], child) && |j.elements| <= SIZE_MAX
    requires paths == {} ==> p[0] == "0"
    requires Stored(Partial(child, Below(paths, p[0])), p[1..], v) == Ok(Partial(child, Below(paths, p[0]) + {p[1..]}))
    ensures Stored(Partial(j, paths), p, v) == Ok(Partial(j, paths + {p}))
  {
    hide Partial, Stored, Below, NatText, ArrayIndex, Extent;
    var e := j.elements;
    var i :| 0 <= i < |e| && p[0] == NatText(i) && child == e[i];
    IndexOfText(i, 0);
    PartialOfNothing(j);
    PartialOfNothing(child);
    if paths != {} {
      PartialElements(j, paths);
    }
    PartialElements(j, paths + {p});
    forall n: nat
      ensures Below(paths + {p}, NatText(n)) == if n == i then Below(paths, p[0]) + {p[1..]} else Below(paths, NatText(n))
    {
      BelowMore(paths, p, NatText(n));
      IndexOfText(n, i);
    }
    NothingBelow();
    ExtentMore(paths, p, |e|, i);
    ElementsAfter(j, paths, p, child, i, v);
  }

  lemma ElementsAfter(j: Json, paths: set<seq<string>>, p: seq<string>, child: Json, i: nat, v: Json)
    requires j.Array? && p != [] && i < |j.elements| && p[0] == NatText(i) && child == j.elements[i]
    requires ArrayIndex(p[0]) == Ok(i) && (paths == {} ==> i == 0 && p[0] == "0")
    requires Stored(Partial(child, Below(paths, p[0])), p[1..], v) == Ok(Partial(child, Below(paths, p[0]) + {p[1..]}))
    requires forall n: nat :: Below(paths + {p}, NatText(n)) ==
                              if n == i then Below(paths, p[0]) + {p[1..]} else Below(paths, NatText(n))
    requires Extent(paths + {p}, |j.elements|) == if i < Extent(paths, |j.elements|) then Extent(paths, |j.elements|) else i + 1
    ensures Stored(Partial(j, paths), p, v) == Ok(Partial(j, paths + {p}))
  {
    hide Partial, Stored, Below, NatText, ArrayIndex, Extent;
    PartialOfNothing(j);
    PartialOfNothing(child);
    NothingBelow();
    PartialElements(j, paths + {p});
    forall k: nat | k < |j.elements| && Below(paths, NatText(k)) == {}
      ensures Partial(j.elements[k], Below(paths, NatText(k))) == Null
    {
      PartialOfNothing(j.elements[k]);
    }
    var before, after := Partial(j, paths), Partial(j, paths + {p});
    var stored := Partial(child, Below(paths, p[0]) + {p[1..]});
    if paths == {} {
      assert after.elements == [stored];
    } else {
      PartialElements(j, paths);
      assert after.elements == FilledUpTo(before.elements, i)[i := stored];
    }
    StoredInArray(before, p, v, i, stored);
  }

  lemma ExtentMore(paths: set<seq<string>>, p: seq<string>, n: nat, i: nat)
    requires p != [] && i < n && p[0] == NatText(i)
    requires forall k: nat :: k != i ==> Below(paths + {p}, NatText(k)) == Below(paths, NatText(k))
    requires Below(paths + {p}, NatText(i)) != {}
    ensures Extent(paths + {p}, n) == if i < Extent(paths, n) then Extent(paths, n) else i + 1
  {
    hide NatText, Below;
    var m, before := Extent(paths + {p}, n), Extent(paths, n);
    assert i < m;
    assert before <= m;
  }

  lemma BelowLeaves(j: Json, token: string, child: Json)
    requires IsChild(j, token, child)
    ensures Below(Leaves(j), token) == Leaves(child)
  {
    forall r | r in Below(Leaves(j), token)
      ensures r in Leaves(child)
    {
      var p :| p in Leaves(j) && p != [] && p[0] == token && r == p[1..];
      ChildIsUnique(j, token, child, ChildOf(j, p));
    }
    forall r | r in Leaves(child)
      ensures r in Below(Leaves(j), token)
    {
      ChildLeaf(j, token, child, r);
      var p := [token] + r;
      assert p in Leaves(j) && p != [] && p[0] == token && p[1..] == r;
    }
  }

  /** All leaves stored, the tree is complete. */
  lemma {:induction false} PartialOfAll(j: Json)
    requires NoEmptyContainer(j)
    ensures Partial(j, Leaves(j)) == j
    decreases j, 1
  {
    if j.Array? {
      PartialOfAllElements(j);
    } else if j.Object? {
      PartialOfAllMembers(j);
    }
  }

  lemma {:induction false} PartialOfAllElements(j: Json)
    requires NoEmptyContainer(j) && j.Array?
    ensures Partial(j, Leaves(j)) == j
    decreases j, 0
  {
    hide Partial, Leaves, Below, Extent;
    LeavesExist(j);
    var e, n := j.elements, Extent(Leaves(j), |j.elements|);
    forall i | 0 <= i < |e|
      ensures Below(Leaves(j), NatText(i)) == Leaves(e[i]) != {} && Partial(e[i], Leaves(e[i])) == e[i]
    {
      BelowLeaves(j, NatText(i), e[i]);
      LeavesExist(e[i]);
      PartialOfAll(e[i]);
    }
    PartialElements(j, Leaves(j));
    ExtentOfAll(j, Leaves(j));
    assert Partial(j, Leaves(j)).elements == e;
  }

  lemma ExtentOfAll(j: Json, paths: set<seq<string>>)
    requires j.Array? && j.elements != [] && Below(paths, NatText(|j.elements| - 1)) != {}
    ensures Extent(paths, |j.elements|) == |j.elements|
  {
  }

  lemma {:induction false} PartialOfAllMembers(j: Json)
    requires NoEmptyContainer(j) && j.Object?
    ensures Partial(j, Leaves(j)) == j
    decreases j, 0
  {
    hide Partial, Leaves, Below;
    LeavesExist(j);
    forall k | k in j.members
      ensures Below(Leaves(j), k) == Leaves(j.members[k]) != {} && Partial(j.members[k], Leaves(j.members[k])) == j.members[k]
    {
      BelowLeaves(j, k, j.members[k]);
      LeavesExist(j.members[k]);
      PartialOfAll(j.members[k]);
    }
    PartialMembers(j, Leaves(j));
    assert Partial(j, Leaves(j)).members == j.members;
  }

  // --- the order of the paths ---

  lemma {:induction false} ToStringAppend(a: seq<string>, b: seq<string>)
    ensures ToString(a + b) == ToString(a) + ToString(b)
  {
    if b == [] {
      assert a + b == a;
    } else {
      assert (a + b)[..|a + b| - 1] == a + b[..|b| - 1];
      ToStringAppend(a, b[..|b| - 1]);
    }
  }

  lemma ToStringCons(token: string, r: seq<string>)
    ensures ToString([token] + r) == "/" + (Escaped(token) + ToString(r))
    ensures r != [] ==> ToString(r) != [] && ToString(r)[0] == '/'
  {
    ToStringAppend([token], r);
    assert [token][..0] == [];
    PrintedEscapes(r);
  }

  predicate PathLess(a: seq<string>, b: seq<string>) {
    Less(ToString(a), ToString(b))
  }

  lemma {:induction false} LessBehindPrefix(x: string, a: string, b: string)
    ensures Less(x + a, x + b) <==> Less(a, b)
  {
    if x == [] {
      assert x + a == a && x + b == b;
    } else {
      assert (x + a)[1..] == x[1..] + a && (x + b)[1..] == x[1..] + b;
      LessBehindPrefix(x[1..], a, b);
    }
  }

  lemma PathLessBehind(token: string, a: seq<string>, b: seq<string>)
    ensures PathLess([token] + a, [token] + b) <==> PathLess(a, b)
  {
    ToStringCons(token, a);
    ToStringCons(token, b);
    LessBehindPrefix(Escaped(token), ToString(a), ToString(b));
    LessBehindPrefix("/", Escaped(token) + ToString(a), Escaped(token) + ToString(b));
  }

  lemma LessIsAsymmetric(a: string, b: string)
    requires Less(a, b)
    ensures !Less(b, a)
  {
    if Less(b, a) {
      LessIsTransitive(a, b, a);
      LessIsIrreflexive(a);
    }
  }

  /** Where a key and a path behind it stand against "0" and a path behind it. */
  lemma CompareHead(e: string, s: string, z: string)
    requires '/' !in e && e != "0" && (s == [] || s[0] == '/') && (z == [] || z[0] == '/')
    ensures Less("0" + z, e + s) <==> Less(if z == [] then "0" else "0/", e)
  {
    assert ("0" + z)[0] == '0' && ("0" + z)[1..] == z;
    assert "0"[1..] == "" && "0/"[1..] == "/" && "/"[1..] == "";
    if e == [] {
      assert e + s == s;
    } else {
      assert (e + s)[0] == e[0] && (e + s)[1..] == e[1..] + s;
      if e[0] == '0' {
        assert |e| == 1 ==> e == "0";
        assert e[1] != '/' && (e[1..] + s)[0] == e[1];
      }
    }
  }

  lemma ZeroIsPlain()
    ensures Escaped("0") == "0"
  {
    assert "0"[1..] == "";
  }

  /** The path of member "0" compared with the path of another member depends on the key alone. */
  lemma ZeroAgainst(key: string, r: seq<string>, zero: seq<string>)
    requires key != "0"
    ensures PathLess(["0"] + zero, [key] + r) <==> Less(if zero == [] then "0" else "0/", Escaped(key))
    ensures PathLess(["0"] + zero, [key] + r) || PathLess([key] + r, ["0"] + zero)
  {
    hide Less, ToString, Escaped;
    ToStringCons("0", zero);
    ToStringCons(key, r);
    EscapedIsClean(key);
    UnescapeUndoesEscape(key);
    ZeroIsPlain();
    UnescapeUndoesEscape("0");
    NothingPrinted();
    LessBehindPrefix("/", "0" + ToString(zero), Escaped(key) + ToString(r));
    CompareHead(Escaped(key), ToString(r), ToString(zero));
    LessIsTotal(ToString(["0"] + zero), ToString([key] + r));
    assert (["0"] + zero)[0] == "0" && ([key] + r)[0] == key;
    if ToString(["0"] + zero) == ToString([key] + r) {
      ToStringIsInjective(["0"] + zero, [key] + r);
    }
  }

  // --- when a tree comes back ---

  /** Among the members of an object, a path through "0" comes first. */
  predicate ZeroComesFirst(members: map<string, Json>) {
    && "0" in members
    && forall k :: k in members && k != "0" ==> Less(if members["0"].IsPrimitive() then "0" else "0/", Escaped(k))
  }

  /** No container is empty, and no object has its first path go through "0". */
  ghost predicate Restorable(j: Json) {
    match j
    case Array(elements) => elements != [] && forall x :: x in elements ==> Restorable(x)
    case Object(members) =>
      && members != map[] && !ZeroComesFirst(members)
      && forall k :: k in members ==> Restorable(members[k])
    case _ => true
  }

  ghost predicate IsLeastPath(p: seq<string>, paths: set<seq<string>>) {
    p in paths && forall q :: q in paths && q != p ==> PathLess(p, q)
  }

  lemma ZeroComesBefore(s: string)
    requires s != [] && '0' < s[0]
    ensures Less("0", s) && Less("0/", s)
  {
  }

  lemma LeastInArray(j: Json, p: seq<string>)
    requires j.Array? && j.elements != [] && IsLeastPath(p, Leaves(j))
    ensures p != [] && p[0] == "0"
  {
    RootLeaf(j);
    hide Leaves, Less, ToString, NatText, NumberOf, AllDigits;
    var child := ChildOf(j, p);
    var i :| 0 <= i < |j.elements| && p[0] == NatText(i);
    IndexOfText(i, 0);
    IndexOfText(0, 0);
    if i != 0 {
      LeavesExist(j.elements[0]);
      var r :| r in Leaves(j.elements[0]);
      ChildLeaf(j, "0", j.elements[0], r);
      var zero := ["0"] + r;
      DigitsNeedNoEscape(NatText(i));
      ZeroComesBefore(NatText(i));
      ZeroAgainst(NatText(i), p[1..], r);
      assert p == [NatText(i)] + p[1..];
      LessIsAsymmetric(ToString(p), ToString(zero));
    }
  }

  /** The first leaf of an object goes through "0" exactly if its keys say so. */
  lemma LeastInObject(j: Json, p: seq<string>)
    requires j.Object? && j.members != map[] && IsLeastPath(p, Leaves(j))
    requires "0" in j.members ==> !IsEmptyContainer(j.members["0"])
    ensures p != [] && (p[0] == "0" <==> ZeroComesFirst(j.members))
  {
    RootLeaf(j);
    var m := j.members;
    var child := ChildOf(j, p);
    assert p == [p[0]] + p[1..];
    if p[0] == "0" {
      RootLeaf(child);
      forall k | k in m && k != "0"
        ensures Less(if m["0"].IsPrimitive() then "0" else "0/", Escaped(k))
      {
        LeavesExist(m[k]);
        var r :| r in Leaves(m[k]);
        ChildLeaf(j, k, m[k], r);
        ZeroAgainst(k, r, p[1..]);
      }
    } else if "0" in m {
      LeavesExist(m["0"]);
      var r :| r in Leaves(m["0"]);
      RootLeaf(m["0"]);
      ChildLeaf(j, "0", m["0"], r);
      ZeroAgainst(p[0], p[1..], r);
      LessIsAsymmetric(ToString(p), ToString(["0"] + r));
    }
  }

  lemma RestorableParts(j: Json)
    requires Restorable(j)
    ensures NoEmptyContainer(j)
  {
  }

  /** A path that comes before all others not yet stored starts every new container the right way. */
  lemma {:induction false} NextStartsRight(j: Json, paths: set<seq<string>>, p: seq<string>)
    requires Restorable(j) && p in Leaves(j) && p !in paths && paths <= Leaves(j)
    requires IsLeastPath(p, Leaves(j) - paths)
    ensures StartsRight(j, paths, p)
    decreases |p|
  {
    if p != [] {
      RootLeaf(j);
      var child := ChildOf(j, p);
      if paths == {} {
        assert Leaves(j) - paths == Leaves(j);
        if j.Array? {
          LeastInArray(j, p);
        } else {
          LeastInObject(j, p);
        }
      }
      BelowIsLeaves(j, paths, p);
      assert p == [p[0]] + p[1..];
      forall r | r in Leaves(child) - Below(paths, p[0]) && r != p[1..]
        ensures PathLess(p[1..], r)
      {
        var q := [p[0]] + r;
        ChildLeaf(j, p[0], child, r);
        assert q[1..] == r;
        assert q !in paths;
        PathLessBehind(p[0], p[1..], r);
      }
      NextStartsRight(child, Below(paths, p[0]), p[1..]);
    }
  }

  // --- flattened values ---

  /** The leaf whose path is printed as s. */
  ghost function LeafOf(j: Json, s: string): (p: seq<string>)
    requires exists p :: p in Leaves(j) && ToString(p) == s
    ensures p in Leaves(j) && ToString(p) == s
  {
    var p :| p in Leaves(j) && ToString(p) == s; p
  }

  ghost function PathTexts(j: Json): set<string> {
    set p | p in Leaves(j) :: ToString(p)
  }

  /** The members flatten writes: each leaf's value at its path. */
  ghost function Flattened(j: Json): map<string, Json> {
    map s | s in PathTexts(j) :: LeafValue(j, LeafOf(j, s))
  }

  /** What unflatten does with the first n members in order. */
  ghost function StoredFirst(flat: map<string, Json>, n: nat): Result<Json>
    requires n <= |flat|
    decreases n
  {
    if n == 0 then Ok(Null)
    else
      var before :- StoredFirst(flat, n - 1);
      var key := Ordered(flat.Keys)[n - 1];
      assert key in flat.Keys;
      if !flat[key].IsPrimitive() then Err(315)
      else
        var tokens :- Parsed(key);
        Stored(before, tokens, flat[key])
  }

  ghost function Unflattened(flat: Json): Result<Json> {
    if flat.Object? then StoredFirst(flat.members, |flat.members|) else Err(314)
  }

  /** The leaves among the first n members. */
  ghost function StoredPaths(j: Json, n: nat): set<seq<string>>
    requires n <= |Flattened(j)|
  {
    set p | p in Leaves(j) && ToString(p) in Ordered(Flattened(j).Keys)[..n]
  }

  /** The leaf stored in step n comes next in the order of paths. */
  lemma NextPath(j: Json, n: nat) returns (p: seq<string>)
    requires n < |Flattened(j)|
    ensures p in Leaves(j) && ToString(p) == Ordered(Flattened(j).Keys)[n]
    ensures IsLeastPath(p, Leaves(j) - StoredPaths(j, n)) && p !in StoredPaths(j, n)
    ensures StoredPaths(j, n + 1) == StoredPaths(j, n) + {p}
    ensures Flattened(j)[ToString(p)] == LeafValue(j, p)
  {
    hide Leaves, LeafValue, ToString, Ordered, Less;
    var keys := Ordered(Flattened(j).Keys);
    assert keys[n] in Flattened(j).Keys;
    p := LeafOf(j, keys[n]);
    if keys[n] in keys[..n] {
      LessIsIrreflexive(keys[n]);
    }
    forall q | q in Leaves(j) - StoredPaths(j, n) && q != p
      ensures PathLess(p, q)
    {
      LaterInOrder(j, p, q, n);
    }
    assert keys[..n + 1] == keys[..n] + [keys[n]];
    forall q | q in Leaves(j)
      ensures ToString(q) == keys[n] <==> q == p
    {
      if ToString(q) == keys[n] {
        ToStringIsInjective(p, q);
      }
    }
  }

  lemma AllInFront(s: seq<string>, n: nat)
    requires n <= |s|
    ensures forall i :: 0 <= i < n ==> s[i] in s[..n]
  {
    assert forall i :: 0 <= i < n ==> s[..n][i] == s[i];
  }

  lemma LaterInOrder(j: Json, p: seq<string>, q: seq<string>, n: nat)
    requires n < |Flattened(j)| && p in Leaves(j) && ToString(p) == Ordered(Flattened(j).Keys)[n]
    requires q in Leaves(j) && q != p && ToString(q) !in Ordered(Flattened(j).Keys)[..n]
    ensures PathLess(p, q)
  {
    hide Leaves, LeafValue, ToString, Ordered, Less;
    var keys := Ordered(Flattened(j).Keys);
    assert ToString(q) in PathTexts(j);
    assert ToString(q) in keys;
    AllInFront(keys, n);
    var i :| 0 <= i < |keys| && keys[i] == ToString(q);
    if i == n {
      ToStringIsInjective(p, q);
    }
  }

  lemma LeavesArePrimitive(j: Json, p: seq<string>)
    requires p in Leaves(j)
    ensures LeafValue(j, p).IsPrimitive()
    decreases |p|
  {
    if p == [] {
      RootLeaf(j);
    } else {
      LeavesArePrimitive(ChildOf(j, p), p[1..]);
    }
  }

  lemma {:induction false} StoredFirstIsPartial(j: Json, n: nat)
    requires Restorable(j) && InMemory(j) && n <= |Flattened(j)|
    ensures StoredFirst(Flattened(j), n) == Ok(Partial(j, StoredPaths(j, n)))
    decreases n
  {
    hide Flattened, Ordered, Stored, Partial, Leaves, LeafValue, Restorable, ToString;
    if n == 0 {
      PartialOfNothing(j);
      assert StoredPaths(j, 0) == {};
    } else {
      StoredFirstIsPartial(j, n - 1);
      var p := NextPath(j, n - 1);
      StoredAreLeaves(j, n - 1);
      NextStartsRight(j, StoredPaths(j, n - 1), p);
      RestorableParts(j);
      StoreStep(j, StoredPaths(j, n - 1), p);
      LeavesArePrimitive(j, p);
      ParsedIs(ToString(p), p);
    }
  }

  lemma StoredAreLeaves(j: Json, n: nat)
    requires n <= |Flattened(j)|
    ensures StoredPaths(j, n) <= Leaves(j)
    ensures n == |Flattened(j)| ==> StoredPaths(j, n) == Leaves(j)
  {
    hide Leaves, LeafValue, ToString, Ordered;
    var keys := Ordered(Flattened(j).Keys);
    if n == |keys| {
      assert keys[..n] == keys;
      forall p | p in Leaves(j)
        ensures p in StoredPaths(j, n)
      {
        assert ToString(p) in PathTexts(j);
        assert ToString(p) in keys;
      }
    }
  }

  /** Flattening and unflattening gives the tree back. */
  lemma UnflattenAfterFlatten(j: Json)
    requires Restorable(j) && InMemory(j)
    ensures Unflattened(Object(Flattened(j))) == Ok(j)
  {
    var n := |Flattened(j)|;
    StoredFirstIsPartial(j, n);
    StoredAreLeaves(j, n);
    RestorableParts(j);
    PartialOfAll(j);
  }

  // --- only such trees come back ---

  lemma FilledHasNoEmptyContainer(elements: seq<Json>, i: nat, child: Json)
    requires (forall x :: x in elements ==> NoEmptyContainer(x)) && NoEmptyContainer(child)
    ensures NoEmptyContainer(Array(FilledUpTo(elements, i)[i := child]))
  {
    var after := FilledUpTo(elements, i)[i := child];
    forall x | x in after
      ensures NoEmptyContainer(x)
    {
      assert x == child || x in elements || x == Null;
    }
    assert after != [];
  }

  lemma {:induction false} StoredHasNoEmptyContainer(j: Json, tokens: seq<string>, v: Json)
    requires NoEmptyContainer(j) && v.IsPrimitive() && Stored(j, tokens, v).Ok?
    ensures NoEmptyContainer(Stored(j, tokens, v).value)
    decreases |tokens|
  {
    if tokens != [] {
      match j {
        case Null =>
          StoredHasNoEmptyContainer(Null, tokens[1..], v);
          var child := Stored(Null, tokens[1..], v).value;
          assert tokens[0] in map[tokens[0] := child];
        case Object(members) =>
          StoredHasNoEmptyContainer(Lookup(members, tokens[0]), tokens[1..], v);
        case Array(elements) =>
          var i := ArrayIndex(tokens[0]).value;
          var filled := FilledUpTo(elements, i);
          assert filled[i] in elements || filled[i] == Null;
          StoredHasNoEmptyContainer(filled[i], tokens[1..], v);
          FilledHasNoEmptyContainer(elements, i, Stored(filled[i], tokens[1..], v).value);
          StoredInArray(j, tokens, v, i, Stored(filled[i], tokens[1..], v).value);
        case _ =>
      }
    }
  }

  lemma {:induction false} StoredFirstHasNoEmptyContainer(flat: map<string, Json>, n: nat)
    requires n <= |flat| && StoredFirst(flat, n).Ok?
    ensures NoEmptyContainer(StoredFirst(flat, n).value)
    decreases n
  {
    if 0 < n {
      StoredFirstHasNoEmptyContainer(flat, n - 1);
      var key := Ordered(flat.Keys)[n - 1];
      assert key in flat.Keys;
      StoredHasNoEmptyContainer(StoredFirst(flat, n - 1).value, Parsed(key).value, flat[key]);
    }
  }

  /** The value at a place, or null where there is none. */
  function Peek(j: Json, tokens: seq<string>): Json
    decreases |tokens|
  {
    if tokens == [] then j else Peek(PeekChild(j, tokens[0]), tokens[1..])
  }

  function PeekChild(j: Json, token: string): Json {
    match j
    case Object(members) => Lookup(members, token)
    case Array(elements) =>
      var i := ArrayIndex(token);
      if i.Ok? && i.value < |elements| then elements[i.value] else Null
    case _ => Null
  }

  lemma {:induction false} PeekOfNull(tokens: seq<string>)
    ensures Peek(Null, tokens) == Null
  {
    if tokens != [] {
      PeekOfNull(tokens[1..]);
    }
  }

  lemma DivTen(q: nat, d: nat)
    requires d < 10
    ensures (10 * q + d) / 10 == q && (10 * q + d) % 10 == d
  {
  }

  lemma NatTextStep(q: nat, d: nat)
    requires d < 10
    ensures NatText(10 * q + d) == if q == 0 then [DigitChar(d)] else NatText(q) + [DigitChar(d)]
  {
    DivTen(q, d);
  }

  lemma {:induction false} TextOfIndex(s: string)
    requires IsArrayIndex(s)
    ensures NatText(NumberOf(s)) == s
    decreases |s|
  {
    hide NatText;
    var front, last := s[..|s| - 1], s[|s| - 1];
    assert s == front + [last] && [DigitChar(DigitOf(last))] == [last];
    NatTextStep(NumberOf(front), DigitOf(last));
    if front != [] {
      assert front[0] == s[0];
      TextOfIndex(front);
      LeadingDigitCounts(front);
    }
  }

  lemma {:induction false} LeadingDigitCounts(s: string)
    requires s != [] && AllDigits(s) && s[0] != '0'
    ensures 0 < NumberOf(s)
    decreases |s|
  {
    if 1 < |s| {
      LeadingDigitCounts(s[..|s| - 1]);
    }
  }

  lemma IndicesAreDistinct(a: string, b: string)
    ensures ArrayIndex(a).Ok? && ArrayIndex(b) == ArrayIndex(a) ==> a == b
  {
    if ArrayIndex(a).Ok? && ArrayIndex(b) == ArrayIndex(a) {
      TextOfIndex(a);
      TextOfIndex(b);
    }
  }

  /** Storing at one child leaves the others alone. */
  lemma StoredElsewhere(j: Json, tokens: seq<string>, v: Json, token: string)
    requires tokens != [] && Stored(j, tokens, v).Ok?
    ensures token == tokens[0] ==> Stored(PeekChild(j, token), tokens[1..], v) == Ok(PeekChild(Stored(j, tokens, v).value, token))
    ensures token != tokens[0] ==> PeekChild(Stored(j, tokens, v).value, token) == PeekChild(j, token)
  {
    hide ArrayIndex, NatText, NumberOf, IsArrayIndex;
    IndicesAreDistinct(token, tokens[0]);
    IndexOfText(0, 0);
  }

  lemma SharedHead(a: seq<string>, b: seq<string>)
    requires a != [] && b != [] && a[0] == b[0]
    ensures a <= b <==> a[1..] <= b[1..]
  {
    if a[1..] <= b[1..] {
      assert a == [a[0]] + a[1..] && b == [b[0]] + b[1..];
    }
  }

  /** Storing at a path that does not lead through a place leaves it alone, unless the place lies behind the path. */
  lemma {:induction false} StoredAside(j: Json, tokens: seq<string>, v: Json, place: seq<string>)
    requires Stored(j, tokens, v).Ok? && !(tokens <= place) && !(place <= tokens)
    ensures Peek(Stored(j, tokens, v).value, place) == Peek(j, place)
    decreases |tokens|
  {
    hide Stored, PeekChild;
    StoredElsewhere(j, tokens, v, place[0]);
    if place[0] == tokens[0] {
      SharedHead(tokens, place);
      SharedHead(place, tokens);
      StoredAside(PeekChild(j, place[0]), tokens[1..], v, place[1..]);
    }
  }

  /** An array stays an array when something is stored below it. */
  lemma {:induction false} StoredBelowArray(j: Json, place: seq<string>, rest: seq<string>, v: Json)
    requires rest != [] && Stored(j, place + rest, v).Ok?
    requires Peek(j, place).Array? || (Peek(j, place).Null? && rest[0] == "0")
    ensures Peek(Stored(j, place + rest, v).value, place).Array?
    decreases |place|
  {
    if place == [] {
      assert place + rest == rest;
    } else {
      var all := place + rest;
      assert all[0] == place[0] && all[1..] == place[1..] + rest;
      StoredElsewhere(j, all, v, place[0]);
      StoredBelowArray(PeekChild(j, place[0]), place[1..], rest, v);
    }
  }

  /** A place in a tree that holds an object whose first path goes through "0". */
  ghost predicate IsBadPlace(j: Json, place: seq<string>, bad: Json) {
    && bad.Object? && bad.members != map[] && ZeroComesFirst(bad.members) && NoEmptyContainer(bad)
    && Peek(j, place) == bad
    && forall r :: r in Leaves(bad) <==> place + r in Leaves(j)
  }

  lemma {:induction false} BadPlaceExists(j: Json) returns (place: seq<string>, bad: Json)
    requires NoEmptyContainer(j) && InMemory(j) && !Restorable(j)
    ensures IsBadPlace(j, place, bad)
  {
    if j.Object? && ZeroComesFirst(j.members) {
      assert forall r: seq<string> :: [] + r == r;
      return [], j;
    }
    var token, child;
    if j.Array? {
      var i :| 0 <= i < |j.elements| && !Restorable(j.elements[i]);
      token, child := NatText(i), j.elements[i];
      IndexOfText(i, i);
    } else {
      token :| token in j.members && !Restorable(j.members[token]);
      child := j.members[token];
    }
    var below;
    below, bad := BadPlaceExists(child);
    place := [token] + below;
    BadPlaceAbove(j, token, child, below, bad);
  }

  lemma BadPlaceAbove(j: Json, token: string, child: Json, below: seq<string>, bad: Json)
    requires IsChild(j, token, child) && PeekChild(j, token) == child && IsBadPlace(child, below, bad)
    ensures IsBadPlace(j, [token] + below, bad)
  {
    hide Leaves, PeekChild, IsChild, NoEmptyContainer, ZeroComesFirst;
    var place := [token] + below;
    assert place[1..] == below;
    assert Peek(j, place) == Peek(child, below);
    hide Peek;
    BelowLeaves(j, token, child);
    forall r
      ensures below + r in Leaves(child) <==> place + r in Leaves(j)
    {
      var p := place + r;
      assert p == [token] + (below + r) && p[0] == token && p[1..] == below + r;
      if below + r in Leaves(child) {
        ChildLeaf(j, token, child, below + r);
      }
      if p in Leaves(j) {
        assert p[1..] in Below(Leaves(j), token);
      }
    }
  }

  /** The path that comes first among finitely many. */
  lemma {:induction false} LeastPathExists(paths: set<seq<string>>) returns (p: seq<string>)
    requires paths != {}
    ensures IsLeastPath(p, paths)
    decreases |paths|
  {
    var texts := set q | q in paths :: ToString(q);
    var q0 :| q0 in paths;
    assert ToString(q0) in texts;
    var least := LeastExists(texts);
    p :| p in paths && ToString(p) == least;
    forall q | q in paths && q != p
      ensures PathLess(p, q)
    {
      assert ToString(q) in texts;
      if ToString(q) == least {
        ToStringIsInjective(p, q);
      }
    }
  }

  lemma PathLessBehindAll(place: seq<string>, a: seq<string>, b: seq<string>)
    ensures PathLess(place + a, place + b) <==> PathLess(a, b)
  {
    ToStringAppend(place, a);
    ToStringAppend(place, b);
    LessBehindPrefix(ToString(place), ToString(a), ToString(b));
  }

  /** No leaf lies on the way to another. */
  lemma {:induction false} LeavesArePrefixFree(j: Json, p: seq<string>, q: seq<string>)
    requires p in Leaves(j) && q in Leaves(j) && p <= q
    ensures p == q
    decreases |p|
  {
    RootLeaf(j);
    if p != [] {
      ChildIsUnique(j, p[0], ChildOf(j, p), ChildOf(j, q));
      LeavesArePrefixFree(ChildOf(j, p), p[1..], q[1..]);
      assert p == [p[0]] + p[1..] && q == [q[0]] + q[1..];
    }
  }

  /** At a bad place, nothing is stored before the first path below it, and an array is kept from then on. */
  lemma {:induction false} BadPlaceBecomesArray(j: Json, place: seq<string>, bad: Json, first: seq<string>, n: nat)
    requires IsBadPlace(j, place, bad) && IsLeastPath(first, Leaves(bad)) && first != [] && first[0] == "0"
    requires n <= |Flattened(j)| && StoredFirst(Flattened(j), n).Ok?
    ensures if place + first in StoredPaths(j, n) then Peek(StoredFirst(Flattened(j), n).value, place).Array?
            else Peek(StoredFirst(Flattened(j), n).value, place).Null?
    decreases n
  {
    hide Flattened, Ordered, Stored, Leaves, LeafValue, Restorable, ToString, StoredPaths, Peek;
    if n == 0 {
      PeekOfNull(place);
      NothingStored(j);
    } else {
      BadPlaceBecomesArray(j, place, bad, first, n - 1);
      var p := NextPath(j, n - 1);
      var before := StoredFirst(Flattened(j), n - 1).value;
      ParsedIs(ToString(p), p);
      BadPlaceStep(j, place, bad, first, before, StoredPaths(j, n - 1), p, LeafValue(j, p));
    }
  }

  lemma NothingStored(j: Json)
    ensures StoredPaths(j, 0) == {}
  {
  }

  lemma BadPlaceStep(j: Json, place: seq<string>, bad: Json, first: seq<string>, before: Json,
                     stored: set<seq<string>>, p: seq<string>, v: Json)
    requires IsBadPlace(j, place, bad) && IsLeastPath(first, Leaves(bad)) && first != [] && first[0] == "0"
    requires p in Leaves(j) && p !in stored && IsLeastPath(p, Leaves(j) - stored) && Stored(before, p, v).Ok?
    requires if place + first in stored then Peek(before, place).Array? else Peek(before, place).Null?
    ensures if place + first in stored + {p} then Peek(Stored(before, p, v).value, place).Array?
            else Peek(Stored(before, p, v).value, place).Null?
  {
    hide Leaves, Stored, Peek, ToString, Less;
    assert place + first in Leaves(j);
    if place <= p {
      var rest := p[|place|..];
      assert p == place + rest;
      assert rest in Leaves(bad);
      RootLeaf(bad);
      if place + first !in stored {
        assert p == place + first by {
          if p != place + first {
            PathLessBehindAll(place, first, rest);
            PathLessBehindAll(place, rest, first);
            LessIsAsymmetric(ToString(p), ToString(place + first));
          }
        }
        assert rest == first;
      }
      StoredBelowArray(before, place, rest, v);
    } else {
      if p <= place {
        LeavesArePrefixFree(j, p, place + first);
      } else {
        StoredAside(before, p, v, place);
      }
    }
  }

  lemma NotRestorableIsChanged(j: Json)
    requires InMemory(j) && NoEmptyContainer(j) && !Restorable(j) && Unflattened(Object(Flattened(j))).Ok?
    ensures Unflattened(Object(Flattened(j))).value != j
  {
    var place, bad := BadPlaceExists(j);
    hide Flattened, Leaves, Peek, ToString, StoredFirst, StoredPaths, ZeroComesFirst, Restorable, NoEmptyContainer, InMemory;
    LeavesExist(bad);
    var first := LeastPathExists(Leaves(bad));
    FirstGoesThroughZero(j, place, bad, first);
    BadPlaceBecomesArray(j, place, bad, first, |Flattened(j)|);
    StoredAreLeaves(j, |Flattened(j)|);
  }

  lemma FirstGoesThroughZero(j: Json, place: seq<string>, bad: Json, first: seq<string>)
    requires IsBadPlace(j, place, bad) && IsLeastPath(first, Leaves(bad))
    ensures first != [] && first[0] == "0" && place + first in Leaves(j)
  {
    assert NoEmptyContainer(bad.members["0"]);
    LeastInObject(bad, first);
  }

  /** A tree comes back from flattening if and only if it is restorable. */
  lemma RestoredIffRestorable(j: Json)
    requires InMemory(j)
    ensures Unflattened(Object(Flattened(j))) == Ok(j) <==> Restorable(j)
  {
    hide Flattened, Restorable, StoredFirst, NoEmptyContainer;
    if Restorable(j) {
      UnflattenAfterFlatten(j);
    } else if Unflattened(Object(Flattened(j))) == Ok(j) {
      StoredFirstHasNoEmptyContainer(Flattened(j), |Flattened(j)|);
      NotRestorableIsChanged(j);
    }
  }

  // --- trees that are changed ---

  /** A tree with one leaf comes back as that leaf stored at its path in null. */
  lemma OneLeafIsStored(j: Json, p: seq<string>)
    requires Leaves(j) == {p} && LeafValue(j, p).IsPrimitive()
    ensures Unflattened(Object(Flattened(j))) == Stored(Null, p, LeafValue(j, p))
  {
    hide Leaves, LeafValue, Stored, Parsed, ToString;
    var s, flat := ToString(p), Flattened(j);
    assert PathTexts(j) == {s};
    assert flat.Keys == {s} && |flat| == 1 && flat[s] == LeafValue(j, p);
    assert Ordered(flat.Keys)[0] in flat.Keys;
    ParseAfterPrint(p);
    assert StoredFirst(flat, 0) == Ok(Null);
  }

  /** An empty container comes back as null. */
  lemma EmptyContainerBecomesNull()
    ensures Unflattened(Object(Flattened(Array([])))) == Ok(Null)
    ensures Unflattened(Object(Flattened(Object(map[])))) == Ok(Null)
  {
    OneLeafIsStored(Array([]), []);
    OneLeafIsStored(Object(map[]), []);
  }

  /** {"0":1} comes back as [1]. */
  lemma ZeroKeyBecomesArray()
    ensures Unflattened(Object(Flattened(Object(map["0" := Number(1.0)])))) == Ok(Array([Number(1.0)]))
  {
    var one := Number(1.0);
    var members := map["0" := one];
    var j, p := Object(members), ["0"];
    assert Leaves(one) == {[]} && p == ["0"] + [] && p[1..] == [];
    assert Leaves(j) == {p} by {
      assert "0" in members && [] in Leaves(members["0"]);
      assert p in Leaves(j);
      forall q | q in Leaves(j)
        ensures q == p
      {
        var k, r :| k in members && r in Leaves(members[k]) && q == [k] + r;
      }
    }
    assert LeafValue(j, p) == one;
    OneLeafIsStored(j, p);
    assert Stored(Null, p[1..], one) == Ok(one);
  }

  // --- flat members and stored values in terms of the tree ---

  predicate IsLeaf(j: Json) {
    j.IsPrimitive() || IsEmptyContainer(j)
  }

  /** The leaves are the places of the primitive values and the empty containers. */
  lemma {:induction false} LeafIsPlace(j: Json, p: seq<string>)
    requires InMemory(j)
    ensures p in Leaves(j) <==> At(j, p).Ok? && IsLeaf(At(j, p).value)
    ensures p in Leaves(j) ==> LeafValue(j, p) == LeafText(At(j, p).value)
    decreases |p|
  {
    hide Leaves, LeafValue, NatText, ArrayIndex;
    RootLeaf(j);
    if p == [] {
      NoRest(j);
    } else {
      if p in Leaves(j) {
        var child := ChildOf(j, p);
        ChildIsFound(j, p[0], child);
        LeafIsPlace(child, p[1..]);
        assert p == [p[0]] + p[1..];
        ChildLeaf(j, p[0], child, p[1..]);
      }
      if Child(j, p[0]).Ok? {
        var child := Child(j, p[0]).value;
        FoundIsChild(j, p[0]);
        LeafIsPlace(child, p[1..]);
        if p[1..] in Leaves(child) {
          assert p == [p[0]] + p[1..];
          ChildLeaf(j, p[0], child, p[1..]);
        }
      }
    }
  }

  lemma NoRest(j: Json)
    ensures At(j, []) == Ok(j)
    ensures [] in Leaves(j) ==> LeafValue(j, []) == LeafText(j)
  {
  }

  lemma ChildIsFound(j: Json, token: string, child: Json)
    requires InMemory(j) && IsChild(j, token, child)
    ensures Child(j, token) == Ok(child) && InMemory(child)
  {
    if j.Array? {
      var i :| 0 <= i < |j.elements| && token == NatText(i) && child == j.elements[i];
      IndexChild(j.elements, i);
    }
  }

  lemma FoundIsChild(j: Json, token: string)
    requires InMemory(j) && Child(j, token).Ok?
    ensures IsChild(j, token, Child(j, token).value) && InMemory(Child(j, token).value)
  {
    if j.Array? {
      ChildIsIndex(j.elements, token);
    }
  }

  /** flatten() writes a member for each of these places, and no other: the value there, or null for a container. */
  lemma FlatMembers(j: Json, p: seq<string>)
    requires InMemory(j)
    ensures ToString(p) in Flattened(j) <==> At(j, p).Ok? && IsLeaf(At(j, p).value)
    ensures ToString(p) in Flattened(j) ==>
              Flattened(j)[ToString(p)] == if IsEmptyContainer(At(j, p).value) then Null else At(j, p).value
  {
    hide Leaves, LeafValue, ToString, At;
    LeafIsPlace(j, p);
    if ToString(p) in Flattened(j) {
      var q := LeafOf(j, ToString(p));
      ToStringIsInjective(p, q);
    }
  }

  lemma StoredChild(j: Json, tokens: seq<string>, v: Json)
    requires tokens != [] && Stored(j, tokens, v).Ok?
    ensures Child(Stored(j, tokens, v).value, tokens[0]).Ok?
    ensures var start := if Child(j, tokens[0]).Ok? then Child(j, tokens[0]).value else Null;
            Stored(start, tokens[1..], v) == Ok(Child(Stored(j, tokens, v).value, tokens[0]).value)
  {
    IndexOfText(0, 0);
    DashIsNoIndex();
    hide NatText, ArrayIndex;
    assert "0" == NatText(0);
  }

  /** What is stored at a path is found there. */
  lemma {:induction false} StoredIsFound(j: Json, tokens: seq<string>, v: Json)
    requires Stored(j, tokens, v).Ok?
    ensures At(Stored(j, tokens, v).value, tokens) == Ok(v)
    decreases |tokens|
  {
    hide Stored, Child;
    if tokens == [] {
      WholeStored(j, v);
    } else {
      StoredChild(j, tokens, v);
      StoredIsFound(if Child(j, tokens[0]).Ok? then Child(j, tokens[0]).value else Null, tokens[1..], v);
    }
  }

  lemma WholeStored(j: Json, v: Json)
    ensures Stored(j, [], v) == Ok(v)
  {
  }

  /** Why storing fails at the n-th token: the value there can have no members, or the token is no index of an array. */
  ghost predicate FailsAt(j: Json, tokens: seq<string>, n: nat, id: nat)
    requires n < |tokens|
  {
    && At(j, tokens[..n]).Ok?
    && var parent := At(j, tokens[..n]).value;
       (parent.IsPrimitive() && !parent.Null? && id == 313)
       || (parent.Array? && ArrayIndex(tokens[n]) == Err(id))
  }

  /** Storing fails exactly at such a token, with its exception. */
  lemma {:induction false} StoringFailsIff(j: Json, tokens: seq<string>, v: Json, id: nat)
    ensures Stored(j, tokens, v) == Err(id) <==> exists n :: 0 <= n < |tokens| && FailsAt(j, tokens, n, id)
    decreases |tokens|
  {
    hide ArrayIndex;
    if tokens != [] {
      var token, below := tokens[0], tokens[1..];
      DashIsNoIndex();
      assert tokens[..0] == [];
      var start := if Child(j, token).Ok? then Child(j, token).value else Null;
      StoringFailsIff(start, below, v, id);
      NullNeverFails(below, v);
      forall n | 0 <= n < |below| && Child(j, token).Ok?
        ensures FailsAt(j, tokens, n + 1, id) <==> FailsAt(start, below, n, id)
      {
        assert tokens[..n + 1][1..] == below[..n] && tokens[..n + 1][0] == token;
      }
      forall n | 0 < n < |tokens| && Child(j, token).Err?
        ensures !FailsAt(j, tokens, n, id)
      {
        assert tokens[..n][0] == token;
      }
      StoringStep(j, tokens, v, id);
      if n :| 0 <= n < |below| && FailsAt(start, below, n, id) && Child(j, token).Ok? {
        assert FailsAt(j, tokens, n + 1, id);
      }
      if n :| 0 <= n < |tokens| && FailsAt(j, tokens, n, id) {
        if 0 < n {
          assert FailsAt(start, below, n - 1, id);
        }
      }
    }
  }

  lemma {:induction false} NullNeverFails(tokens: seq<string>, v: Json)
    ensures Stored(Null, tokens, v).Ok?
    decreases |tokens|
  {
    if tokens != [] {
      NullNeverFails(tokens[1..], v);
    }
  }

  lemma StoringStep(j: Json, tokens: seq<string>, v: Json, id: nat)
    requires tokens != []
    ensures var start := if Child(j, tokens[0]).Ok? then Child(j, tokens[0]).value else Null;
            Stored(j, tokens, v) == Err(id) <==>
              (FailsAt(j, tokens, 0, id)
               || (!(j.IsPrimitive() && !j.Null?) && !(j.Array? && ArrayIndex(tokens[0]).Err?)
                   && Stored(start, tokens[1..], v) == Err(id)))
  {
    hide ArrayIndex;
    DashIsNoIndex();
    assert tokens[..0] == [];
  }

  // --- the programs ---

  ghost function Texts(ref: string, paths: set<seq<string>>): set<string> {
    set p | p in paths :: ref + ToString(p)
  }

  ghost function PathOfText(ref: string, paths: set<seq<string>>, s: string): (p: seq<string>)
    requires s in Texts(ref, paths)
    ensures p in paths && s == ref + ToString(p)
  {
    var p :| p in paths && s == ref + ToString(p); p
  }

  /** Some leaves of a tree, written behind a reference string. */
  ghost function Written(ref: string, j: Json, paths: set<seq<string>>): map<string, Json>
    requires paths <= Leaves(j)
  {
    map s | s in Texts(ref, paths) :: LeafValue(j, PathOfText(ref, paths, s))
  }

  lemma WrittenAt(ref: string, j: Json, paths: set<seq<string>>, p: seq<string>)
    requires paths <= Leaves(j) && p in paths
    ensures ref + ToString(p) in Written(ref, j, paths) && Written(ref, j, paths)[ref + ToString(p)] == LeafValue(j, p)
  {
    hide Leaves, LeafValue, ToString;
    var s := ref + ToString(p);
    assert s in Texts(ref, paths);
    var q := PathOfText(ref, paths, s);
    assert (ref + ToString(p))[|ref|..] == ToString(p) && (ref + ToString(q))[|ref|..] == ToString(q);
    ToStringIsInjective(p, q);
  }

  /** The leaves that go through some children. */
  ghost function Through(j: Json, tokens: set<string>): (paths: set<seq<string>>)
    ensures paths <= Leaves(j)
  {
    set p | p in Leaves(j) && p != [] && p[0] in tokens
  }

  lemma ChildText(ref: string, token: string, r: seq<string>)
    ensures ref + ToString([token] + r) == (ref + "/" + Escaped(token)) + ToString(r)
  {
    hide ToString, Escaped;
    ToStringCons(token, r);
  }

  /** The text of a leaf that goes through some children or one more. */
  lemma OneText(ref: string, j: Json, tokens: set<string>, token: string, child: Json, p: seq<string>)
    requires IsChild(j, token, child) && token !in tokens && p in Through(j, tokens + {token})
    ensures var union := Written(ref, j, Through(j, tokens)) + Written(ref + "/" + Escaped(token), child, Leaves(child));
            ref + ToString(p) in union && union[ref + ToString(p)] == LeafValue(j, p)
  {
    hide Leaves, LeafValue, ToString, Escaped, Written;
    var childRef := ref + "/" + Escaped(token);
    var s := ref + ToString(p);
    var r := p[1..];
    assert p == [p[0]] + r;
    if p[0] == token {
      BelowLeaves(j, token, child);
      assert r in Below(Leaves(j), token);
      ChildText(ref, token, r);
      ChildLeaf(j, token, child, r);
      WrittenAt(childRef, child, Leaves(child), r);
    } else {
      WrittenAt(ref, j, Through(j, tokens), p);
      NotAChildText(ref, token, child, p);
    }
  }

  lemma NotAChildText(ref: string, token: string, child: Json, p: seq<string>)
    requires p != [] && p[0] != token
    ensures ref + ToString(p) !in Written(ref + "/" + Escaped(token), child, Leaves(child))
  {
    hide Leaves, LeafValue, ToString, Escaped;
    var childRef := ref + "/" + Escaped(token);
    forall r | r in Leaves(child)
      ensures childRef + ToString(r) != ref + ToString(p)
    {
      ChildText(ref, token, r);
      assert ([token] + r)[0] == token;
      if ref + ToString([token] + r) == ref + ToString(p) {
        SameText(ref, p, [token] + r);
      }
    }
  }

  lemma TextOfUnion(ref: string, j: Json, tokens: set<string>, token: string, child: Json, s: string)
    requires IsChild(j, token, child)
    requires s in Written(ref, j, Through(j, tokens)) || s in Written(ref + "/" + Escaped(token), child, Leaves(child))
    ensures s in Written(ref, j, Through(j, tokens + {token}))
  {
    hide Leaves, LeafValue, ToString, Escaped;
    var childRef := ref + "/" + Escaped(token);
    if s in Texts(ref, Through(j, tokens)) {
      WrittenAt(ref, j, Through(j, tokens + {token}), PathOfText(ref, Through(j, tokens), s));
    } else {
      var r := PathOfText(childRef, Leaves(child), s);
      ChildLeaf(j, token, child, r);
      ChildText(ref, token, r);
      assert ([token] + r)[0] == token;
      WrittenAt(ref, j, Through(j, tokens + {token}), [token] + r);
    }
  }

  /** The leaves of one more child. */
  lemma WriteChild(ref: string, j: Json, tokens: set<string>, token: string, child: Json)
    requires IsChild(j, token, child) && token !in tokens
    ensures Written(ref, j, Through(j, tokens + {token})) ==
            Written(ref, j, Through(j, tokens)) + Written(ref + "/" + Escaped(token), child, Leaves(child))
  {
    hide Leaves, LeafValue, ToString, Escaped, Through;
    var more := Through(j, tokens + {token});
    var union := Written(ref, j, Through(j, tokens)) + Written(ref + "/" + Escaped(token), child, Leaves(child));
    forall s | s in Written(ref, j, more)
      ensures s in union && union[s] == Written(ref, j, more)[s]
    {
      var p := PathOfText(ref, more, s);
      WrittenAt(ref, j, more, p);
      OneText(ref, j, tokens, token, child, p);
    }
    forall s | s in union
      ensures s in Written(ref, j, more)
    {
      TextOfUnion(ref, j, tokens, token, child, s);
    }
  }

  lemma SameText(ref: string, p: seq<string>, q: seq<string>)
    requires ref + ToString(p) == ref + ToString(q)
    ensures p == q
  {
    hide ToString;
    assert (ref + ToString(p))[|ref|..] == ToString(p) && (ref + ToString(q))[|ref|..] == ToString(q);
    ToStringIsInjective(p, q);
  }

  lemma WrittenIsFlattened(j: Json)
    ensures Written("", j, Leaves(j)) == Flattened(j)
  {
    hide Leaves, LeafValue, ToString;
    assert forall p: seq<string> :: "" + ToString(p) == ToString(p);
    forall s | s in PathTexts(j)
      ensures s in Written("", j, Leaves(j)) && Written("", j, Leaves(j))[s] == Flattened(j)[s]
    {
      WrittenAt("", j, Leaves(j), LeafOf(j, s));
    }
    assert Texts("", Leaves(j)) == PathTexts(j);
  }

  lemma WrittenRoot(ref: string, j: Json)
    requires [] in Leaves(j)
    ensures Written(ref, j, Leaves(j)) == map[ref := LeafText(j)]
  {
    RootLeaf(j);
    assert ref + ToString([]) == ref;
    WrittenAt(ref, j, Leaves(j), []);
    hide Leaves;
    assert Texts(ref, {[]}) == {ref};
  }

  ghost function IndexTokens(n: nat): set<string> {
    set k | 0 <= k < n :: NatText(k)
  }

  lemma NewIndex(n: nat)
    ensures NatText(n) !in IndexTokens(n) && IndexTokens(n + 1) == IndexTokens(n) + {NatText(n)}
  {
    hide NatText;
    forall k: nat | k < n
      ensures NatText(k) != NatText(n)
    {
      IndexOfText(n, k);
    }
  }

  lemma ThroughNothing(ref: string, j: Json)
    ensures Written(ref, j, Through(j, {})) == map[]
  {
    hide Leaves;
    assert Through(j, {}) == {};
    assert Texts(ref, {}) == {};
  }

  lemma ThroughEverything(j: Json, tokens: set<string>)
    requires [] !in Leaves(j) && forall p :: p in Leaves(j) && p != [] ==> p[0] in tokens
    ensures Through(j, tokens) == Leaves(j)
  {
    hide Leaves;
  }

  lemma LeafTokens(j: Json, p: seq<string>)
    requires p in Leaves(j) && p != []
    ensures j.Array? ==> p[0] in IndexTokens(|j.elements|)
    ensures j.Object? ==> p[0] in j.members
  {
    var child := ChildOf(j, p);
  }

  /** The object that is filled with paths and values. */
  class FlatObject {
    var result: map<string, Json>

    constructor ()
      ensures result == map[]
    {
      result := map[];
    }

    method Flatten(ref: string, value: Json)
      modifies this
      ensures result == old(result) + Written(ref, value, Leaves(value))
      decreases value, 1
    {
      hide Leaves, LeafValue, Written;
      RootLeaf(value);
      if value.Array? && value.elements != [] {
        FlattenArray(ref, value);
      } else if value.Object? && value.members != map[] {
        FlattenObject(ref, value);
      } else {
        WrittenRoot(ref, value);
        result := result[ref := if value.IsPrimitive() then value else Null];
      }
    }

    method FlattenArray(ref: string, value: Json)
      requires value.Array? && value.elements != []
      modifies this
      ensures result == old(result) + Written(ref, value, Leaves(value))
      decreases value, 0
    {
      hide Leaves, LeafValue, Written, Through, ToString, Escaped, NatText, IndexTokens;
      ThroughNothing(ref, value);
      assert IndexTokens(0) == {} by {
        NoIndexTokens();
      }
      for i := 0 to |value.elements|
        invariant result == old(result) + Written(ref, value, Through(value, IndexTokens(i)))
      {
        NewIndex(i);
        DigitsOfIndex(i);
        WriteChild(ref, value, IndexTokens(i), NatText(i), value.elements[i]);
        Flatten(ref + "/" + NatText(i), value.elements[i]);
      }
      RootLeaf(value);
      forall p | p in Leaves(value) && p != []
        ensures p[0] in IndexTokens(|value.elements|)
      {
        LeafTokens(value, p);
      }
      ThroughEverything(value, IndexTokens(|value.elements|));
    }

    method FlattenObject(ref: string, value: Json)
      requires value.Object? && value.members != map[]
      modifies this
      ensures result == old(result) + Written(ref, value, Leaves(value))
      decreases value, 0
    {
      hide Leaves, LeafValue, Written, Through, ToString, Escaped, Ordered;
      ThroughNothing(ref, value);
      var keys := Ordered(value.members.Keys);
      ghost var done: set<string> := {};
      for i := 0 to |keys|
        invariant done == KeySet(keys[..i]) <= value.members.Keys
        invariant result == old(result) + Written(ref, value, Through(value, done))
      {
        var key := keys[i];
        NotYetDone(keys, i);
        assert key in value.members.Keys;
        WriteChild(ref, value, done, key, value.members[key]);
        Flatten(ref + "/" + Escaped(key), value.members[key]);
        done := done + {key};
      }
      RootLeaf(value);
      forall p | p in Leaves(value) && p != []
        ensures p[0] in done
      {
        LeafTokens(value, p);
        assert p[0] in value.members.Keys;
        assert keys[..|keys|] == keys;
      }
      ThroughEverything(value, done);
    }
  }

  lemma NoIndexTokens()
    ensures IndexTokens(0) == {}
  {
  }

  lemma DigitsOfIndex(i: nat)
    ensures Escaped(NatText(i)) == NatText(i)
  {
    DigitsNeedNoEscape(NatText(i));
  }

  /** flatten() */
  method Flatten(j: Json) returns (flat: Json)
    ensures flat == Object(Flattened(j))
  {
    var target := new FlatObject();
    target.Flatten("", j);
    WrittenIsFlattened(j);
    flat := Object(target.result);
  }

  // --- unflatten ---

  /** The value once it has a child to go on with. */
  function Created(j: Json, token: string): Result<Json> {
    match j
    case Null => Ok(if token == "0" then Array([Null]) else Object(map[token := Null]))
    case Object(members) => Ok(Object(members[token := Lookup(members, token)]))
    case Array(elements) => var i :- ArrayIndex(token); Ok(Array(FilledUpTo(elements, i)))
    case _ => Err(313)
  }

  lemma StoredViaCreated(j: Json, tokens: seq<string>, v: Json)
    requires tokens != []
    ensures var created := Created(j, tokens[0]);
            if created.Err? then Stored(j, tokens, v) == Err(created.id)
            else
              && Child(created.value, tokens[0]).Ok?
              && var child := Stored(Child(created.value, tokens[0]).value, tokens[1..], v);
                 Stored(j, tokens, v) ==
                   if child.Err? then child else Ok(WithChild(created.value, tokens[0], child.value))
  {
    IndexOfText(0, 0);
    DashIsNoIndex();
    var token := tokens[0];
    var created := Created(j, token);
    if created.Ok? && Stored(Child(created.value, token).value, tokens[1..], v).Ok? {
      var x := Stored(Child(created.value, token).value, tokens[1..], v).value;
      if j.Null? {
        assert [Null][0 := x] == [x] && map[token := Null][token := x] == map[token := x];
      } else if j.Object? {
        assert j.members[token := Lookup(j.members, token)][token := x] == j.members[token := x];
      }
    }
  }

  /** Storing the rest of a path at the place the first n tokens lead to. */
  function StoredAt(root: Json, tokens: seq<string>, n: nat, v: Json): Result<Json>
    requires n <= |tokens| && At(root, tokens[..n]).Ok?
  {
    var rest := Stored(At(root, tokens[..n]).value, tokens[n..], v);
    if rest.Err? then rest else Ok(Replaced(root, tokens[..n], rest.value))
  }

  lemma StoredAtEnds(root: Json, tokens: seq<string>, v: Json)
    ensures tokens[..0] == [] && At(root, []) == Ok(root) && StoredAt(root, tokens, 0, v) == Stored(root, tokens, v)
    ensures tokens[..|tokens|] == tokens
    ensures At(root, tokens).Ok? ==> StoredAt(root, tokens, |tokens|, v) == Ok(Replaced(root, tokens, v))
  {
    assert tokens[0..] == tokens && tokens[..|tokens|] == tokens && tokens[|tokens|..] == [];
  }

  lemma StoredNext(root: Json, tokens: seq<string>, n: nat, v: Json)
    requires n < |tokens| && At(root, tokens[..n]).Ok?
    ensures var created := Created(At(root, tokens[..n]).value, tokens[n]);
            if created.Err? then StoredAt(root, tokens, n, v) == Err(created.id)
            else
              && var next := Replaced(root, tokens[..n], created.value);
              && At(next, tokens[..n + 1]).Ok?
              && StoredAt(next, tokens, n + 1, v) == StoredAt(root, tokens, n, v)
  {
    hide Stored, At, Replaced, Child, WithChild, Created;
    var front, token := tokens[..n], tokens[n];
    var current := At(root, front).value;
    assert tokens[n..][0] == token && tokens[n..][1..] == tokens[n + 1..];
    StoredViaCreated(current, tokens[n..], v);
    var created := Created(current, token);
    if created.Ok? {
      var next := Replaced(root, front, created.value);
      AtReplaced(root, front, created.value);
      AtChild(next, front, token);
      assert tokens[..n + 1] == front + [token];
      var child := Stored(Child(created.value, token).value, tokens[n + 1..], v);
      if child.Ok? {
        WithChildInside(next, front, token, child.value);
        ReplacedTwice(root, front, created.value, WithChild(created.value, token, child.value));
      }
    }
  }

  lemma WithChildInside(root: Json, front: seq<string>, token: string, v: Json)
    requires At(root, front).Ok? && Child(At(root, front).value, token).Ok?
    ensures At(root, front + [token]).Ok?
    ensures Replaced(root, front + [token], v) == Replaced(root, front, WithChild(At(root, front).value, token, v))
  {
    OneStep(At(root, front).value, token);
    ReplacedAppend(root, front, [token], v);
    assert [token][1..] == [];
  }

  /** The value that is built. */
  class Tree {
    var result: Json

    constructor ()
      ensures result == Null
    {
      result := Null;
    }

    /** get_and_create() one token at a time, then the assignment. */
    method Store(tokens: seq<string>, v: Json) returns (r: Result<()>)
      modifies this
      ensures r.Ok? ==> Stored(old(result), tokens, v) == Ok(result)
      ensures r.Err? ==> Stored(old(result), tokens, v) == Err(r.id)
    {
      hide Stored, At, Replaced, ArrayIndex, StoredAt, Created;
      StoredAtEnds(result, tokens, v);
      for n := 0 to |tokens|
        invariant At(result, tokens[..n]).Ok?
        invariant Stored(old(result), tokens, v) == StoredAt(result, tokens, n, v)
      {
        var current := GetChecked(result, tokens[..n]);
        var created := Created(current.value, tokens[n]);
        StoredNext(result, tokens, n, v);
        if created.Err? {
          return Err(created.id);
        }
        result := Replaced(result, tokens[..n], created.value);
      }
      StoredAtEnds(result, tokens, v);
      assert tokens[..|tokens|] == tokens;
      result := Replaced(result, tokens, v);
      r := Ok(());
    }
  }

  lemma NoneStoredYet(flat: map<string, Json>)
    ensures StoredFirst(flat, 0) == Ok(Null)
  {
  }

  /** unflatten() */
  method Unflatten(flat: Json) returns (r: Result<Json>)
    ensures r == Unflattened(flat)
  {
    hide Ordered, Stored, StoredFirst;
    if !flat.Object? {
      return Err(314);
    }
    var keys := Ordered(flat.members.Keys);
    var tree := new Tree();
    NoneStoredYet(flat.members);
    for n := 0 to |keys|
      invariant StoredFirst(flat.members, n) == Ok(tree.result)
    {
      StoredFirstFails(flat.members, n + 1, |keys|);
      var stored := StoreNext(tree, flat.members, n, keys[n]);
      if stored.Err? {
        return Err(stored.id);
      }
    }
    r := Ok(tree.result);
  }

  method StoreNext(tree: Tree, flat: map<string, Json>, ghost n: nat, key: string) returns (r: Result<()>)
    requires n < |flat| && key == Ordered(flat.Keys)[n] && StoredFirst(flat, n) == Ok(tree.result)
    modifies tree
    ensures r.Ok? ==> StoredFirst(flat, n + 1) == Ok(tree.result)
    ensures r.Err? ==> StoredFirst(flat, n + 1) == Err(r.id)
  {
    hide Ordered, Stored;
    assert key in flat.Keys;
    if !flat[key].IsPrimitive() {
      return Err(315);
    }
    var tokens := Split(key);
    if tokens.Err? {
      return Err(tokens.id);
    }
    r := tree.Store(tokens.value, flat[key]);
  }

  /** The first exception is the one that is seen. */
  lemma {:induction false} StoredFirstFails(flat: map<string, Json>, n: nat, m: nat)
    requires n <= m <= |flat|
    ensures StoredFirst(flat, n).Err? ==> StoredFirst(flat, m) == StoredFirst(flat, n)
    decreases m
  {
    hide Ordered, Stored, Parsed;
    if n < m {
      StoredFirstFails(flat, n, m - 1);
    }
  }

  /** unflatten() wants an object whose members are all primitive and have pointers as keys. */
  lemma UnflattenNeedsPrimitives(flat: Json)
    ensures !flat.Object? ==> Unflattened(flat) == Err(314)
    ensures forall key :: flat.Object? && key in flat.members && !flat.members[key].IsPrimitive() ==> Unflattened(flat).Err?
    ensures forall key :: flat.Object? && key in flat.members && Parsed(key).Err? ==> Unflattened(flat).Err?
  {
    hide Parsed, Stored, Ordered, StoredFirst;
    if flat.Object? {
      var keys := Ordered(flat.members.Keys);
      forall key | key in flat.members && (!flat.members[key].IsPrimitive() || Parsed(key).Err?)
        ensures Unflattened(flat).Err?
      {
        assert key in flat.members.Keys;
        var n :| 0 <= n < |keys| && keys[n] == key;
        NextFails(flat.members, n);
        StoredFirstFails(flat.members, n + 1, |keys|);
      }
    }
  }

  lemma NextFails(flat: map<string, Json>, n: nat)
    requires n < |flat| && Ordered(flat.Keys)[n] in flat
    requires var key := Ordered(flat.Keys)[n]; !flat[key].IsPrimitive() || Parsed(key).Err?
    ensures StoredFirst(flat, n + 1).Err?
    ensures StoredFirst(flat, n).Ok? && !flat[Ordered(flat.Keys)[n]].IsPrimitive() ==> StoredFirst(flat, n + 1) == Err(315)
  {
    hide Parsed, Stored, Ordered;
  }
}
