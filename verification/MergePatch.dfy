/** JSON Merge Patch (RFC 7396) applied in place. */
module MergePatching {
  import opened JsonValues
  import opened JsonPointers

  function MembersOf(j: Json): map<string, Json> {
    if j.Object? then j.members else map[]
  }

  /** MergePatch(target, patch) of section 2 of RFC 7396. */
  function Merged(target: Json, patch: Json): Json
    decreases patch, 1
  {
    if patch.Object? then Object(MergedMembers(MembersOf(target), patch, patch.members.Keys)) else patch
  }

  /** The members once some keys of the patch are dealt with: null removes, anything else is merged. */
  function MergedMembers(target: map<string, Json>, patch: Json, settled: set<string>): map<string, Json>
    requires patch.Object? && settled <= patch.members.Keys
    decreases patch, 0
  {
    map k | k in target.Keys + settled && (k in settled ==> !patch.members[k].Null?) ::
      if k in settled then Merged(Lookup(target, k), patch.members[k]) else target[k]
  }

  /** What one key of the patch does. */
  function MergeKey(members: map<string, Json>, patch: Json, key: string): map<string, Json>
    requires patch.Object? && key in patch.members
  {
    if patch.members[key].Null? then members - {key}
    else members[key := Merged(Lookup(members, key), patch.members[key])]
  }

  lemma SettleOneMore(target: map<string, Json>, patch: Json, settled: set<string>, key: string)
    requires patch.Object? && settled <= patch.members.Keys && key in patch.members && key !in settled
    ensures MergedMembers(target, patch, settled + {key}) == MergeKey(MergedMembers(target, patch, settled), patch, key)
  {
    hide Merged;
    var before := MergedMembers(target, patch, settled);
    assert Lookup(before, key) == Lookup(target, key);
  }

  // --- laws ---

  /** The keys of a patch handled one after the other. */
  function MergeInOrder(members: map<string, Json>, patch: Json, keys: seq<string>): map<string, Json>
    requires patch.Object? && forall k :: k in keys ==> k in patch.members
    decreases |keys|
  {
    if keys == [] then members
    else MergeKey(MergeInOrder(members, patch, keys[..|keys| - 1]), patch, keys[|keys| - 1])
  }

  predicate Distinct(keys: seq<string>) {
    forall i, j :: 0 <= i < j < |keys| ==> keys[i] != keys[j]
  }

  /** The order of the members of a patch does not matter. */
  lemma {:induction false} AnyOrderMerges(members: map<string, Json>, patch: Json, keys: seq<string>)
    requires patch.Object? && Distinct(keys) && forall k :: k in keys ==> k in patch.members
    ensures MergeInOrder(members, patch, keys) == MergedMembers(members, patch, KeySet(keys))
    decreases |keys|
  {
    hide Merged, MergeKey;
    if keys == [] {
      assert MergedMembers(members, patch, {}) == members;
    } else {
      var front, last := keys[..|keys| - 1], keys[|keys| - 1];
      AnyOrderMerges(members, patch, front);
      var settled := KeySet(front);
      assert last !in settled;
      SettleOneMore(members, patch, settled, last);
      assert keys == front + [last];
      assert KeySet(keys) == settled + {last};
    }
  }

  /** Applying the same patch twice is the same as applying it once. */
  lemma {:induction false} MergeIsIdempotent(target: Json, patch: Json)
    ensures Merged(Merged(target, patch), patch) == Merged(target, patch)
    decreases patch
  {
    if patch.Object? {
      var t, p := MembersOf(target), patch.members;
      var once := MergedMembers(t, patch, p.Keys);
      var twice := MergedMembers(once, patch, p.Keys);
      forall k | k in p && !p[k].Null?
        ensures k in twice && twice[k] == once[k]
      {
        MergeIsIdempotent(Lookup(t, k), p[k]);
      }
      assert twice.Keys == once.Keys;
      assert twice == once;
    }
  }

  /** Members the patch does not name stay, members it names with null go. */
  lemma UnnamedMembersStay(target: Json, patch: Json, key: string)
    requires patch.Object?
    ensures var r := Merged(target, patch);
            && r.Object?
            && (key !in patch.members ==> (key in r.members <==> key in MembersOf(target)))
            && (key !in patch.members && key in r.members ==> r.members[key] == MembersOf(target)[key])
            && (key in patch.members ==> (key in r.members <==> !patch.members[key].Null?))
  {
  }

  // --- the values of the members ---

  /** The value at the end of a path of keys that goes through objects only. */
  function Follow(j: Json, keys: seq<string>): Result<Json>
    decreases |keys|
  {
    if keys == [] then Ok(j)
    else if j.Object? && keys[0] in j.members then Follow(j.members[keys[0]], keys[1..])
    else Err(403)
  }

  lemma {:induction false} FollowIsAt(j: Json, keys: seq<string>)
    requires Follow(j, keys).Ok?
    ensures At(j, keys) == Follow(j, keys)
    decreases |keys|
  {
    if keys != [] {
      FollowIsAt(j.members[keys[0]], keys[1..]);
    }
  }

  /**
   * What the result holds at any path of keys: where the patch has a value that is no object, that value, or nothing if
   * it is null; where it has an object, an object; and where it leaves off, what the target has there.
   */
  lemma {:induction false} MergedAt(target: Json, patch: Json, keys: seq<string>)
    ensures var named, merged := Follow(patch, keys), Follow(Merged(target, patch), keys);
            && (named.Ok? && !named.value.Object? && (keys == [] || !named.value.Null?) ==> merged == named)
            && (named.Ok? && named.value.Null? && keys != [] ==> merged.Err?)
            && (named.Ok? && named.value.Object? ==> merged.Ok? && merged.value.Object?)
    ensures keys != [] && Follow(patch, keys).Err? && Follow(patch, keys[..|keys| - 1]).Ok?
            && Follow(patch, keys[..|keys| - 1]).value.Object? ==>
              Follow(Merged(target, patch), keys) == Follow(target, keys)
    decreases |keys|
  {
    if keys != [] && patch.Object? {
      var key, below := keys[0], keys[1..];
      if key in patch.members {
        var inner := patch.members[key];
        MergedAt(Lookup(MembersOf(target), key), inner, below);
        if below != [] {
          assert keys[..|keys| - 1][1..] == below[..|below| - 1];
        }
      } else if below != [] {
        assert keys[..|keys| - 1][0] == key;
      }
    }
  }

  /** A patch that is no object is the result, and every value it sets is found at its path. */
  lemma ValuesAreSet(target: Json, patch: Json, keys: seq<string>)
    ensures !patch.Object? ==> Merged(target, patch) == patch
    ensures Follow(patch, keys).Ok? && !Follow(patch, keys).value.Null? && !Follow(patch, keys).value.Object? ==>
              At(Merged(target, patch), keys) == Follow(patch, keys)
  {
    hide Merged, Follow, At;
    MergedAt(target, patch, keys);
    MergedAt(target, patch, []);
    WholeValue(target, patch);
    if Follow(Merged(target, patch), keys).Ok? {
      FollowIsAt(Merged(target, patch), keys);
    }
  }

  lemma WholeValue(target: Json, patch: Json)
    ensures Follow(patch, []) == Ok(patch) && Follow(Merged(target, patch), []) == Ok(Merged(target, patch))
  {
  }

  // --- the program ---

  /** A tree; a reference into it is the path of keys that leads to the place. */
  class Document {
    var root: Json

    constructor (j: Json)
      ensures root == j
    {
      root := j;
    }

    /** Assigns to the value at a reference. */
    method Overwrite(at: seq<string>, v: Json)
      requires At(root, at).Ok?
      modifies this
      ensures root == Replaced(old(root), at, v) && At(root, at) == Ok(v)
    {
      AtReplaced(root, at, v);
      root := Replaced(root, at, v);
    }

    /** erase(key), or operator[](key) and merge_patch on the member. */
    method MergeMember(at: seq<string>, patch: Json, key: string)
      requires patch.Object? && key in patch.members && At(root, at).Ok? && At(root, at).value.Object?
      modifies this
      ensures var after := Object(MergeKey(At(old(root), at).value.members, patch, key));
              root == Replaced(old(root), at, after) && At(root, at) == Ok(after)
      decreases patch, 0
    {
      hide At, Replaced, Merged;
      var found := GetChecked(root, at);
      var members := found.value.members;
      if patch.members[key].Null? {
        Overwrite(at, Object(members - {key}));
      } else {
        ghost var start := root;
        var created := members[key := Lookup(members, key)];
        Overwrite(at, Object(created));
        ghost var before := root;
        AtChild(root, at, key);
        MergePatch(at + [key], patch.members[key]);
        ghost var merged := Merged(Lookup(members, key), patch.members[key]);
        ReplacedChild(before, at, key, merged);
        ReplacedTwice(start, at, Object(created), Object(created[key := merged]));
        assert created[key := merged] == members[key := merged];
        AtReplaced(start, at, Object(members[key := merged]));
      }
    }

    /** merge_patch() called on the value at a reference. */
    method MergePatch(at: seq<string>, patch: Json)
      requires At(root, at).Ok?
      modifies this
      ensures root == Replaced(old(root), at, Merged(At(old(root), at).value, patch))
      decreases patch, 1
    {
      hide At, Replaced, MergedMembers, MergeKey, Ordered;
      ghost var start, target := root, At(root, at).value;
      if patch.Object? {
        var found := GetChecked(root, at);
        if !found.value.Object? {
          Overwrite(at, Object(map[]));
        } else {
          ReplacedBySame(root, at);
        }
        var keys := Ordered(patch.members.Keys);
        ghost var settled: set<string> := {};
        NothingMerged(MembersOf(target), patch);
        for i := 0 to |keys|
          invariant settled == KeySet(keys[..i]) <= patch.members.Keys
          invariant At(root, at) == Ok(Object(MergedMembers(MembersOf(target), patch, settled)))
          invariant root == Replaced(start, at, At(root, at).value)
        {
          var key := keys[i];
          NotYetDone(keys, i);
          assert key in patch.members.Keys;
          SettleOneMore(MembersOf(target), patch, settled, key);
          ghost var before := At(root, at).value;
          MergeMember(at, patch, key);
          ReplacedTwice(start, at, before, At(root, at).value);
          settled := settled + {key};
        }
        assert settled == patch.members.Keys;
      } else {
        Overwrite(at, patch);
      }
    }
  }

  lemma NothingMerged(target: map<string, Json>, patch: Json)
    requires patch.Object?
    ensures MergedMembers(target, patch, {}) == target
  {
  }

  /** Overwriting a member is overwriting its object. */
  lemma ReplacedChild(root: Json, at: seq<string>, key: string, v: Json)
    requires At(root, at).Ok? && At(root, at).value.Object? && key in At(root, at).value.members
    ensures At(root, at + [key]).Ok?
    ensures Replaced(root, at + [key], v) == Replaced(root, at, Object(At(root, at).value.members[key := v]))
  {
    OneStep(At(root, at).value, key);
    ReplacedAppend(root, at, [key], v);
    assert [key][1..] == [];
  }
}
