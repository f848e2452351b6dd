/** JSON values, the errors of the library, and the order in which the members of an object are visited. */
module JsonValues {

  /** One exact number type stands for the three of the library; NaN, binary and discarded values are left out. */
  datatype Json =
    | Null
    | Boolean(b: bool)
    | Number(n: real)
    | String(s: string)
    | Array(elements: seq<Json>)
    | Object(members: map<string, Json>)
  {
    predicate IsPrimitive() {
      !Array? && !Object?
    }
  }

  /** A value, or the id of the exception thrown instead. */
  datatype Result<+T> = Ok(value: T) | Err(id: nat)
  {
    predicate IsFailure() {
      Err?
    }

    function PropagateFailure<U>(): Result<U>
      requires Err?
    {
      Err(id)
    }

    function Extract(): T
      requires Ok?
    {
      value
    }
  }

  /** The order of std::less on the keys. */
  predicate Less(a: string, b: string)
    decreases |a|
  {
    && b != []
    && (a == [] || a[0] < b[0] || (a[0] == b[0] && Less(a[1..], b[1..])))
  }

  lemma {:induction false} LessIsIrreflexive(a: string)
    ensures !Less(a, a)
    decreases |a|
  {
    if a != [] {
      LessIsIrreflexive(a[1..]);
    }
  }

  lemma {:induction false} LessIsTransitive(a: string, b: string, c: string)
    requires Less(a, b) && Less(b, c)
    ensures Less(a, c)
    decreases |a|
  {
    if a != [] && a[0] == b[0] == c[0] {
      LessIsTransitive(a[1..], b[1..], c[1..]);
    }
  }

  lemma {:induction false} LessIsTotal(a: string, b: string)
    ensures Less(a, b) || a == b || Less(b, a)
    decreases |a|
  {
    if a != [] && b != [] && a[0] == b[0] {
      LessIsTotal(a[1..], b[1..]);
      assert a == [a[0]] + a[1..] && b == [b[0]] + b[1..];
    }
  }

  predicate Ascending(s: seq<string>) {
    forall i, j :: 0 <= i < j < |s| ==> Less(s[i], s[j])
  }

  predicate IsLeast(k: string, keys: set<string>) {
    k in keys && forall other :: other in keys && other != k ==> Less(k, other)
  }

  lemma {:induction false} LeastExists(keys: set<string>) returns (least: string)
    requires keys != {}
    ensures IsLeast(least, keys)
    decreases |keys|
  {
    var k :| k in keys;
    if keys == {k} {
      return k;
    }
    var rest := keys - {k};
    assert keys == rest + {k};
    least := LeastExists(rest);
    LessIsTotal(k, least);
    if Less(k, least) {
      forall other | other in keys && other != k
        ensures Less(k, other)
      {
        if other != least {
          LessIsTransitive(k, least, other);
        }
      }
      least := k;
    }
  }

  lemma LeastIsUnique(keys: set<string>, a: string, b: string)
    requires IsLeast(a, keys) && IsLeast(b, keys)
    ensures a == b
  {
    if a != b {
      LessIsTransitive(a, b, a);
      LessIsIrreflexive(a);
    }
  }

  /** The keys of an object in the order of iteration. */
  function Ordered(keys: set<string>): (s: seq<string>)
    ensures Ascending(s) && (forall k :: k in s <==> k in keys) && |s| == |keys|
  {
    if keys == {} then []
    else
      LeastIsThere(keys);
      var k :| IsLeast(k, keys);
      [k] + Ordered(keys - {k})
  }

  lemma LeastIsThere(keys: set<string>)
    requires keys != {}
    ensures exists k :: IsLeast(k, keys)
    ensures forall a, b :: IsLeast(a, keys) && IsLeast(b, keys) ==> a == b
  {
    var k := LeastExists(keys);
    forall a, b | IsLeast(a, keys) && IsLeast(b, keys)
      ensures a == b
    {
      LeastIsUnique(keys, a, b);
    }
  }

  function KeySet(keys: seq<string>): set<string> {
    set k | k in keys
  }

  lemma NotYetDone(keys: seq<string>, i: nat)
    requires Ascending(keys) && i < |keys|
    ensures keys[i] !in KeySet(keys[..i])
    ensures KeySet(keys[..i + 1]) == KeySet(keys[..i]) + {keys[i]}
  {
    LessIsIrreflexive(keys[i]);
    assert keys[..i + 1] == keys[..i] + [keys[i]];
  }

  /** The value of a member, or null. */
  function Lookup(members: map<string, Json>, key: string): Json {
    if key in members then members[key] else Null
  }
}
