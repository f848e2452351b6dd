/** JSON Pointer (RFC 6901): parsing, printing and resolving. */
module JsonPointers {
  import opened DigitGen
  import opened NumberText
  import opened JsonValues
  import opened StringEscape

  // --- printing ---

  /** to_string() */
  function ToString(tokens: seq<string>): string
  {
    if tokens == [] then []
    else ToString(tokens[..|tokens| - 1]) + "/" + Escaped(tokens[|tokens| - 1])
  }

  // --- the grammar of section 3 ---

  predicate IsReferenceToken(s: string) {
    TildesAreEscapes(s) && '/' !in s
  }

  /** json-pointer = *( "/" reference-token ) */
  function Join(raw: seq<string>): string {
    if raw == [] then [] else Join(raw[..|raw| - 1]) + "/" + raw[|raw| - 1]
  }

  ghost predicate IsPointer(s: string) {
    exists raw: seq<string> :: (forall i :: 0 <= i < |raw| ==> IsReferenceToken(raw[i])) && s == Join(raw)
  }

  function EscapedAll(tokens: seq<string>): (raw: seq<string>)
    ensures |raw| == |tokens| && forall i :: 0 <= i < |raw| ==> raw[i] == Escaped(tokens[i])
  {
    seq(|tokens|, i requires 0 <= i < |tokens| => Escaped(tokens[i]))
  }

  lemma {:induction false} PrintedIsJoined(tokens: seq<string>)
    ensures ToString(tokens) == Join(EscapedAll(tokens))
  {
    if tokens != [] {
      PrintedIsJoined(tokens[..|tokens| - 1]);
      assert EscapedAll(tokens)[..|tokens| - 1] == EscapedAll(tokens[..|tokens| - 1]);
    }
  }

  /** The last slash of a joined text starts its last token. */
  lemma LastTokenIsUnique(a: string, x: string, b: string, y: string)
    requires '/' !in x && '/' !in y && a + "/" + x == b + "/" + y
    ensures a == b && x == y
  {
    var s := a + "/" + x;
    assert s[|a|] == '/' && s[|b|] == '/';
    assert forall i :: |a| < i < |s| ==> s[i] == x[i - |a| - 1];
    assert forall i :: |b| < i < |s| ==> s[i] == y[i - |b| - 1];
    assert |a| == |b|;
    assert s[..|a|] == a && s[..|b|] == b && s[|a| + 1..] == x && s[|b| + 1..] == y;
  }

  /** A text is printed from at most one list of tokens. */
  lemma {:induction false} ToStringIsInjective(a: seq<string>, b: seq<string>)
    requires ToString(a) == ToString(b)
    ensures a == b
    decreases |a|
  {
    hide Escaped, Unescaped;
    if a != [] && b != [] {
      var x, y := a[|a| - 1], b[|b| - 1];
      EscapedIsClean(x);
      EscapedIsClean(y);
      LastTokenIsUnique(ToString(a[..|a| - 1]), Escaped(x), ToString(b[..|b| - 1]), Escaped(y));
      UnescapeUndoesEscape(x);
      UnescapeUndoesEscape(y);
      ToStringIsInjective(a[..|a| - 1], b[..|b| - 1]);
      assert a == a[..|a| - 1] + [x] && b == b[..|b| - 1] + [y];
    }
  }

  /** The pointers of section 3 are exactly the texts printed from some tokens. */
  lemma PointersArePrinted(s: string)
    ensures IsPointer(s) <==> exists tokens :: ToString(tokens) == s
  {
    if IsPointer(s) {
      var raw: seq<string> :| (forall i :: 0 <= i < |raw| ==> IsReferenceToken(raw[i])) && s == Join(raw);
      var tokens := seq(|raw|, i requires 0 <= i < |raw| => Unescaped(raw[i]));
      forall i | 0 <= i < |raw|
        ensures EscapedAll(tokens)[i] == raw[i]
      {
        EscapeUndoesUnescape(raw[i]);
      }
      assert EscapedAll(tokens) == raw;
      PrintedIsJoined(tokens);
    }
    if tokens :| ToString(tokens) == s {
      PrintedIsJoined(tokens);
      forall i | 0 <= i < |tokens|
        ensures IsReferenceToken(EscapedAll(tokens)[i])
      {
        EscapedIsClean(tokens[i]);
      }
    }
  }

  // --- parsing ---

  /** The tokens a text is printed from, or the id of the exception a text that is no pointer raises. */
  ghost function Parsed(s: string): Result<seq<string>> {
    if tokens :| ToString(tokens) == s then Ok(tokens)
    else if s != [] && s[0] == '/' then Err(108)
    else Err(107)
  }

  lemma ParsedIs(s: string, tokens: seq<string>)
    requires ToString(tokens) == s
    ensures Parsed(s) == Ok(tokens)
  {
    ToStringIsInjective(Parsed(s).value, tokens);
  }

  lemma {:induction false} PrintedEscapes(tokens: seq<string>)
    ensures TildesAreEscapes(ToString(tokens))
    ensures tokens != [] ==> ToString(tokens) != [] && ToString(tokens)[0] == '/'
  {
    if tokens != [] {
      PrintedEscapes(tokens[..|tokens| - 1]);
      EscapedIsClean(tokens[|tokens| - 1]);
    }
  }

  /** The first position from pos on where c occurs, or |s|. */
  method FindFirstOf(s: string, c: char, from: nat) returns (pos: nat)
    requires from <= |s|
    ensures from <= pos <= |s| && c !in s[from..pos]
    ensures pos < |s| ==> s[pos] == c
  {
    pos := from;
    while pos < |s| && s[pos] != c
      invariant from <= pos <= |s| && c !in s[from..pos]
    {
      pos := pos + 1;
    }
  }

  /** Whether every "~" of a token is followed by "0" or "1". */
  method CheckEscapes(token: string) returns (ok: bool)
    ensures ok <==> TildesAreEscapes(token)
  {
    var pos := FindFirstOf(token, '~', 0);
    while pos < |token|
      invariant pos <= |token| && (pos < |token| ==> token[pos] == '~')
      invariant forall i :: 0 <= i < pos && token[i] == '~' ==>
        i + 1 < |token| && (token[i + 1] == '0' || token[i + 1] == '1')
    {
      if pos == |token| - 1 || (token[pos + 1] != '0' && token[pos + 1] != '1') {
        return false;
      }
      ghost var before := pos;
      pos := FindFirstOf(token, '~', pos + 1);
      assert forall i :: before < i < pos ==> token[i] == token[before + 1..pos][i - before - 1];
    }
    ok := true;
  }

  lemma NothingPrinted()
    ensures ToString([]) == []
  {
  }

  lemma NoSlashNoPointer(s: string)
    requires s != [] && s[0] != '/'
    ensures Parsed(s) == Err(107)
  {
    forall tokens
      ensures ToString(tokens) != s
    {
      PrintedEscapes(tokens);
    }
  }

  lemma PushToken(tokens: seq<string>, raw: string)
    requires TildesAreEscapes(raw) && '/' !in raw
    ensures ToString(tokens + [Unescaped(raw)]) == ToString(tokens) + "/" + raw
  {
    EscapeUndoesUnescape(raw);
    assert (tokens + [Unescaped(raw)])[..|tokens|] == tokens;
  }

  /** The tokens of a pointer. */
  method Split(s: string) returns (r: Result<seq<string>>)
    ensures r == Parsed(s)
  {
    hide TildesAreEscapes, Unescaped, Escaped, ToString;
    var result: seq<string> := [];
    NothingPrinted();
    if s == [] {
      ParsedIs(s, []);
      return Ok([]);
    }
    if s[0] != '/' {
      NoSlashNoPointer(s);
      return Err(107);
    }
    var start := 1;
    var slash := FindFirstOf(s, '/', 1);
    while start != 0
      invariant 0 <= start <= |s|
      invariant if start == 0 then ToString(result) == s else s[..start] == ToString(result) + "/"
      invariant start != 0 ==> start <= slash <= |s| && '/' !in s[start..slash] && (slash < |s| ==> s[slash] == '/')
      decreases if start == 0 then 0 else 1 + |s| - start
    {
      var token := s[start..slash];
      var ok := CheckEscapes(token);
      if !ok {
        NotAPointer(s, start, slash);
        return Err(108);
      }
      var unescaped := Unescape(token);
      assert s[..slash] == s[..start] + token;
      PushToken(result, token);
      result := result + [unescaped];
      if slash == |s| {
        assert s[..slash] == s;
        start := 0;
      } else {
        assert s[..slash + 1] == s[..slash] + "/";
        start := slash + 1;
        slash := FindFirstOf(s, '/', start);
      }
    }
    ParsedIs(s, result);
    r := Ok(result);
  }

  /** A badly escaped token makes the whole text no pointer. */
  lemma NotAPointer(s: string, start: nat, slash: nat)
    requires start <= slash <= |s| && (slash < |s| ==> s[slash] == '/') && !TildesAreEscapes(s[start..slash])
    ensures forall tokens :: ToString(tokens) != s
  {
    forall tokens
      ensures ToString(tokens) != s
    {
      PrintedEscapes(tokens);
      var i :| 0 <= i < slash - start && s[start..slash][i] == '~'
        && !(i + 1 < slash - start && (s[start..slash][i + 1] == '0' || s[start..slash][i + 1] == '1'));
      assert s[start + i] == '~';
    }
  }

  /** Printing and parsing are inverse; exactly the pointers of section 3 of RFC 6901 are accepted. */
  lemma ParseAfterPrint(tokens: seq<string>)
    ensures Parsed(ToString(tokens)) == Ok(tokens)
  {
    ParsedIs(ToString(tokens), tokens);
  }

  lemma PrintAfterParse(s: string)
    ensures Parsed(s).Ok? <==> IsPointer(s)
    ensures Parsed(s).Ok? ==> ToString(Parsed(s).value) == s
    ensures Parsed(s) == Err(107) <==> s != [] && s[0] != '/'
    ensures Parsed(s) == Err(108) <==> !IsPointer(s) && s != [] && s[0] == '/'
  {
    PointersArePrinted(s);
    if Parsed(s).Ok? {
      PrintedEscapes(Parsed(s).value);
    } else if s == [] {
      ParsedIs(s, []);
    }
  }

  /** Pointers of sections 4 and 5, with their tokens. */
  lemma StandardPointers()
    ensures Parsed("") == Ok([]) && Parsed("/") == Ok([""]) && Parsed("/foo/0") == Ok(["foo", "0"])
    ensures Parsed("/a~1b") == Ok(["a/b"]) && Parsed("/m~0n") == Ok(["m~n"]) && Parsed("/~01") == Ok(["~1"])
  {
    hide Parsed, ToString, Escaped;
    NothingPrinted();
    ParsedIs("", []);
    EscapedExamples();
    OneToken("/", "", "");
    OneToken("/a~1b", "a/b", "a~1b");
    OneToken("/m~0n", "m~n", "m~0n");
    OneToken("/~01", "~1", "~01");
    OneToken("/foo", "foo", "foo");
    TwoTokens("/foo/0", "/foo", "foo", "0");
  }

  lemma EscapedExamples()
    ensures Escaped("") == "" && Escaped("a/b") == "a~1b" && Escaped("m~n") == "m~0n" && Escaped("~1") == "~01"
    ensures Escaped("foo") == "foo" && Escaped("0") == "0"
  {
    assert "a/b"[1..] == "/b" && "/b"[1..] == "b" && "m~n"[1..] == "~n" && "~n"[1..] == "n" && "~1"[1..] == "1";
    assert "foo"[1..] == "oo" && "oo"[1..] == "o" && "o"[1..] == "" && "b"[1..] == "" && "n"[1..] == "";
    assert "0"[1..] == "" && "1"[1..] == "" && "~1"[1..] == "1";
    assert Escaped("b") == "b" && Escaped("n") == "n" && Escaped("1") == "1" && Escaped("o") == "o";
  }

  lemma OneToken(text: string, token: string, raw: string)
    requires raw == Escaped(token) && text == "/" + raw
    ensures ToString([token]) == text && Parsed(text) == Ok([token])
  {
    hide Parsed, Escaped;
    assert [token][..0] == [];
    ParsedIs(text, [token]);
  }

  lemma TwoTokens(text: string, front: string, a: string, b: string)
    requires ToString([a]) == front && Escaped(b) == b && text == front + "/" + b
    ensures Parsed(text) == Ok([a, b])
  {
    hide Parsed, Escaped;
    assert [a, b][..1] == [a];
    ParsedIs(text, [a, b]);
  }

  // --- array indices ---

  const SIZE_MAX := 0xFFFF_FFFF_FFFF_FFFF

  /** array-index in section 4 of RFC 6901: "0", or digits that start with another one. */
  predicate IsArrayIndex(s: string) {
    s != [] && AllDigits(s) && (s[0] == '0' ==> |s| == 1)
  }

  /** array_index(); the digits strtoull reads must be all there is. */
  function ArrayIndex(s: string): (r: Result<nat>)
    ensures r.Ok? <==> IsArrayIndex(s) && NumberOf(s) < SIZE_MAX
    ensures r.Ok? ==> r.value == NumberOf(s)
  {
    if 1 < |s| && s[0] == '0' then Err(106)
    else if 1 < |s| && !('1' <= s[0] <= '9') then Err(109)
    else
      var n := LeadingDigits(s);
      assert AllDigits(s) <==> n == |s|;
      assert s[..|s|] == s;
      var res := NumberOf(s[..n]);
      if n == 0 || SIZE_MAX < res || n != |s| then Err(404)
      else if SIZE_MAX <= res then Err(410)
      else Ok(res)
  }

  lemma DashIsNoIndex()
    ensures ArrayIndex("-") == Err(404)
  {
  }

  /** to_string() of an index. */
  function NatText(n: nat): (s: string)
    ensures IsArrayIndex(s) && NumberOf(s) == n && (0 < n ==> s[0] != '0')
  {
    if n < 10 then
      assert NumberOf([DigitChar(n)]) == 10 * NumberOf([]) + n;
      [DigitChar(n)]
    else
      NumberOfAppend(NatText(n / 10), n % 10);
      NatText(n / 10) + [DigitChar(n % 10)]
  }

  // --- resolving ---

  /** The value a pointer refers to, or the id of the exception. */
  function At(j: Json, tokens: seq<string>): Result<Json>
    decreases |tokens|
  {
    if tokens == [] then Ok(j)
    else var child :- Child(j, tokens[0]); At(child, tokens[1..])
  }

  function Child(j: Json, token: string): Result<Json> {
    match j
    case Object(members) => if token in members then Ok(members[token]) else Err(403)
    case Array(elements) =>
      if token == "-" then Err(402)
      else var i :- ArrayIndex(token); if i < |elements| then Ok(elements[i]) else Err(401)
    case _ => Err(404)
  }

  /** Resolving fails where the first token names no child, and the kind of the value there decides the exception. */
  lemma {:induction false} FirstFailureDecides(j: Json, tokens: seq<string>, n: nat)
    requires n < |tokens| && At(j, tokens[..n]).Ok?
    ensures var parent, token := At(j, tokens[..n]).value, tokens[n];
            && (parent.IsPrimitive() ==> At(j, tokens) == Err(404))
            && (parent.Object? && token !in parent.members ==> At(j, tokens) == Err(403))
            && (parent.Array? && token == "-" ==> At(j, tokens) == Err(402))
            && (parent.Array? && token != "-" && !IsArrayIndex(token) ==>
                  At(j, tokens) == Err(if |token| < 2 then 404 else if token[0] == '0' then 106
                                       else if IsDigit(token[0]) then 404 else 109))
            && (parent.Array? && IsArrayIndex(token) && |parent.elements| <= NumberOf(token) ==>
                  At(j, tokens) == Err(if NumberOf(token) < 0xFFFF_FFFF_FFFF_FFFF then 401
                                       else if NumberOf(token) == 0xFFFF_FFFF_FFFF_FFFF then 410 else 404))
    decreases n
  {
    hide Child;
    if n == 0 {
      assert tokens[..0] == [];
      ChildFails(j, tokens[0]);
    } else {
      assert tokens[..n][1..] == tokens[1..][..n - 1];
      FirstFailureDecides(Child(j, tokens[0]).value, tokens[1..], n - 1);
    }
  }

  lemma ChildFails(parent: Json, token: string)
    ensures parent.IsPrimitive() ==> Child(parent, token) == Err(404)
    ensures parent.Object? && token !in parent.members ==> Child(parent, token) == Err(403)
    ensures parent.Array? && token == "-" ==> Child(parent, token) == Err(402)
    ensures parent.Array? && token != "-" && !IsArrayIndex(token) ==>
              Child(parent, token) == Err(if |token| < 2 then 404 else if token[0] == '0' then 106
                                          else if IsDigit(token[0]) then 404 else 109)
    ensures parent.Array? && IsArrayIndex(token) && |parent.elements| <= NumberOf(token) ==>
              Child(parent, token) == Err(if NumberOf(token) < 0xFFFF_FFFF_FFFF_FFFF then 401
                                          else if NumberOf(token) == 0xFFFF_FFFF_FFFF_FFFF then 410 else 404)
  {
    hide NumberOf;
    if parent.Array? && IsArrayIndex(token) {
      assert token[..|token|] == token;
    }
  }

  /** The value with one child overwritten that exists. */
  function WithChild(j: Json, token: string, child: Json): Json
    requires Child(j, token).Ok?
  {
    if j.Object? then Object(j.members[token := child])
    else Array(j.elements[ArrayIndex(token).value := child])
  }

  /** get_checked() */
  method GetChecked(j: Json, tokens: seq<string>) returns (r: Result<Json>)
    ensures r == At(j, tokens)
  {
    var ptr := j;
    for i := 0 to |tokens|
      invariant At(ptr, tokens[i..]) == At(j, tokens)
    {
      var token := tokens[i];
      assert tokens[i..][1..] == tokens[i + 1..];
      match ptr {
        case Object(members) =>
          if token !in members {
            return Err(403);
          }
          ptr := members[token];
        case Array(elements) =>
          if token == "-" {
            return Err(402);
          }
          var index := ArrayIndex(token);
          if index.Err? {
            return Err(index.id);
          }
          if |elements| <= index.value {
            return Err(401);
          }
          ptr := elements[index.value];
        case _ =>
          return Err(404);
      }
    }
    r := Ok(ptr);
  }

  /** The tree after the value at an existing place is overwritten. */
  function Replaced(j: Json, tokens: seq<string>, v: Json): Json
    requires At(j, tokens).Ok?
    decreases |tokens|
  {
    if tokens == [] then v
    else
      WithChild(j, tokens[0], Replaced(Child(j, tokens[0]).value, tokens[1..], v))
  }

  lemma {:induction false} AtReplaced(j: Json, tokens: seq<string>, v: Json)
    requires At(j, tokens).Ok?
    ensures At(Replaced(j, tokens, v), tokens) == Ok(v)
    decreases |tokens|
  {
    hide Child, WithChild;
    if tokens != [] {
      var child := Child(j, tokens[0]).value;
      AtReplaced(child, tokens[1..], v);
      ChildTwice(j, tokens[0], Replaced(child, tokens[1..], v), v);
    }
  }

  /** What overwrites a child is found there, and a second overwriting is all that counts. */
  lemma ChildTwice(j: Json, token: string, a: Json, b: Json)
    requires Child(j, token).Ok?
    ensures Child(WithChild(j, token, a), token) == Ok(a)
    ensures WithChild(WithChild(j, token, a), token, b) == WithChild(j, token, b)
  {
    hide ArrayIndex;
  }

  lemma {:induction false} ReplacedTwice(j: Json, tokens: seq<string>, v: Json, w: Json)
    requires At(j, tokens).Ok?
    ensures At(Replaced(j, tokens, v), tokens).Ok?
    ensures Replaced(Replaced(j, tokens, v), tokens, w) == Replaced(j, tokens, w)
    decreases |tokens|
  {
    hide Child, WithChild;
    AtReplaced(j, tokens, v);
    if tokens != [] {
      var child := Child(j, tokens[0]).value;
      ReplacedTwice(child, tokens[1..], v, w);
      ChildTwice(j, tokens[0], Replaced(child, tokens[1..], v), Replaced(child, tokens[1..], w));
    }
  }

  lemma {:induction false} ReplacedBySame(j: Json, tokens: seq<string>)
    requires At(j, tokens).Ok?
    ensures Replaced(j, tokens, At(j, tokens).value) == j
    decreases |tokens|
  {
    if tokens != [] {
      ReplacedBySame(Child(j, tokens[0]).value, tokens[1..]);
    }
  }

  /** Resolving goes on from the value a prefix refers to. */
  lemma {:induction false} AtAppend(j: Json, a: seq<string>, b: seq<string>)
    requires At(j, a).Ok?
    ensures At(j, a + b) == At(At(j, a).value, b)
    decreases |a|
  {
    if a == [] {
      assert a + b == b;
    } else {
      assert (a + b)[1..] == a[1..] + b;
      AtAppend(Child(j, a[0]).value, a[1..], b);
    }
  }

  lemma {:induction false} ReplacedAppend(j: Json, a: seq<string>, b: seq<string>, v: Json)
    requires At(j, a).Ok? && At(At(j, a).value, b).Ok?
    ensures At(j, a + b).Ok?
    ensures Replaced(j, a + b, v) == Replaced(j, a, Replaced(At(j, a).value, b, v))
    decreases |a|
  {
    AtAppend(j, a, b);
    if a == [] {
      assert a + b == b;
    } else {
      assert (a + b)[1..] == a[1..] + b;
      ReplacedAppend(Child(j, a[0]).value, a[1..], b, v);
    }
  }

  lemma OneStep(j: Json, token: string)
    ensures At(j, [token]) == Child(j, token)
  {
    assert [token][1..] == [];
  }

  lemma AtChild(root: Json, tokens: seq<string>, token: string)
    requires At(root, tokens).Ok?
    ensures At(root, tokens + [token]) == Child(At(root, tokens).value, token)
  {
    AtAppend(root, tokens, [token]);
    OneStep(At(root, tokens).value, token);
  }

  /** Arrays a program can hold: every index is below the largest size_type. */
  ghost predicate InMemory(j: Json) {
    match j
    case Array(elements) => |elements| <= SIZE_MAX && forall x :: x in elements ==> InMemory(x)
    case Object(members) => forall k :: k in members ==> InMemory(members[k])
    case _ => true
  }

  lemma {:induction false} DigitsNeedNoEscape(s: string)
    requires AllDigits(s)
    ensures Escaped(s) == s
    decreases |s|
  {
    if s != [] {
      assert forall i :: 0 <= i < |s| - 1 ==> s[1..][i] == s[i + 1];
      DigitsNeedNoEscape(s[1..]);
    }
  }

  // --- children of arrays ---

  lemma IndexChild(elements: seq<Json>, i: nat)
    requires i < SIZE_MAX
    ensures Child(Array(elements), NatText(i)) == if i < |elements| then Ok(elements[i]) else Err(401)
    ensures Escaped(NatText(i)) == NatText(i)
  {
    DigitsNeedNoEscape(NatText(i));
  }

  /** An index is written in one way only. */
  lemma {:induction false} IndexIsNatText(s: string)
    requires IsArrayIndex(s)
    ensures s == NatText(NumberOf(s))
    decreases |s|
  {
    hide NatText;
    var front, last := s[..|s| - 1], s[|s| - 1];
    LastDigit(s);
    NatTextStep(NumberOf(s));
    assert s == front + [last];
    if front != [] {
      IndexIsNatText(front);
      LeadIsPositive(front);
    }
  }

  lemma LastDigit(s: string)
    requires s != [] && AllDigits(s)
    ensures var front, last := s[..|s| - 1], s[|s| - 1];
            && NumberOf(s) / 10 == NumberOf(front) && DigitChar(NumberOf(s) % 10) == last
            && (front == [] ==> NumberOf(front) == 0)
  {
    var front, last := s[..|s| - 1], s[|s| - 1];
    assert NumberOf(s) == 10 * NumberOf(front) + DigitOf(last);
  }

  lemma NatTextStep(n: nat)
    ensures NatText(n) == if n < 10 then [DigitChar(n % 10)] else NatText(n / 10) + [DigitChar(n % 10)]
  {
  }

  lemma {:induction false} LeadIsPositive(s: string)
    requires s != [] && AllDigits(s) && s[0] != '0'
    ensures 0 < NumberOf(s)
    decreases |s|
  {
    if |s| == 1 {
      assert NumberOf(s) == 10 * NumberOf(s[..0]) + DigitOf(s[0]);
    } else {
      LeadIsPositive(s[..|s| - 1]);
    }
  }

  lemma ChildIsIndex(elements: seq<Json>, token: string)
    requires Child(Array(elements), token).Ok?
    ensures IsArrayIndex(token) && NumberOf(token) < |elements| && token == NatText(NumberOf(token))
    ensures NumberOf(token) < SIZE_MAX
  {
    hide NatText;
    IndexIsNatText(token);
  }
}
