/** Escaping of reference tokens by search and replace. */
module StringEscape {

  // --- search and replace ---

  /** All occurrences of f replaced by t, found from left to right. */
  function ReplaceAll(s: string, f: string, t: string): string
    requires f != []
    decreases |s|
  {
    if s == [] then []
    else if f <= s then t + ReplaceAll(s[|f|..], f, t)
    else [s[0]] + ReplaceAll(s[1..], f, t)
  }

  /** The first position from pos on where f occurs, or |s| if there is none. */
  method Find(s: string, f: string, from: nat) returns (pos: nat)
    requires f != [] && from <= |s|
    ensures from <= pos <= |s|
    ensures pos < |s| ==> f <= s[pos..]
    ensures forall i :: from <= i < pos ==> !(f <= s[i..])
  {
    pos := from;
    while pos < |s| && !(f <= s[pos..])
      invariant from <= pos <= |s|
      invariant forall i :: from <= i < pos ==> !(f <= s[i..])
    {
      pos := pos + 1;
    }
  }

  lemma {:induction false} SkipUnmatched(s: string, f: string, t: string, n: nat)
    requires f != [] && n <= |s| && forall i :: 0 <= i < n ==> !(f <= s[i..])
    ensures ReplaceAll(s, f, t) == s[..n] + ReplaceAll(s[n..], f, t)
    decreases n
  {
    if n == 0 {
      assert s[0..] == s;
    } else {
      assert s[0..] == s;
      forall i | 0 <= i < n - 1
        ensures !(f <= s[1..][i..])
      {
        assert s[1..][i..] == s[i + 1..];
      }
      SkipUnmatched(s[1..], f, t, n - 1);
      assert s[1..][n - 1..] == s[n..] && s[..n] == [s[0]] + s[1..][..n - 1];
    }
  }

  lemma ReplaceFirst(s: string, f: string, t: string, n: nat)
    requires f != [] && n < |s| && f <= s[n..] && forall i :: 0 <= i < n ==> !(f <= s[i..])
    ensures ReplaceAll(s, f, t) == s[..n] + t + ReplaceAll(s[n + |f|..], f, t)
  {
    hide ReplaceAll;
    SkipUnmatched(s, f, t, n);
    ReplaceHere(s[n..], f, t);
    assert s[n..][|f|..] == s[n + |f|..];
  }

  lemma ReplaceHere(s: string, f: string, t: string)
    requires f != [] && f <= s
    ensures ReplaceAll(s, f, t) == t + ReplaceAll(s[|f|..], f, t)
  {
  }

  /** What is found behind a finished part is found in the rest. */
  lemma FoundInRest(done: string, rest: string, f: string, pos: nat)
    requires |done| <= pos <= |done + rest|
    requires forall i :: |done| <= i < pos ==> !(f <= (done + rest)[i..])
    ensures (done + rest)[pos..] == rest[pos - |done|..]
    ensures (done + rest)[..pos] == done + rest[..pos - |done|]
    ensures forall i :: 0 <= i < pos - |done| ==> !(f <= rest[i..])
  {
    forall i | 0 <= i < pos - |done|
      ensures !(f <= rest[i..])
    {
      assert (done + rest)[|done| + i..] == rest[i..];
    }
  }

  /** Replaces in the string itself, searching on behind each replacement. */
  method ReplaceSubstring(text: string, f: string, t: string) returns (s: string)
    requires f != []
    ensures s == ReplaceAll(text, f, t)
  {
    hide ReplaceAll;
    s := text;
    ghost var done, rest := "", text;
    assert s == done + rest;
    var pos := Find(s, f, 0);
    while pos < |s|
      invariant |done| <= pos <= |s| && s == done + rest
      invariant done + ReplaceAll(rest, f, t) == ReplaceAll(text, f, t)
      invariant forall i :: |done| <= i < pos ==> !(f <= s[i..])
      invariant pos < |s| ==> f <= s[pos..]
      decreases |rest|
    {
      FoundInRest(done, rest, f, pos);
      ghost var n := pos - |done|;
      ReplaceFirst(rest, f, t, n);
      assert s[pos + |f|..] == rest[n + |f|..];
      s := s[..pos] + t + s[pos + |f|..];
      done, rest := done + rest[..n] + t, rest[n + |f|..];
      assert s == done + rest;
      pos := Find(s, f, pos + |t|);
    }
    FoundInRest(done, rest, f, pos);
    SkipUnmatched(rest, f, t, |rest|);
    assert rest[..|rest|] == rest;
    NothingLeft(f, t);
    assert rest[|rest|..] == [];
  }

  lemma NothingLeft(f: string, t: string)
    requires f != []
    ensures ReplaceAll([], f, t) == []
  {
  }

  // --- escaping ---

  /** Section 4 of RFC 6901 read backwards: "~" is written as "~0" and "/" as "~1". */
  function Escaped(s: string): string
  {
    if s == [] then []
    else (if s[0] == '~' then "~0" else if s[0] == '/' then "~1" else [s[0]]) + Escaped(s[1..])
  }

  /** Every "~" is followed by "0" or "1". */
  predicate TildesAreEscapes(s: string) {
    forall i :: 0 <= i < |s| && s[i] == '~' ==> i + 1 < |s| && (s[i + 1] == '0' || s[i + 1] == '1')
  }

  /** The escapes decoded from left to right; a "~" that starts no escape is kept. */
  function Unescaped(s: string): string
    decreases |s|
  {
    if s == [] then []
    else if StartsWith(s, '~', '0') then "~" + Unescaped(s[2..])
    else if StartsWith(s, '~', '1') then "/" + Unescaped(s[2..])
    else [s[0]] + Unescaped(s[1..])
  }

  predicate StartsWith(s: string, a: char, b: char) {
    2 <= |s| && s[0] == a && s[1] == b
  }

  lemma PairIsPrefix(s: string, a: char, b: char)
    ensures [a, b] <= s <==> StartsWith(s, a, b)
  {
  }

  /** Replacing a pair at the start, or passing the first character. */
  lemma ReplacePair(s: string, a: char, b: char, t: string)
    ensures StartsWith(s, a, b) ==> ReplaceAll(s, [a, b], t) == t + ReplaceAll(s[2..], [a, b], t)
    ensures s != [] && !StartsWith(s, a, b) ==> ReplaceAll(s, [a, b], t) == [s[0]] + ReplaceAll(s[1..], [a, b], t)
    ensures s == [] ==> ReplaceAll(s, [a, b], t) == []
  {
    PairIsPrefix(s, a, b);
  }

  lemma ReplaceCharacter(s: string, a: char, t: string)
    requires s != []
    ensures ReplaceAll(s, [a], t) == (if s[0] == a then t else [s[0]]) + ReplaceAll(s[1..], [a], t)
  {
    assert [a] <= s <==> s[0] == a;
  }

  lemma ReplaceInNothing(f: string, t: string)
    requires f != []
    ensures ReplaceAll([], f, t) == []
  {
  }

  lemma {:induction false} TwoPassesEscape(s: string)
    ensures ReplaceAll(ReplaceAll(s, "~", "~0"), "/", "~1") == Escaped(s)
    decreases |s|
  {
    hide ReplaceAll;
    ReplaceInNothing("~", "~0");
    ReplaceInNothing("/", "~1");
    if s != [] {
      var rest := ReplaceAll(s[1..], "~", "~0");
      TwoPassesEscape(s[1..]);
      ReplaceCharacter(s, '~', "~0");
      if s[0] == '~' {
        assert "~0" + rest == ['~'] + (['0'] + rest);
        PassOver('~', ['0'] + rest);
        PassOver('0', rest);
        assert ['~'] + (['0'] + ReplaceAll(rest, "/", "~1")) == "~0" + ReplaceAll(rest, "/", "~1");
      } else {
        PassOver(s[0], rest);
      }
    }
  }

  lemma PassOver(c: char, rest: string)
    ensures ReplaceAll([c] + rest, "/", "~1") == (if c == '/' then "~1" else [c]) + ReplaceAll(rest, "/", "~1")
  {
    hide ReplaceAll;
    assert ([c] + rest)[0] == c && ([c] + rest)[1..] == rest;
    ReplaceCharacter([c] + rest, '/', "~1");
  }

  /** The second pass over what the first one leaves. */
  lemma SecondPass(c: char, rest: string)
    ensures c == '~' && rest != [] && rest[0] == '0' ==>
      ReplaceAll([c] + rest, "~0", "~") == "~" + ReplaceAll(rest[1..], "~0", "~")
    ensures !(c == '~' && rest != [] && rest[0] == '0') ==>
      ReplaceAll([c] + rest, "~0", "~") == [c] + ReplaceAll(rest, "~0", "~")
  {
    hide ReplaceAll;
    var s := [c] + rest;
    assert s[0] == c && s[1..] == rest && (rest != [] ==> s[1] == rest[0] && s[2..] == rest[1..]);
    ReplacePair(s, '~', '0', "~");
  }

  /** The first pass brings no "0" to the front. */
  lemma FirstPassKeepsZero(s: string)
    ensures var r := ReplaceAll(s, "~1", "/");
            (r != [] && r[0] == '0' <==> s != [] && s[0] == '0') && (s != [] && s[0] == '0' ==> r[1..] == ReplaceAll(s[1..], "~1", "/"))
  {
    hide ReplaceAll;
    ReplacePair(s, '~', '1', "/");
  }

  lemma {:induction false} TwoPassesUnescape(s: string)
    ensures ReplaceAll(ReplaceAll(s, "~1", "/"), "~0", "~") == Unescaped(s)
    decreases |s|
  {
    hide ReplaceAll;
    ReplacePair(s, '~', '1', "/");
    if s == [] {
      ReplaceInNothing("~0", "~");
    } else if StartsWith(s, '~', '1') {
      TwoPassesUnescape(s[2..]);
      SecondPass('/', ReplaceAll(s[2..], "~1", "/"));
    } else {
      var rest := ReplaceAll(s[1..], "~1", "/");
      FirstPassKeepsZero(s[1..]);
      SecondPass(s[0], rest);
      if StartsWith(s, '~', '0') {
        assert s[1..][1..] == s[2..] && s[1..][0] == s[1];
        TwoPassesUnescape(s[2..]);
      } else {
        assert 1 < |s| ==> s[1..][0] == s[1];
        TwoPassesUnescape(s[1..]);
      }
    }
  }

  /** "~" first, so that the "~" of a "~1" is not escaped again. */
  method Escape(text: string) returns (s: string)
    ensures s == Escaped(text)
  {
    s := ReplaceSubstring(text, "~", "~0");
    s := ReplaceSubstring(s, "/", "~1");
    TwoPassesEscape(text);
  }

  /** "~1" first, so that "~01" becomes "~1" and not "/". */
  method Unescape(text: string) returns (s: string)
    ensures s == Unescaped(text)
  {
    s := ReplaceSubstring(text, "~1", "/");
    s := ReplaceSubstring(s, "~0", "~");
    TwoPassesUnescape(text);
  }

  lemma {:induction false} EscapedIsClean(s: string)
    ensures TildesAreEscapes(Escaped(s)) && '/' !in Escaped(s)
    decreases |s|
  {
    if s != [] {
      EscapedIsClean(s[1..]);
    }
  }

  lemma {:induction false} UnescapeUndoesEscape(s: string)
    ensures Unescaped(Escaped(s)) == s
    decreases |s|
  {
    if s != [] {
      UnescapeUndoesEscape(s[1..]);
      var rest := Escaped(s[1..]);
      if s[0] == '~' || s[0] == '/' {
        assert Escaped(s)[2..] == rest;
      } else {
        assert Escaped(s)[0] == s[0] && Escaped(s)[1..] == rest;
      }
    }
  }

  lemma TildesStep(s: string)
    requires s != []
    ensures TildesAreEscapes(s) <==>
      if s[0] == '~' then 2 <= |s| && (s[1] == '0' || s[1] == '1') && TildesAreEscapes(s[2..]) else TildesAreEscapes(s[1..])
  {
    assert forall i :: 0 <= i < |s| - 1 ==> s[1..][i] == s[i + 1];
    assert forall i :: 1 <= i < |s| ==> s[i] == s[1..][i - 1];
    if s[0] == '~' && 2 <= |s| && (s[1] == '0' || s[1] == '1') {
      assert forall i :: 0 <= i < |s| - 2 ==> s[2..][i] == s[i + 2];
      assert forall i :: 2 <= i < |s| ==> s[i] == s[2..][i - 2];
    }
  }

  /** Escaping undoes unescaping exactly for the tokens of the grammar. */
  lemma {:induction false} EscapeUndoesUnescape(s: string)
    ensures Escaped(Unescaped(s)) == s <==> TildesAreEscapes(s) && '/' !in s
    decreases |s|
  {
    hide TildesAreEscapes;
    if s == [] {
      NoTildes();
    } else {
      TildesStep(s);
      if s[0] == '~' && 2 <= |s| && (s[1] == '0' || s[1] == '1') {
        var rest := Unescaped(s[2..]);
        EscapeUndoesUnescape(s[2..]);
        assert s == [s[0], s[1]] + s[2..];
        assert Unescaped(s)[1..] == rest && Unescaped(s)[0] == if s[1] == '0' then '~' else '/';
        assert Escaped(Unescaped(s)) == [s[0], s[1]] + Escaped(rest);
        SameFront([s[0], s[1]], Escaped(rest), s[2..]);
      } else {
        var rest := Unescaped(s[1..]);
        EscapeUndoesUnescape(s[1..]);
        assert s == [s[0]] + s[1..];
        assert Unescaped(s)[1..] == rest && Unescaped(s)[0] == s[0];
        if s[0] == '~' {
          assert Escaped(Unescaped(s))[1] == '0';
        } else if s[0] != '/' {
          assert Escaped(Unescaped(s)) == [s[0]] + Escaped(rest);
          SameFront([s[0]], Escaped(rest), s[1..]);
        }
      }
    }
  }

  lemma NoTildes()
    ensures TildesAreEscapes([])
  {
  }

  lemma SameFront(a: string, b: string, c: string)
    ensures a + b == a + c <==> b == c
  {
    assert (a + b)[|a|..] == b && (a + c)[|a|..] == c;
  }
}
