/** Numbers in section 6 of RFC 8259: the grammar, the scanner's automaton, and the value a number denotes. */
module NumberGrammar {
  import opened DigitGen
  import opened Options

  // --- the grammar: number = [ minus ] int [ frac ] [ exp ] ---

  predicate IsExponentDigits(s: string) {
    0 < |s| && AllDigits(s)
  }

  /** What may follow "e" or "E". */
  predicate IsExponentTail(s: string) {
    || IsExponentDigits(s)
    || (0 < |s| && (s[0] == '+' || s[0] == '-') && IsExponentDigits(s[1..]))
  }

  predicate IsOptionalExponent(s: string) {
    s == [] || ((s[0] == 'e' || s[0] == 'E') && IsExponentTail(s[1..]))
  }

  /** What may follow at least one digit of a fraction. */
  ghost predicate IsFractionTail(s: string) {
    exists k :: 0 <= k <= |s| && AllDigits(s[..k]) && IsOptionalExponent(s[k..])
  }

  ghost predicate IsFraction(s: string) {
    0 < |s| && IsDigit(s[0]) && IsFractionTail(s[1..])
  }

  ghost predicate IsOptionalFractionAndExponent(s: string) {
    IsOptionalExponent(s) || (0 < |s| && s[0] == '.' && IsFraction(s[1..]))
  }

  /** What may follow the first digit of an int that does not start with zero. */
  ghost predicate IsIntTail(s: string) {
    exists k :: 0 <= k <= |s| && AllDigits(s[..k]) && IsOptionalFractionAndExponent(s[k..])
  }

  ghost predicate IsUnsignedNumber(s: string) {
    && 0 < |s|
    && if s[0] == '0' then IsOptionalFractionAndExponent(s[1..]) else IsDigit(s[0]) && IsIntTail(s[1..])
  }

  ghost predicate IsNumber(s: string) {
    IsUnsignedNumber(s) || (0 < |s| && s[0] == '-' && IsUnsignedNumber(s[1..]))
  }

  // --- the automaton ---

  datatype State = Init | Minus | Zero | Any1 | Decimal1 | Decimal2 | Exponent | Sign | Any2

  /** The state after reading c, or None where the scanner is done or reports an error. */
  function Next(q: State, c: char): Option<State> {
    match q
    case Init => if c == '-' then Some(Minus) else if c == '0' then Some(Zero) else if IsDigit(c) then Some(Any1) else None
    case Minus => if c == '0' then Some(Zero) else if IsDigit(c) then Some(Any1) else None
    case Zero => if c == '.' then Some(Decimal1) else if c == 'e' || c == 'E' then Some(Exponent) else None
    case Any1 =>
      if IsDigit(c) then Some(Any1) else if c == '.' then Some(Decimal1)
      else if c == 'e' || c == 'E' then Some(Exponent) else None
    case Decimal1 => if IsDigit(c) then Some(Decimal2) else None
    case Decimal2 => if IsDigit(c) then Some(Decimal2) else if c == 'e' || c == 'E' then Some(Exponent) else None
    case Exponent => if c == '+' || c == '-' then Some(Sign) else if IsDigit(c) then Some(Any2) else None
    case Sign => if IsDigit(c) then Some(Any2) else None
    case Any2 => if IsDigit(c) then Some(Any2) else None
  }

  predicate Accepting(q: State) {
    q.Zero? || q.Any1? || q.Decimal2? || q.Any2?
  }

  function Run(q: State, s: string): Option<State>
    decreases |s|
  {
    if s == [] then Some(q)
    else match Next(q, s[0])
      case None => None
      case Some(r) => Run(r, s[1..])
  }

  predicate Accepts(q: State, s: string) {
    Run(q, s).Some? && Accepting(Run(q, s).value)
  }

  /** The texts that complete a number from each state. */
  ghost predicate Completes(q: State, s: string) {
    match q
    case Init => IsNumber(s)
    case Minus => IsUnsignedNumber(s)
    case Zero => IsOptionalFractionAndExponent(s)
    case Any1 => IsIntTail(s)
    case Decimal1 => IsFraction(s)
    case Decimal2 => IsFractionTail(s)
    case Exponent => IsExponentTail(s)
    case Sign => IsExponentDigits(s)
    case Any2 => AllDigits(s)
  }

  lemma DigitsStep(s: string)
    requires s != []
    ensures AllDigits(s) <==> IsDigit(s[0]) && AllDigits(s[1..])
  {
    if IsDigit(s[0]) && AllDigits(s[1..]) {
      forall i | 0 <= i < |s|
        ensures IsDigit(s[i])
      {
        if 0 < i {
          assert s[i] == s[1..][i - 1];
        }
      }
    }
  }

  lemma FractionTailStep(s: string)
    requires s != []
    ensures IsFractionTail(s) <==> IsOptionalExponent(s) || (IsDigit(s[0]) && IsFractionTail(s[1..]))
  {
    assert s[0..] == s;
    if IsFractionTail(s) {
      var k :| 0 <= k <= |s| && AllDigits(s[..k]) && IsOptionalExponent(s[k..]);
      if 0 < k {
        assert s[..k][0] == s[0];
        assert s[1..][..k - 1] == s[..k][1..] && s[1..][k - 1..] == s[k..];
        DigitsStep(s[..k]);
      }
    }
    if IsOptionalExponent(s) {
      assert AllDigits(s[..0]) && s[0..] == s;
    }
    if IsDigit(s[0]) && IsFractionTail(s[1..]) {
      var k :| 0 <= k <= |s| - 1 && AllDigits(s[1..][..k]) && IsOptionalExponent(s[1..][k..]);
      assert s[..k + 1][1..] == s[1..][..k] && s[k + 1..] == s[1..][k..];
      DigitsStep(s[..k + 1]);
    }
  }

  lemma IntTailStep(s: string)
    requires s != []
    ensures IsIntTail(s) <==> IsOptionalFractionAndExponent(s) || (IsDigit(s[0]) && IsIntTail(s[1..]))
  {
    assert s[0..] == s;
    if IsIntTail(s) {
      var k :| 0 <= k <= |s| && AllDigits(s[..k]) && IsOptionalFractionAndExponent(s[k..]);
      if 0 < k {
        assert s[..k][0] == s[0];
        assert s[1..][..k - 1] == s[..k][1..] && s[1..][k - 1..] == s[k..];
        DigitsStep(s[..k]);
      }
    }
    if IsOptionalFractionAndExponent(s) {
      assert AllDigits(s[..0]) && s[0..] == s;
    }
    if IsDigit(s[0]) && IsIntTail(s[1..]) {
      var k :| 0 <= k <= |s| - 1 && AllDigits(s[1..][..k]) && IsOptionalFractionAndExponent(s[1..][k..]);
      assert s[..k + 1][1..] == s[1..][..k] && s[k + 1..] == s[1..][k..];
      DigitsStep(s[..k + 1]);
    }
  }

  lemma CompletesEmpty(q: State)
    ensures Completes(q, []) <==> Accepting(q)
  {
    var none: string := [];
    assert none[..0] == none && none[0..] == none;
    assert AllDigits(none[..0]) && IsOptionalExponent(none[0..]) && IsOptionalFractionAndExponent(none[0..]);
  }

  lemma CompletesStep(q: State, s: string)
    requires s != []
    ensures Completes(q, s) <==> Next(q, s[0]).Some? && Completes(Next(q, s[0]).value, s[1..])
  {
    DigitsStep(s);
    match q
    case Decimal2 => FractionTailStep(s);
    case Any1 => IntTailStep(s);
    case _ =>
  }

  /** The automaton accepts exactly the completions of each state; from Init, exactly the numbers. */
  lemma {:induction false} AcceptsIffCompletes(q: State, s: string)
    ensures Accepts(q, s) <==> Completes(q, s)
    decreases |s|
  {
    if s == [] {
      CompletesEmpty(q);
    } else {
      CompletesStep(q, s);
      if Next(q, s[0]).Some? {
        AcceptsIffCompletes(Next(q, s[0]).value, s[1..]);
      }
    }
  }

  lemma {:induction false} RunAppend(q: State, s: string, t: string)
    ensures Run(q, s + t) == match Run(q, s) { case None => None case Some(r) => Run(r, t) }
    decreases |s|
  {
    if s == [] {
      assert s + t == t;
    } else {
      assert (s + t)[0] == s[0] && (s + t)[1..] == s[1..] + t;
      if Next(q, s[0]).Some? {
        RunAppend(Next(q, s[0]).value, s[1..], t);
      }
    }
  }

  lemma RunSnoc(s: string, c: char)
    requires Run(Init, s).Some?
    ensures Run(Init, s + [c]) == Next(Run(Init, s).value, c)
  {
    RunAppend(Init, s, [c]);
    assert [c][1..] == [];
  }

  // --- what can still become a number ---

  /** Some number starts with s. */
  ghost predicate Viable(s: string) {
    exists rest: string :: IsNumber(s + rest)
  }

  /** p is the longest text at the start of s that is part of a number. */
  ghost predicate LongestViable(p: string, s: string) {
    p <= s && Viable(p) && forall longer: string :: p < longer <= s ==> !Viable(longer)
  }

  /** p is the longest text at the start of s that is a number. */
  ghost predicate LongestNumber(p: string, s: string) {
    p <= s && IsNumber(p) && forall longer: string :: p < longer <= s ==> !IsNumber(longer)
  }

  /** The shortest text that completes a number from each state. */
  function Completion(q: State): string {
    if Accepting(q) then "" else "0"
  }

  /** The automaton runs on exactly the texts that some number starts with. */
  lemma RunsIffViable(s: string)
    ensures Run(Init, s).Some? <==> Viable(s)
  {
    if Run(Init, s).Some? {
      var rest := Completion(Run(Init, s).value);
      RunAppend(Init, s, rest);
      assert "0"[1..] == "";
      AcceptsIffCompletes(Init, s + rest);
    }
    if Viable(s) {
      var rest :| IsNumber(s + rest);
      AcceptsIffCompletes(Init, s + rest);
      RunAppend(Init, s, rest);
    }
  }

  /** Where the automaton stops, the text read is the longest viable one. */
  lemma StuckMeansLongest(p: string, s: string)
    requires p <= s && Run(Init, p).Some?
    requires |p| < |s| ==> Next(Run(Init, p).value, s[|p|]).None?
    ensures LongestViable(p, s)
    ensures IsNumber(p) <==> Accepting(Run(Init, p).value)
  {
    RunsIffViable(p);
    AcceptsIffCompletes(Init, p);
    forall longer: string | p < longer <= s
      ensures !Viable(longer)
    {
      var rest := longer[|p|..];
      assert longer == p + rest && rest[0] == s[|p|];
      RunAppend(Init, p, rest);
      RunsIffViable(longer);
    }
  }

  lemma LongestViableNumber(p: string, s: string)
    requires LongestViable(p, s) && IsNumber(p)
    ensures LongestNumber(p, s)
  {
    forall longer: string | p < longer <= s
      ensures !IsNumber(longer)
    {
      if IsNumber(longer) {
        assert longer + "" == longer;
        assert IsNumber(longer + "");
        assert Viable(longer);
      }
    }
  }

  lemma OneRead(q: State, s: string, rest: string)
    requires s != [] && rest == s[1..] && Next(q, s[0]).Some?
    ensures Accepts(q, s) <==> Accepts(Next(q, s[0]).value, rest)
  {
  }

  lemma NothingLeft(q: State)
    ensures Accepts(q, "") <==> Accepting(q)
  {
  }

  /** Numbers of section 6 of RFC 8259. */
  lemma StandardNumbers()
    ensures IsNumber("-0") && IsNumber("10") && IsNumber("1E+5") && IsNumber("0.5e-1")
  {
    hide Accepts, IsNumber;
    NothingLeft(Zero);
    NothingLeft(Any1);
    NothingLeft(Any2);
    OneRead(Minus, "0", "");
    OneRead(Init, "-0", "0");
    OneRead(Any1, "0", "");
    OneRead(Init, "10", "0");
    OneRead(Sign, "5", "");
    OneRead(Exponent, "+5", "5");
    OneRead(Any1, "E+5", "+5");
    OneRead(Init, "1E+5", "E+5");
    OneRead(Sign, "1", "");
    OneRead(Exponent, "-1", "1");
    OneRead(Decimal2, "e-1", "-1");
    OneRead(Decimal1, "5e-1", "e-1");
    OneRead(Zero, ".5e-1", "5e-1");
    OneRead(Init, "0.5e-1", ".5e-1");
    AcceptsIffCompletes(Init, "-0");
    AcceptsIffCompletes(Init, "10");
    AcceptsIffCompletes(Init, "1E+5");
    AcceptsIffCompletes(Init, "0.5e-1");
  }

  /** Texts that are none. */
  lemma NoNumbers()
    ensures !IsNumber("") && !IsNumber("-") && !IsNumber("01") && !IsNumber("+1") && !IsNumber(".5") && !IsNumber("1.")
    ensures !IsNumber("1e") && !IsNumber("0x1") && !IsNumber("1e+") && !IsNumber("1.e5")
  {
    hide IsNumber;
    AcceptsIffCompletes(Init, "");
    AcceptsIffCompletes(Init, "-");
    AcceptsIffCompletes(Init, "01");
    AcceptsIffCompletes(Init, "+1");
    AcceptsIffCompletes(Init, ".5");
    AcceptsIffCompletes(Init, "1.");
    AcceptsIffCompletes(Init, "1e");
    AcceptsIffCompletes(Init, "0x1");
    AcceptsIffCompletes(Init, "1e+");
    AcceptsIffCompletes(Init, "1.e5");
  }
}
