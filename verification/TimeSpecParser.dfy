/**
 Parsing and printing of time specs: the grammar of parse_time_spec.y as recursive descent over its tokens,
 parseTimeSpec, and ParseFullTimeSpec.
 */
module TimeSpecParsers {
  import opened Wrappers
  import opened Decimal
  import opened TimeSpecs
  import opened TimeSpecExps
  import opened TimeSpecLexers

  // ---------- Grammar ----------

  /** enum_set_exp_tail: one or more of a comma and a number. */
  function ParseEnumTail(tokens: seq<Token>): Option<seq<nat>> {
    if |tokens| < 2 || !tokens[0].Comma? || !tokens[1].IntToken? then None
    else if |tokens| == 2 then Some([tokens[1].nbr])
    else
      var rest := ParseEnumTail(tokens[2..]);
      if rest.None? then None else Some([tokens[1].nbr] + rest.value)
  }

  function ParseSetExp(tokens: seq<Token>): Option<SetExp> {
    if |tokens| == 2 && tokens[0].StarSlash? && tokens[1].IntToken? then Some(StepSetExp(tokens[1].nbr))
    else if |tokens| == 3 && tokens[0].IntToken? && tokens[1].Dash? && tokens[2].IntToken? then
      Some(RangeSetExp(tokens[0].nbr, tokens[2].nbr))
    else if tokens != [] && tokens[0].IntToken? then
      var rest := ParseEnumTail(tokens[1..]);
      if rest.None? then None else Some(EnumSetExp([tokens[0].nbr] + rest.value))
    else None
  }

  function ParseTop(tokens: seq<Token>): Option<TimeSpecExp> {
    if |tokens| == 1 && tokens[0].IntToken? then Some(OneValTimeSpecExp(tokens[0].nbr))
    else if tokens == [Star] then Some(WildcardTimeSpecExp)
    else if tokens == [Rand] then Some(RandomTimeSpecExp(AnySetExp))
    else if tokens != [] && tokens[0].Rand? then
      var setExp := ParseSetExp(tokens[1..]);
      if setExp.None? then None else Some(RandomTimeSpecExp(setExp.value))
    else
      var setExp := ParseSetExp(tokens);
      if setExp.None? then None else Some(SetTimeSpecExp(setExp.value))
  }

  /** What parsing a field comes to; it may not come to an end. */
  datatype ParseResult<T> = Accepted(value: T) | Refused | NeverReturns

  function ParseExp(s: string): Option<TimeSpecExp> {
    ParseTop(Tokens(s))
  }

  function ParseTimeSpec(s: string, min: int, max: int): ParseResult<TimeSpec> {
    var e := ParseExp(s);
    if e.None? then Refused
    else
      match EvalExp(e.value, min, max)
      case Evaluated(spec) => Accepted(spec)
      case Invalid(_) => Refused
      case Diverges => NeverReturns
  }

  // ---------- The tokens of a printed spec ----------

  function EnumTail(ints: seq<nat>): seq<Token> {
    if ints == [] then [] else [Comma, IntToken(ints[0])] + EnumTail(ints[1..])
  }

  function EnumTokens(ints: seq<nat>): seq<Token> {
    if ints == [] then [] else [IntToken(ints[0])] + EnumTail(ints[1..])
  }

  ghost predicate SmallInts(ints: seq<nat>) {
    forall i | 0 <= i < |ints| :: ints[i] <= MAX_INT64
  }

  lemma TokensCons(token: Token, s: string, rest: string)
    requires LexStep(s) == (token, rest) && !token.Eof?
    ensures Tokens(s) == [token] + Tokens(rest)
  {
  }

  lemma NumberTokens(n: nat, rest: string)
    requires n <= MAX_INT64 && (rest == [] || rest[0] in ",-")
    ensures Tokens(NatText(n) + rest) == [IntToken(n)] + Tokens(rest)
  {
    PrintedNumber(n, rest);
    TokensCons(IntToken(n), NatText(n) + rest, rest);
  }

  lemma NoTokens()
    ensures Tokens("") == []
  {
  }

  lemma {:induction false} EnumPrinted(ints: seq<nat>)
    requires ints != [] && SmallInts(ints)
    ensures Tokens(JoinInts(ints)) == EnumTokens(ints)
  {
    if |ints| == 1 {
      NoTokens();
      assert NatText(ints[0]) + "" == NatText(ints[0]);
      NumberTokens(ints[0], "");
    } else {
      EnumStep(ints);
      hide *;
      EnumPrinted(ints[1..]);
      NumberCommaTokens(ints[0], JoinInts(ints[1..]));
    }
  }

  lemma EnumStep(ints: seq<nat>)
    requires |ints| > 1 && SmallInts(ints)
    ensures SmallInts(ints[1..]) && ints[0] <= MAX_INT64
    ensures JoinInts(ints) == NatText(ints[0]) + "," + JoinInts(ints[1..])
    ensures EnumTokens(ints) == [IntToken(ints[0]), Comma] + EnumTokens(ints[1..])
  {
    var t := ints[1..];
    var rest := EnumTail(t[1..]);
    assert EnumTokens(t) == [IntToken(t[0])] + rest;
    assert EnumTail(t) == [Comma, IntToken(t[0])] + rest;
    RegroupTokens(IntToken(ints[0]), IntToken(t[0]), rest);
  }

  lemma RegroupTokens(a: Token, b: Token, rest: seq<Token>)
    ensures [a] + ([Comma, b] + rest) == [a, Comma] + ([b] + rest)
  {
  }

  lemma NumberCommaTokens(n: nat, tail: string)
    requires n <= MAX_INT64
    ensures Tokens(NatText(n) + "," + tail) == [IntToken(n), Comma] + Tokens(tail)
  {
    var rest := "," + tail;
    assert rest[1..] == tail;
    assert LexStep(rest) == (Comma, tail);
    TokensCons(Comma, rest, tail);
    assert NatText(n) + rest == NatText(n) + "," + tail;
    NumberTokens(n, rest);
  }

  /** The tokens of a set expression's text. */
  function SetTokens(e: SetExp): seq<Token> {
    match e
    case StepSetExp(step) => [StarSlash, IntToken(step)]
    case EnumSetExp(ints) => EnumTokens(NatValues(ints))
    case RangeSetExp(start, end) => [IntToken(start), Dash, IntToken(end)]
    case AnySetExp => []
  }

  /** The distinct values of an enumeration, as naturals. */
  function NatValues(ints: seq<nat>): (r: seq<nat>)
    ensures r == NormValues(ints)
  {
    NormValuesSorted(ints);
    assert forall i | 0 <= i < |NormValues(ints)| :: NormValues(ints)[i] in NormValues(ints);
    NormValues(ints)
  }

  /** All numbers of an expression are ones the lexer can return. */
  ghost predicate SmallExp(e: SetExp) {
    match e
    case StepSetExp(step) => step <= MAX_INT64
    case EnumSetExp(ints) => ints != [] && SmallInts(ints)
    case RangeSetExp(start, end) => start <= MAX_INT64 && end <= MAX_INT64
    case AnySetExp => true
  }

  lemma NatValuesSmall(ints: seq<nat>)
    requires ints != [] && SmallInts(ints)
    ensures NatValues(ints) != [] && SmallInts(NatValues(ints))
  {
    NormValuesSorted(ints);
    assert ints[0] in NormValues(ints);
    assert forall i | 0 <= i < |NatValues(ints)| :: NatValues(ints)[i] in ints;
  }

  lemma SetPrinted(e: SetExp)
    requires SmallExp(e)
    ensures Tokens(e.ToString()) == SetTokens(e)
  {
    NoTokens();
    match e
    case StepSetExp(step) =>
      var text := NatText(step);
      assert ("*/" + text)[1..] == "/" + text && ("/" + text)[1..] == text;
      TokensCons(StarSlash, "*/" + text, text);
      assert text + "" == text;
      NumberTokens(step, "");
    case EnumSetExp(ints) =>
      NatValuesSmall(ints);
      EnumPrinted(NatValues(ints));
    case RangeSetExp(start, end) =>
      var text := NatText(end);
      var rest := "-" + text;
      assert rest[1..] == text;
      assert NatText(start) + rest == e.ToString();
      NumberTokens(start, rest);
      TokensCons(Dash, rest, text);
      assert text + "" == text;
      NumberTokens(end, "");
    case AnySetExp =>
  }

  lemma RandPrinted(e: SetExp)
    requires SmallExp(e)
    ensures Tokens("R" + e.ToString()) == [Rand] + SetTokens(e)
  {
    SetPrinted(e);
    assert ("R" + e.ToString())[1..] == e.ToString();
    TokensCons(Rand, "R" + e.ToString(), e.ToString());
  }

  // ---------- Reading the printed tokens ----------

  lemma {:induction false} EnumTailParsed(ints: seq<nat>)
    requires ints != []
    ensures ParseEnumTail(EnumTail(ints)) == Some(ints)
  {
    var tokens := EnumTail(ints);
    assert [ints[0]] + ints[1..] == ints;
    assert tokens[2..] == EnumTail(ints[1..]);
    if |ints| > 1 {
      EnumTailParsed(ints[1..]);
    } else {
      assert ints == [ints[0]];
    }
  }

  /** A printed enumeration is read as one if it has two values or more; with one it is no set expression. */
  lemma EnumParsed(ints: seq<nat>)
    requires ints != []
    ensures ParseSetExp(EnumTokens(ints)) == if |ints| == 1 then None else Some(EnumSetExp(ints))
  {
    var tokens := EnumTokens(ints);
    assert tokens[1..] == EnumTail(ints[1..]);
    if |ints| > 1 {
      EnumTailParsed(ints[1..]);
      assert [ints[0]] + ints[1..] == ints;
      assert tokens[1] == Comma;
    }
  }

  /** How the text of a set expression is read on its own. */
  function Reread(e: SetExp): Option<SetExp> {
    match e
    case EnumSetExp(ints) => if |NatValues(ints)| == 1 then None else Some(EnumSetExp(NatValues(ints)))
    case AnySetExp => None
    case _ => Some(e)
  }

  lemma SetParsed(e: SetExp)
    requires SmallExp(e)
    ensures ParseSetExp(SetTokens(e)) == Reread(e)
  {
    if e.EnumSetExp? {
      NatValuesSmall(e.ints);
      EnumParsed(NatValues(e.ints));
    }
  }

  // ---------- Numbers stay small ----------

  ghost predicate SmallTokens(tokens: seq<Token>) {
    forall i | 0 <= i < |tokens| :: tokens[i].IntToken? ==> tokens[i].nbr <= MAX_INT64
  }

  lemma {:induction false} TokensSmall(s: string)
    ensures SmallTokens(Tokens(s))
    decreases |s|
  {
    StepSmall(s);
    if !LexStep(s).0.Eof? {
      TokensSmall(LexStep(s).1);
    }
  }

  lemma {:induction false} StepSmall(s: string)
    ensures LexStep(s).0.IntToken? ==> LexStep(s).0.nbr <= MAX_INT64
  {
    if s != [] && (s[0] == ' ' || s[0] == '\t') {
      StepSmall(s[1..]);
    }
  }

  lemma {:induction false} EnumTailSmall(tokens: seq<Token>)
    requires SmallTokens(tokens) && ParseEnumTail(tokens).Some?
    ensures SmallInts(ParseEnumTail(tokens).value)
  {
    if |tokens| > 2 {
      EnumTailSmall(tokens[2..]);
    }
  }

  lemma SetExpSmall(tokens: seq<Token>)
    requires SmallTokens(tokens) && ParseSetExp(tokens).Some?
    ensures SmallExp(ParseSetExp(tokens).value) && !ParseSetExp(tokens).value.AnySetExp?
  {
    if ParseSetExp(tokens).value.EnumSetExp? {
      EnumTailSmall(tokens[1..]);
    }
  }

  /** Expressions the parser can return. */
  ghost predicate Parseable(e: TimeSpecExp) {
    match e
    case OneValTimeSpecExp(val) => val <= MAX_INT64
    case WildcardTimeSpecExp => true
    case SetTimeSpecExp(setExp) => SmallExp(setExp) && !setExp.AnySetExp?
    case RandomTimeSpecExp(setExp) => SmallExp(setExp)
  }

  lemma ParsedIsParseable(s: string)
    requires ParseExp(s).Some?
    ensures Parseable(ParseExp(s).value)
  {
    TokensSmall(s);
    var tokens := Tokens(s);
    if tokens != [] && tokens[0].Rand? && |tokens| > 1 {
      SetExpSmall(tokens[1..]);
    } else if ParseSetExp(tokens).Some? {
      SetExpSmall(tokens);
    }
  }

  /**
   Trailing junk is accepted: a bad character ends the input for the parser, so that whatever follows a complete
   phrase goes unread.
   */
  lemma JunkAfterStar(c: char, rest: string)
    requires c !in ",-R*/ \t" && !IsDigit(c) && c != EOF_RUNE
    ensures ParseExp("*" + [c] + rest) == Some(WildcardTimeSpecExp)
  {
    var s, t := "*" + [c] + rest, [c] + rest;
    assert s[1..] == t;
    assert LexStep(s) == (Star, t);
    TokensCons(Star, s, t);
    assert Tokens(t) == [];
  }

  /** The tokens that yyParse gets from the lexer, up to the first end marker. */
  method ReadTokens(s: string) returns (tokens: seq<Token>)
    ensures tokens == Tokens(s)
  {
    var lex := new Lexer(s);
    tokens := [];
    while true
      invariant fresh(lex)
      invariant tokens + Tokens(lex.Rest()) == Tokens(s)
      decreases |lex.Rest()|
    {
      ghost var before := lex.Rest();
      var token := lex.Lex();
      if token == Eof {
        return;
      }
      assert tokens + ([token] + Tokens(lex.Rest())) == (tokens + [token]) + Tokens(lex.Rest());
      tokens := tokens + [token];
    }
  }

  // ---------- Round trip of one field ----------

  /** Alike in all that scheduling looks at. */
  ghost predicate SameMeaning(a: TimeSpec, b: TimeSpec) {
    && a.IsWildcard() == b.IsWildcard()
    && a.RandomTimeSpec? == b.RandomTimeSpec?
    && (forall v :: a.Allows(v) <==> b.Allows(v))
  }

  /** A random choice among listed values that are all the same one, as in "R5,5". */
  ghost predicate RandomOfOne(e: TimeSpecExp) {
    e.RandomTimeSpecExp? && e.setExp.EnumSetExp? && |NormValues(e.setExp.ints)| == 1
  }

  lemma NormTwice(ints: seq<nat>)
    ensures NormValues(NatValues(ints)) == NormValues(ints)
    ensures forall x :: x in NatValues(ints) <==> x in ints
  {
    NormValuesSorted(ints);
    NormValuesIdempotent(NormValues(ints));
  }

  /** A set expression read back from its text evaluates to the same values and prints the same. */
  lemma RereadEvaluates(e: SetExp, min: int, max: int)
    requires Reread(e).Some? && EvalSet(e, min, max).Evaluated?
    ensures EvalSet(Reread(e).value, min, max) == EvalSet(e, min, max)
    ensures Reread(e).value.ToString() == e.ToString()
  {
    if e.EnumSetExp? {
      NormTwice(e.ints);
      FirstOutsideIff(e.ints, min, max);
      FirstOutsideIff(NatValues(e.ints), min, max);
    }
  }

  lemma SetTop(tokens: seq<Token>)
    requires |tokens| > 1 && !tokens[0].Rand?
    ensures ParseTop(tokens) ==
            if ParseSetExp(tokens).None? then None else Some(SetTimeSpecExp(ParseSetExp(tokens).value))
  {
  }

  lemma SetTokensShape(e: SetExp)
    requires SmallExp(e) && !e.AnySetExp?
    ensures SetTokens(e) != [] && !SetTokens(e)[0].Rand?
    ensures |SetTokens(e)| == 1 <==> e.EnumSetExp? && |NatValues(e.ints)| == 1
    ensures |SetTokens(e)| == 1 ==> SetTokens(e) == [IntToken(NatValues(e.ints)[0])]
  {
  }

  /** How the text of a printed expression is parsed. */
  lemma PrintedSetParses(e: SetExp)
    requires SmallExp(e) && !e.AnySetExp?
    ensures ParseExp(e.ToString()) ==
            if Reread(e).Some? then Some(SetTimeSpecExp(Reread(e).value))
            else Some(OneValTimeSpecExp(NatValues(e.ints)[0]))
  {
    SetPrinted(e);
    SetTokensShape(e);
    SetParsed(e);
    if Reread(e).Some? {
      SetTop(SetTokens(e));
    }
  }

  lemma PrintedRandParses(e: SetExp)
    requires SmallExp(e)
    ensures ParseExp("R" + e.ToString()) ==
            if e.AnySetExp? then Some(RandomTimeSpecExp(AnySetExp))
            else if Reread(e).Some? then Some(RandomTimeSpecExp(Reread(e).value))
            else None
  {
    RandPrinted(e);
    var tokens := [Rand] + SetTokens(e);
    assert tokens[1..] == SetTokens(e);
    if e.AnySetExp? {
      assert tokens == [Rand];
    } else {
      SetTokensShape(e);
      SetParsed(e);
    }
  }

  lemma StarParses()
    ensures ParseExp("*") == Some(WildcardTimeSpecExp)
  {
  }

  lemma NumberParses(n: nat)
    requires n <= MAX_INT64
    ensures ParseExp(NatText(n)) == Some(OneValTimeSpecExp(n))
  {
    NoTokens();
    assert NatText(n) + "" == NatText(n);
    NumberTokens(n, "");
  }

  /**
   Main result for one field: printing an accepted spec, before any random choice, and parsing the text again gives a
   spec of the same meaning if and only if it is not a random choice among one listed value. In that case the text is
   refused.
   */
  lemma FieldRoundTrip(s: string, min: int, max: int)
    requires ParseTimeSpec(s, min, max).Accepted?
    ensures var spec := ParseTimeSpec(s, min, max).value;
            var again := ParseTimeSpec(spec.ToString(), min, max);
            && ((again.Accepted? && SameMeaning(again.value, spec)) <==> !RandomOfOne(ParseExp(s).value))
            && (RandomOfOne(ParseExp(s).value) ==> again == Refused)
  {
    ParsedIsParseable(s);
    ExpRoundTrip(ParseExp(s).value, min, max);
  }

  lemma ExpRoundTrip(e: TimeSpecExp, min: int, max: int)
    requires Parseable(e) && EvalExp(e, min, max).Evaluated?
    ensures var spec := EvalExp(e, min, max).value;
            var again := ParseTimeSpec(spec.ToString(), min, max);
            if RandomOfOne(e) then again == Refused else again.Accepted? && SameMeaning(again.value, spec)
  {
    match e
    case OneValTimeSpecExp(val) => NumberParses(val);
    case WildcardTimeSpecExp => StarParses();
    case SetTimeSpecExp(setExp) =>
      PrintedSetParses(setExp);
      if Reread(setExp).Some? {
        RereadEvaluates(setExp, min, max);
      } else {
        EvalDenotes(setExp, min, max);
        var v := NatValues(setExp.ints)[0];
        assert NormValues(setExp.ints) == [v];
        assert v in EvalSet(setExp, min, max).value;
      }
    case RandomTimeSpecExp(setExp) =>
      PrintedRandParses(setExp);
      if !setExp.AnySetExp? && Reread(setExp).Some? {
        RereadEvaluates(setExp, min, max);
      }
  }

  /** For instance "R5,5", which is printed as "R5". */
  lemma RandomOfOneExample()
    ensures ParseExp("R5,5") == Some(RandomTimeSpecExp(EnumSetExp([5, 5])))
    ensures RandomOfOne(RandomTimeSpecExp(EnumSetExp([5, 5])))
  {
    FiveFiveTokens();
    FiveFiveParses();
    FiveFiveValues();
    hide *;
    ParseTopOfRand([IntToken(5), Comma, IntToken(5)]);
    ParseExpIs("R5,5");
  }

  lemma ParseExpIs(s: string)
    ensures ParseExp(s) == ParseTop(Tokens(s))
  {
  }

  lemma ParseTopOfRand(tokens: seq<Token>)
    requires tokens != [] && ParseSetExp(tokens).Some?
    ensures ParseTop([Rand] + tokens) == Some(RandomTimeSpecExp(ParseSetExp(tokens).value))
  {
  }

  lemma FiveFiveParses()
    ensures ParseSetExp([IntToken(5), Comma, IntToken(5)]) == Some(EnumSetExp([5, 5]))
  {
    var tokens := [IntToken(5), Comma, IntToken(5)];
    assert ParseEnumTail(tokens[1..]) == Some([5]);
    assert [5 as nat] + [5] == [5, 5];
  }

  lemma FiveFiveValues()
    ensures RandomOfOne(RandomTimeSpecExp(EnumSetExp([5, 5])))
  {
  }

  lemma FiveFiveTokens()
    ensures Tokens("R5,5") == [Rand] + [IntToken(5), Comma, IntToken(5)]
  {
    NoTokens();
    assert NatText(5) == "5";
    assert LexStep("R5,5") == (Rand, "5,5");
    hide LexStep, Tokens, NatText;
    TokensCons(Rand, "R5,5", "5,5");
    assert NatText(5) + "," + "5" == "5,5";
    NumberCommaTokens(5, "5");
    assert NatText(5) + "" == "5";
    NumberTokens(5, "");
  }

  // ---------- The whole spec ----------

  predicate IsFieldSpace(c: char) {
    c in "\t\n\r " || c as int in {0x0b, 0x0c}
  }

  /** strings.Fields: the stretches between white space, the current one having begun with begun. */
  function FieldsFrom(s: string, begun: string): seq<string> {
    if s == [] then (if begun == [] then [] else [begun])
    else if IsFieldSpace(s[0]) then (if begun == [] then [] else [begun]) + FieldsFrom(s[1..], [])
    else FieldsFrom(s[1..], begun + [s[0]])
  }

  function Fields(s: string): seq<string> {
    FieldsFrom(s, "")
  }

  /** The spec of field i, which is a wildcard if it is not given. */
  function FieldOr(parts: seq<string>, i: nat, min: int, max: int): ParseResult<TimeSpec> {
    if i < |parts| then ParseTimeSpec(parts[i], min, max) else Accepted(WildcardTimeSpec)
  }

  function FirstFailure(results: seq<ParseResult<TimeSpec>>): ParseResult<FullTimeSpec>
    requires exists i | 0 <= i < |results| :: !results[i].Accepted?
  {
    if results[0] == Refused then Refused
    else if results[0] == NeverReturns then NeverReturns
    else FirstFailure(results[1..])
  }

  function FieldResults(parts: seq<string>): (results: seq<ParseResult<TimeSpec>>)
    ensures |results| == 6
  {
    [FieldOr(parts, 0, 0, 59), FieldOr(parts, 1, 0, 59), FieldOr(parts, 2, 0, 23),
     FieldOr(parts, 3, 1, 31), FieldOr(parts, 4, 1, 12), FieldOr(parts, 5, 0, 6)]
  }

  function ParseParts(parts: seq<string>): ParseResult<FullTimeSpec> {
    var r := FieldResults(parts);
    if exists i | 0 <= i < 6 :: !r[i].Accepted? then FirstFailure(r)
    else if |parts| > 6 then Refused
    else Accepted(FullTimeSpec(r[0].value, r[1].value, r[2].value, r[3].value, r[4].value, r[5].value))
  }

  function ParseFull(s: string): ParseResult<FullTimeSpec> {
    ParseParts(Fields(s))
  }

  lemma {:induction false} FieldsWord(word: string, rest: string, begun: string)
    requires forall i | 0 <= i < |word| :: !IsFieldSpace(word[i])
    ensures FieldsFrom(word + rest, begun) == FieldsFrom(rest, begun + word)
  {
    if word == [] {
      assert word + rest == rest && begun + word == begun;
    } else {
      assert (word + rest)[1..] == word[1..] + rest;
      FieldsWord(word[1..], rest, begun + [word[0]]);
      assert begun + [word[0]] + word[1..] == begun + word;
    }
  }

  /** A text that stands as one field. */
  ghost predicate IsWord(s: string) {
    s != [] && forall i | 0 <= i < |s| :: !IsFieldSpace(s[i])
  }

  lemma FieldsCons(word: string, rest: string)
    requires IsWord(word)
    ensures Fields(word + " " + rest) == [word] + Fields(rest)
  {
    assert word + " " + rest == word + (" " + rest);
    FieldsWord(word, " " + rest, "");
    assert "" + word == word && (" " + rest)[1..] == rest;
  }

  /** White space of any kind and amount separates fields, and does nothing else. */
  lemma FieldsSeparated(word: string, c: char, rest: string)
    requires IsWord(word) && (c in "\t\n\r " || c as int == 0x0b || c as int == 0x0c)
    ensures Fields(word + [c] + rest) == [word] + Fields(rest)
    ensures Fields([c] + rest) == Fields(rest)
  {
    assert word + [c] + rest == word + ([c] + rest);
    FieldsWord(word, [c] + rest, "");
    assert "" + word == word && ([c] + rest)[1..] == rest;
  }

  lemma FieldsOne(word: string)
    requires IsWord(word)
    ensures Fields(word) == [word]
  {
    assert word + "" == word && "" + word == word;
    FieldsWord(word, "", "");
  }

  lemma FieldsSix(a: string, b: string, c: string, d: string, e: string, f: string)
    requires IsWord(a) && IsWord(b) && IsWord(c) && IsWord(d) && IsWord(e) && IsWord(f)
    ensures Fields(a + " " + b + " " + c + " " + d + " " + e + " " + f) == [a, b, c, d, e, f]
  {
    var r4 := e + " " + f;
    var r3 := d + " " + r4;
    var r2 := c + " " + r3;
    var r1 := b + " " + r2;
    assert a + " " + b + " " + c + " " + d + " " + e + " " + f == a + " " + r1;
    FieldsCons(a, r1);
    FieldsCons(b, r2);
    FieldsCons(c, r3);
    FieldsCons(d, r4);
    FieldsCons(e, f);
    FieldsOne(f);
  }

  // Printed specs are words.

  lemma NumberIsWord(n: nat)
    ensures IsWord(NatText(n))
  {
  }

  lemma WordConcat(a: string, b: string)
    requires IsWord(a) && IsWord(b)
    ensures IsWord(a + b)
  {
  }

  lemma {:induction false} JoinIsWord(ints: seq<nat>)
    requires ints != []
    ensures IsWord(JoinInts(ints))
  {
    NumberIsWord(ints[0]);
    if |ints| > 1 {
      JoinIsWord(ints[1..]);
      WordConcat(NatText(ints[0]), ",");
      WordConcat(NatText(ints[0]) + ",", JoinInts(ints[1..]));
    }
  }

  lemma SetIsWord(e: SetExp)
    requires SmallExp(e) && !e.AnySetExp?
    ensures IsWord(e.ToString())
  {
    match e
    case StepSetExp(step) =>
      NumberIsWord(step);
      WordConcat("*/", NatText(step));
    case EnumSetExp(ints) =>
      NatValuesSmall(ints);
      JoinIsWord(NatValues(ints));
    case RangeSetExp(start, end) =>
      NumberIsWord(start);
      NumberIsWord(end);
      WordConcat(NatText(start), "-");
      WordConcat(NatText(start) + "-", NatText(end));
  }

  lemma PrintedIsWord(e: TimeSpecExp, min: int, max: int)
    requires Parseable(e) && EvalExp(e, min, max).Evaluated?
    ensures IsWord(EvalExp(e, min, max).value.ToString())
  {
    match e
    case OneValTimeSpecExp(val) => NumberIsWord(val);
    case WildcardTimeSpecExp =>
    case SetTimeSpecExp(setExp) => SetIsWord(setExp);
    case RandomTimeSpecExp(setExp) =>
      if setExp.AnySetExp? {
        assert "R" + "" == "R";
      } else {
        SetIsWord(setExp);
        WordConcat("R", setExp.ToString());
      }
  }

  /** The text of a field's spec is accepted again, with the same meaning. */
  ghost predicate FieldReadsBack(spec: TimeSpec, min: int, max: int) {
    && ParseTimeSpec(spec.ToString(), min, max).Accepted?
    && SameMeaning(ParseTimeSpec(spec.ToString(), min, max).value, spec)
  }

  ghost predicate IsRandomOfOne(part: string) {
    ParseExp(part).Some? && RandomOfOne(ParseExp(part).value)
  }

  lemma FieldOrReadsBack(parts: seq<string>, i: nat, min: int, max: int)
    requires FieldOr(parts, i, min, max).Accepted?
    ensures var spec := FieldOr(parts, i, min, max).value;
            && IsWord(spec.ToString())
            && (FieldReadsBack(spec, min, max) <==> !(i < |parts| && IsRandomOfOne(parts[i])))
            && (!FieldReadsBack(spec, min, max) ==> !ParseTimeSpec(spec.ToString(), min, max).Accepted?)
  {
    if i < |parts| {
      ParsedIsParseable(parts[i]);
      ExpRoundTrip(ParseExp(parts[i]).value, min, max);
      PrintedIsWord(ParseExp(parts[i]).value, min, max);
    } else {
      StarParses();
    }
  }

  ghost predicate SameFullMeaning(a: FullTimeSpec, b: FullTimeSpec) {
    SameMeaning(a.sec, b.sec) && SameMeaning(a.min, b.min) && SameMeaning(a.hour, b.hour) &&
    SameMeaning(a.monthDay, b.monthDay) && SameMeaning(a.mon, b.mon) && SameMeaning(a.wday, b.wday)
  }

  /**
   Main result for whole specs: the six printed fields of an accepted spec are accepted, with the same meaning, if and
   only if no given field is a random choice among one listed value.
   */
  lemma FullRoundTrip(s: string)
    requires ParseFull(s).Accepted?
    ensures var again := ParseFull(ParseFull(s).value.ToString());
            (again.Accepted? && SameFullMeaning(again.value, ParseFull(s).value))
            <==> forall i | 0 <= i < |Fields(s)| :: !IsRandomOfOne(Fields(s)[i])
  {
    var parts, spec := Fields(s), ParseFull(s).value;
    AcceptedFields(parts);
    EachReadsBackIff(parts, spec);
    hide ParseTimeSpec, SameMeaning, Fields, IsRandomOfOne, EachIsWord;
    if EachReadsBack(spec) {
      SixFieldsReadBack(spec);
    } else if ParseFull(spec.ToString()).Accepted? {
      AcceptedSix(spec);
    }
  }

  lemma EachReadsBackIff(parts: seq<string>, spec: FullTimeSpec)
    requires |parts| <= 6 && forall i | 0 <= i < 6 :: FieldResults(parts)[i].Accepted?
    requires FieldResults(parts) == [Accepted(spec.sec), Accepted(spec.min), Accepted(spec.hour),
                                     Accepted(spec.monthDay), Accepted(spec.mon), Accepted(spec.wday)]
    ensures EachIsWord(spec)
    ensures EachReadsBack(spec) <==> forall i | 0 <= i < |parts| :: !IsRandomOfOne(parts[i])
    ensures !EachReadsBack(spec) ==>
              !(&& ParseTimeSpec(spec.sec.ToString(), 0, 59).Accepted?
                && ParseTimeSpec(spec.min.ToString(), 0, 59).Accepted?
                && ParseTimeSpec(spec.hour.ToString(), 0, 23).Accepted?
                && ParseTimeSpec(spec.monthDay.ToString(), 1, 31).Accepted?
                && ParseTimeSpec(spec.mon.ToString(), 1, 12).Accepted?
                && ParseTimeSpec(spec.wday.ToString(), 0, 6).Accepted?)
  {
    hide ParseTimeSpec, SameMeaning, IsWord, IsRandomOfOne;
    FieldOrReadsBack(parts, 0, 0, 59);
    FieldOrReadsBack(parts, 1, 0, 59);
    FieldOrReadsBack(parts, 2, 0, 23);
    FieldOrReadsBack(parts, 3, 1, 31);
    FieldOrReadsBack(parts, 4, 1, 12);
    FieldOrReadsBack(parts, 5, 0, 6);
    hide FieldReadsBack;
  }

  ghost predicate EachIsWord(spec: FullTimeSpec) {
    IsWord(spec.sec.ToString()) && IsWord(spec.min.ToString()) && IsWord(spec.hour.ToString()) &&
    IsWord(spec.monthDay.ToString()) && IsWord(spec.mon.ToString()) && IsWord(spec.wday.ToString())
  }

  ghost predicate EachReadsBack(spec: FullTimeSpec) {
    && FieldReadsBack(spec.sec, 0, 59) && FieldReadsBack(spec.min, 0, 59) && FieldReadsBack(spec.hour, 0, 23)
    && FieldReadsBack(spec.monthDay, 1, 31) && FieldReadsBack(spec.mon, 1, 12) && FieldReadsBack(spec.wday, 0, 6)
  }

  function Texts(spec: FullTimeSpec): seq<string> {
    [spec.sec.ToString(), spec.min.ToString(), spec.hour.ToString(),
     spec.monthDay.ToString(), spec.mon.ToString(), spec.wday.ToString()]
  }

  lemma PrintedParts(spec: FullTimeSpec)
    requires EachIsWord(spec)
    ensures Fields(spec.ToString()) == Texts(spec)
  {
    hide Fields, IsWord;
    FieldsSix(spec.sec.ToString(), spec.min.ToString(), spec.hour.ToString(),
              spec.monthDay.ToString(), spec.mon.ToString(), spec.wday.ToString());
  }

  /** A printed spec is accepted only if each of its fields is. */
  lemma AcceptedSix(spec: FullTimeSpec)
    requires EachIsWord(spec) && ParseFull(spec.ToString()).Accepted?
    ensures ParseTimeSpec(spec.sec.ToString(), 0, 59).Accepted? && ParseTimeSpec(spec.min.ToString(), 0, 59).Accepted?
    ensures ParseTimeSpec(spec.hour.ToString(), 0, 23).Accepted?
    ensures ParseTimeSpec(spec.monthDay.ToString(), 1, 31).Accepted?
    ensures ParseTimeSpec(spec.mon.ToString(), 1, 12).Accepted? && ParseTimeSpec(spec.wday.ToString(), 0, 6).Accepted?
  {
    PrintedParts(spec);
    AcceptedFields(Texts(spec));
    hide ParseTimeSpec, Fields, IsWord, ParseParts;
    var r := FieldResults(Texts(spec));
    assert r[0].Accepted? && r[1].Accepted? && r[2].Accepted? && r[3].Accepted? && r[4].Accepted? && r[5].Accepted?;
  }

  lemma SixFieldsReadBack(spec: FullTimeSpec)
    requires EachIsWord(spec) && EachReadsBack(spec)
    ensures ParseFull(spec.ToString()).Accepted? && SameFullMeaning(ParseFull(spec.ToString()).value, spec)
  {
    PrintedParts(spec);
    hide ParseTimeSpec, SameMeaning, Fields, IsWord, ParseParts;
    SixAccepted(spec.sec.ToString(), spec.min.ToString(), spec.hour.ToString(),
                spec.monthDay.ToString(), spec.mon.ToString(), spec.wday.ToString());
  }

  lemma SixAccepted(a: string, b: string, c: string, d: string, e: string, f: string)
    requires ParseTimeSpec(a, 0, 59).Accepted? && ParseTimeSpec(b, 0, 59).Accepted? && ParseTimeSpec(c, 0, 23).Accepted?
    requires ParseTimeSpec(d, 1, 31).Accepted? && ParseTimeSpec(e, 1, 12).Accepted? && ParseTimeSpec(f, 0, 6).Accepted?
    ensures ParseParts([a, b, c, d, e, f]) == Accepted(FullTimeSpec(
      ParseTimeSpec(a, 0, 59).value, ParseTimeSpec(b, 0, 59).value, ParseTimeSpec(c, 0, 23).value,
      ParseTimeSpec(d, 1, 31).value, ParseTimeSpec(e, 1, 12).value, ParseTimeSpec(f, 0, 6).value))
  {
    hide ParseTimeSpec;
    var r := FieldResults([a, b, c, d, e, f]);
    assert forall i | 0 <= i < 6 :: r[i].Accepted?;
  }

  /** A field is given whose step overflows. */
  ghost predicate OverflowsAt(parts: seq<string>, i: nat, min: int) {
    i < |parts| && ParseExp(parts[i]).Some? && ExpOverflows(ParseExp(parts[i]).value, min)
  }

  /**
   Every accepted spec names, in every field, at least one value of the field and no other, if and only if neither the
   month day nor the month is a step that overflows; the other fields cannot.
   */
  lemma AcceptedIsWithin(s: string)
    requires ParseFull(s).Accepted?
    ensures ParseFull(s).value.Within() <==> !OverflowsAt(Fields(s), 3, 1) && !OverflowsAt(Fields(s), 4, 1)
  {
    var parts := Fields(s);
    AcceptedFields(parts);
    assert forall i | 0 <= i < 6 :: FieldResults(parts)[i].Accepted?;
    hide ParseTimeSpec, TimeSpec.Within, Fields, ExpOverflows;
    FieldOrWithin(parts, 0, 0, 59);
    FieldOrWithin(parts, 1, 0, 59);
    FieldOrWithin(parts, 2, 0, 23);
    FieldOrWithin(parts, 3, 1, 31);
    FieldOrWithin(parts, 4, 1, 12);
    FieldOrWithin(parts, 5, 0, 6);
  }

  /** The field at a position stands for what is written there, or for everything if nothing is. */
  ghost predicate FieldStandsFor(spec: TimeSpec, parts: seq<string>, i: nat, min: int, max: int) {
    if i < |parts| then ParseExp(parts[i]).Some? && StandsFor(spec, ParseExp(parts[i]).value, min, max)
    else spec == WildcardTimeSpec
  }

  lemma FieldOrStandsFor(parts: seq<string>, i: nat, min: int, max: int)
    requires IsField(min, max) && FieldOr(parts, i, min, max).Accepted? && !OverflowsAt(parts, i, min)
    ensures FieldStandsFor(FieldOr(parts, i, min, max).value, parts, i, min, max)
  {
    if i < |parts| {
      EvaluatedStandsFor(ParseExp(parts[i]).value, min, max);
    }
  }

  /**
   Main result on meaning: the six fields of an accepted spec, in the order second, minute, hour, day of the month,
   month and weekday, allow exactly what is written at their positions, and everything where nothing is written; unless
   a step for a day of the month or for a month overflows.
   */
  lemma AcceptedStandsFor(s: string)
    requires ParseFull(s).Accepted? && !OverflowsAt(Fields(s), 3, 1) && !OverflowsAt(Fields(s), 4, 1)
    ensures var spec, parts := ParseFull(s).value, Fields(s);
            && FieldStandsFor(spec.sec, parts, 0, 0, 59) && FieldStandsFor(spec.min, parts, 1, 0, 59)
            && FieldStandsFor(spec.hour, parts, 2, 0, 23) && FieldStandsFor(spec.monthDay, parts, 3, 1, 31)
            && FieldStandsFor(spec.mon, parts, 4, 1, 12) && FieldStandsFor(spec.wday, parts, 5, 0, 6)
  {
    var parts := Fields(s);
    AcceptedFields(parts);
    var r := FieldResults(parts);
    assert r[0].Accepted? && r[1].Accepted? && r[2].Accepted? && r[3].Accepted? && r[4].Accepted? && r[5].Accepted?;
    OnlyTwoOverflow(parts);
    hide FieldOr, FieldStandsFor, OverflowsAt, Fields;
    FieldOrStandsFor(parts, 0, 0, 59);
    FieldOrStandsFor(parts, 1, 0, 59);
    FieldOrStandsFor(parts, 2, 0, 23);
    FieldOrStandsFor(parts, 3, 1, 31);
    FieldOrStandsFor(parts, 4, 1, 12);
    FieldOrStandsFor(parts, 5, 0, 6);
  }

  lemma OnlyTwoOverflow(parts: seq<string>)
    requires forall i | 0 <= i < 6 :: FieldResults(parts)[i].Accepted?
    ensures !OverflowsAt(parts, 0, 0) && !OverflowsAt(parts, 1, 0)
    ensures !OverflowsAt(parts, 2, 0) && !OverflowsAt(parts, 5, 0)
  {
    var r := FieldResults(parts);
    assert r[0].Accepted? && r[1].Accepted? && r[2].Accepted? && r[5].Accepted?;
    hide FieldOr, OverflowsAt;
    FieldOrWithin(parts, 0, 0, 59);
    FieldOrWithin(parts, 1, 0, 59);
    FieldOrWithin(parts, 2, 0, 23);
    FieldOrWithin(parts, 5, 0, 6);
  }

  /** The range of the field at a position. */
  function MinOf(i: nat): int {
    if i == 3 || i == 4 then 1 else 0
  }

  function MaxOf(i: nat): int {
    if i <= 1 then 59 else if i == 2 then 23 else if i == 3 then 31 else if i == 4 then 12 else 6
  }

  /** A spec is accepted exactly when it has at most six fields and each of them is accepted. */
  lemma FullAcceptedIff(s: string)
    ensures ParseFull(s).Accepted? <==>
            && |Fields(s)| <= 6
            && forall i | 0 <= i < |Fields(s)| :: ParseTimeSpec(Fields(s)[i], MinOf(i), MaxOf(i)).Accepted?
  {
    var parts := Fields(s);
    var r := FieldResults(parts);
    hide ParseTimeSpec, Fields;
    assert forall i | 0 <= i < 6 :: i < |parts| ==> r[i] == ParseTimeSpec(parts[i], MinOf(i), MaxOf(i));
    assert forall i | 0 <= i < 6 :: i >= |parts| ==> r[i] == Accepted(WildcardTimeSpec);
    if i :| 0 <= i < 6 && !r[i].Accepted? {
      FirstFailureFails(r);
    }
  }

  lemma AcceptedFields(parts: seq<string>)
    requires ParseParts(parts).Accepted?
    ensures forall i | 0 <= i < 6 :: FieldResults(parts)[i].Accepted?
  {
    var r := FieldResults(parts);
    if i :| 0 <= i < 6 && !r[i].Accepted? {
      FirstFailureFails(r);
    }
  }

  lemma {:induction false} FirstFailureFails(results: seq<ParseResult<TimeSpec>>)
    requires exists i | 0 <= i < |results| :: !results[i].Accepted?
    ensures !FirstFailure(results).Accepted?
  {
    if results[0].Accepted? {
      FirstFailureFails(results[1..]);
    }
  }

  lemma FieldOrWithin(parts: seq<string>, i: nat, min: int, max: int)
    requires IsField(min, max) && FieldOr(parts, i, min, max).Accepted?
    ensures FieldOr(parts, i, min, max).value.Within(min, max) <==> !OverflowsAt(parts, i, min)
    ensures OverflowsAt(parts, i, min) ==> min == 1
  {
    if i < |parts| {
      ParsedIsParseable(parts[i]);
      EvaluatedIsWithin(ParseExp(parts[i]).value, min, max);
    }
  }

  function Failed(r: ParseResult<TimeSpec>): ParseResult<FullTimeSpec>
    requires !r.Accepted?
  {
    if r.Refused? then Refused else NeverReturns
  }

  lemma {:induction false} FirstFailureAt(results: seq<ParseResult<TimeSpec>>, n: nat)
    requires n < |results| && !results[n].Accepted?
    requires forall i | 0 <= i < n :: results[i].Accepted?
    ensures FirstFailure(results) == Failed(results[n])
  {
    if n > 0 {
      assert results[1..][n - 1] == results[n];
      FirstFailureAt(results[1..], n - 1);
    }
  }

  /** ParseFullTimeSpec: the fields one by one, wildcards where there is none. */
  method ParseFullTimeSpec(s: string) returns (r: ParseResult<FullTimeSpec>)
    ensures r == ParseFull(s)
  {
    hide ParseTimeSpec, Fields, FirstFailure;
    var fullSpec := FullTimeSpec(WildcardTimeSpec, WildcardTimeSpec, WildcardTimeSpec,
                                 WildcardTimeSpec, WildcardTimeSpec, WildcardTimeSpec);
    var timeParts := Fields(s);
    ghost var results := FieldResults(timeParts);

    // sec
    if |timeParts| > 0 {
      var spec := ParseTimeSpec(timeParts[0], 0, 59);
      if !spec.Accepted? {
        FirstFailureAt(results, 0);
        return Failed(spec);
      }
      fullSpec := fullSpec.(sec := spec.value);
    }

    // min
    if |timeParts| > 1 {
      var spec := ParseTimeSpec(timeParts[1], 0, 59);
      if !spec.Accepted? {
        FirstFailureAt(results, 1);
        return Failed(spec);
      }
      fullSpec := fullSpec.(min := spec.value);
    }

    // hour
    if |timeParts| > 2 {
      var spec := ParseTimeSpec(timeParts[2], 0, 23);
      if !spec.Accepted? {
        FirstFailureAt(results, 2);
        return Failed(spec);
      }
      fullSpec := fullSpec.(hour := spec.value);
    }

    // mday
    if |timeParts| > 3 {
      var spec := ParseTimeSpec(timeParts[3], 1, 31);
      if !spec.Accepted? {
        FirstFailureAt(results, 3);
        return Failed(spec);
      }
      fullSpec := fullSpec.(monthDay := spec.value);
    }

    // mon
    if |timeParts| > 4 {
      var spec := ParseTimeSpec(timeParts[4], 1, 12);
      if !spec.Accepted? {
        FirstFailureAt(results, 4);
        return Failed(spec);
      }
      fullSpec := fullSpec.(mon := spec.value);
    }

    // wday
    if |timeParts| > 5 {
      var spec := ParseTimeSpec(timeParts[5], 0, 6);
      if !spec.Accepted? {
        FirstFailureAt(results, 5);
        return Failed(spec);
      }
      fullSpec := fullSpec.(wday := spec.value);
    }

    assert forall i | 0 <= i < 6 :: results[i].Accepted?;
    if |timeParts| > 6 {
      return Refused;
    }
    r := Accepted(fullSpec);
  }
}
