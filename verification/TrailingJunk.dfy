/**
 What becomes of characters after a complete phrase: a character the lexer does not expect ends the input for the
 parser, so that whatever follows goes unread, unless it changes the token it directly follows.
 */
module TrailingJunk {
  import opened Wrappers
  import opened Decimal
  import opened TimeSpecExps
  import opened TimeSpecLexers
  import opened TimeSpecParsers

  /** A character that begins no token and is not skipped either. */
  predicate IsJunk(c: char) {
    c !in ",-R* \t" && !IsDigit(c)
  }

  predicate IsBlank(s: string) {
    forall i | 0 <= i < |s| :: s[i] in " \t"
  }

  /** The lexer comes to the end of s without meeting a bad character or a bad numeral. */
  predicate LexesToEnd(s: string)
    decreases |s|
  {
    var (token, rest) := LexStep(s);
    if token.Eof? then IsBlank(s) else LexesToEnd(rest)
  }

  predicate EndsInDigit(s: string) {
    s != [] && IsDigit(s[|s| - 1])
  }

  predicate EndsInStar(s: string) {
    s != [] && s[|s| - 1] == '*'
  }

  function AllButLast(tokens: seq<Token>): seq<Token> {
    if tokens == [] then [] else tokens[..|tokens| - 1]
  }

  /** The tokens of s followed by the character c and by rest. */
  function JunkTokens(s: string, c: char, rest: string): seq<Token> {
    if !LexesToEnd(s) then Tokens(s)
    else if EndsInDigit(s) then
      if c == EOF_RUNE then Tokens(s) + Tokens(rest)
      else if IsSpace(c) || IsPunct(c) then Tokens(s)
      else AllButLast(Tokens(s))
    else if EndsInStar(s) then
      if c == '/' then AllButLast(Tokens(s)) + [StarSlash] + Tokens(rest)
      else if c == EOF_RUNE then Tokens(s) + Tokens(rest)
      else Tokens(s)
    else Tokens(s)
  }

  // ---------- Lexing ----------

  lemma BlankStep(s: string)
    requires s != [] && s[0] in " \t"
    ensures Tokens(s) == Tokens(s[1..]) && LexesToEnd(s) == LexesToEnd(s[1..])
    ensures EndsInDigit(s) == EndsInDigit(s[1..]) && EndsInStar(s) == EndsInStar(s[1..])
  {
    assert LexStep(s) == LexStep(s[1..]);
    assert IsBlank(s) == IsBlank(s[1..]) by {
      assert s == [s[0]] + s[1..];
    }
  }

  /** What the lexer makes of a whole numeral, at the end and with a character behind it that is no digit. */
  lemma NumeralLexed(s: string, c: char, rest: string)
    requires s != [] && AllDigits(s) && !IsDigit(c)
    ensures LexStep(s) == (if DigitsValue(s) <= MAX_INT64 then IntToken(DigitsValue(s)) else Eof, "")
    ensures var follows := c == EOF_RUNE || IsSpace(c) || IsPunct(c);
            && LexStep(s + [c] + rest).0 == (if follows then LexStep(s).0 else Eof)
            && (follows ==> LexStep(s + [c] + rest).1 == PutBack([c] + rest))
  {
    var x := s + [c] + rest;
    DigitRunIs(s, |s|);
    assert x[..|s|] == s && x[|s|..] == [c] + rest && s[..|s|] == s && s[|s|..] == [];
    DigitRunIs(x, |s|);
    assert IsDigit(s[0]) && x[0] == s[0] && x[|s|] == c;
  }

  /** A whole numeral, which the character may spoil. */
  lemma NumeralBefore(s: string, c: char, rest: string)
    requires s != [] && AllDigits(s) && IsJunk(c)
    ensures Tokens(s + [c] + rest) == JunkTokens(s, c, rest)
  {
    NumeralLexed(s, c, rest);
    NoTokens();
    assert !IsBlank(s) by { assert IsDigit(s[0]); }
    assert EndsInDigit(s) && IsBlank("") && LexesToEnd("");
    assert ([c] + rest)[1..] == rest;
    JunkAlone(c, rest);
    hide LexStep, IsSpace, IsPunct, DigitsValue;
    var x := s + [c] + rest;
    if DigitsValue(s) <= MAX_INT64 {
      assert Tokens(s) == [IntToken(DigitsValue(s))] + [];
      if c == EOF_RUNE || IsSpace(c) || IsPunct(c) {
        TokensCons(IntToken(DigitsValue(s)), x, PutBack([c] + rest));
      }
    }
  }

  lemma JunkAlone(c: char, rest: string)
    requires IsJunk(c)
    ensures LexStep([c] + rest) == (Eof, rest) && Tokens([c] + rest) == []
  {
    assert ([c] + rest)[1..] == rest;
  }

  lemma StarBefore(c: char, rest: string)
    requires IsJunk(c)
    ensures Tokens("*" + [c] + rest) == JunkTokens("*", c, rest)
  {
    var x := "*" + [c] + rest;
    assert x[1..] == [c] + rest && ([c] + rest)[1..] == rest && "*"[1..] == "";
    NoTokens();
    JunkAlone(c, rest);
    assert LexStep("*") == (Star, "");
    TokensCons(Star, "*", "");
    if c == '/' {
      TokensCons(StarSlash, x, rest);
    } else {
      TokensCons(Star, x, PutBack([c] + rest));
    }
  }

  /** The first token of s, when what follows s cannot reach it. */
  lemma StepInside(s: string, x: string)
    requires s != [] && s[0] !in " \t" && !AllDigits(s) && s != "*"
    ensures var (token, rest) := LexStep(s);
            && LexStep(s + x).0 == token
            && (token.Eof? ==> !IsBlank(s))
            && (!token.Eof? ==> LexStep(s + x).1 == rest + x)
            && (!token.Eof? ==> EndsInDigit(s) == EndsInDigit(rest) && EndsInStar(s) == EndsInStar(rest))
  {
    var c, t := s[0], s[1..];
    assert (s + x)[0] == c && (s + x)[1..] == t + x;
    if IsDigit(c) {
      NumberInside(s, x);
      assert LexStep(s) == LexNumber(s) && LexStep(s + x) == LexNumber(s + x);
      hide LexStep, LexNumber, IsPunct, IsSpace;
    } else if c == '*' {
      assert t != [] && (t + x)[0] == t[0] && (t + x)[1..] == t[1..] + x;
    }
  }

  lemma NumberInside(s: string, x: string)
    requires s != [] && IsDigit(s[0]) && !AllDigits(s)
    ensures var (token, rest) := LexNumber(s);
            && LexNumber(s + x).0 == token
            && (!token.Eof? ==> LexNumber(s + x).1 == rest + x)
            && (!token.Eof? ==> EndsInDigit(s) == EndsInDigit(rest) && EndsInStar(s) == EndsInStar(rest))
  {
    var k := DigitRun(s);
    assert k < |s| by { assert s[..|s|] == s; }
    assert (s + x)[..k] == s[..k] && (s + x)[k] == s[k] && (s + x)[k..] == s[k..] + x;
    DigitRunIs(s + x, k);
    assert (s[k..] + x)[1..] == s[k..][1..] + x;
  }

  /** Behind a token that what follows s cannot reach. */
  lemma JunkBehind(s: string, c: char, rest: string, token: Token, t: string)
    requires LexStep(s) == (token, t) && !token.Eof?
    requires EndsInDigit(s) == EndsInDigit(t) && EndsInStar(s) == EndsInStar(t)
    ensures JunkTokens(s, c, rest) == [token] + JunkTokens(t, c, rest)
  {
    TokensCons(token, s, t);
    assert LexesToEnd(s) == LexesToEnd(t);
    if LexesToEnd(t) && (EndsInDigit(t) || EndsInStar(t)) {
      EndIsToken(t);
      BehindAllButLast(token, Tokens(t));
      ConsConcat(token, Tokens(t), Tokens(rest));
      ConsConcatThree(token, AllButLast(Tokens(t)), [StarSlash], Tokens(rest));
    }
    hide IsSpace, IsPunct, LexStep, Tokens, AllButLast, LexesToEnd, EndsInDigit, EndsInStar;
  }

  lemma ConsConcat(token: Token, a: seq<Token>, b: seq<Token>)
    ensures [token] + a + b == [token] + (a + b)
  {
  }

  lemma ConsConcatThree(token: Token, a: seq<Token>, b: seq<Token>, c: seq<Token>)
    ensures [token] + a + b + c == [token] + (a + b + c)
  {
  }

  lemma BehindAllButLast(token: Token, tokens: seq<Token>)
    requires tokens != []
    ensures AllButLast([token] + tokens) == [token] + AllButLast(tokens)
  {
  }

  lemma EndIsToken(s: string)
    requires LexesToEnd(s) && (EndsInDigit(s) || EndsInStar(s))
    ensures Tokens(s) != []
  {
    assert s[|s| - 1] !in " \t";
  }

  /** Main step: what the lexer makes of junk, for every text before and behind it. */
  lemma {:induction false} JunkLexed(s: string, c: char, rest: string)
    requires IsJunk(c)
    ensures Tokens(s + [c] + rest) == JunkTokens(s, c, rest)
    decreases |s|
  {
    hide LexStep, Tokens, JunkTokens, IsJunk, EndsInDigit, EndsInStar, LexesToEnd;
    var x := s + [c] + rest;
    if s == [] {
      assert x == [c] + rest;
      JunkAlone(c, rest);
      EmptyJunk(c, rest);
    } else if s[0] in " \t" {
      JunkLexed(s[1..], c, rest);
      assert x[1..] == s[1..] + [c] + rest && x[0] == s[0];
      BlankStep(s);
      BlankStep(x);
      SameJunk(s, s[1..], c, rest);
    } else if AllDigits(s) {
      NumeralBefore(s, c, rest);
    } else if s == "*" {
      StarBefore(c, rest);
    } else {
      assert x == s + ([c] + rest);
      StepInside(s, [c] + rest);
      var (token, t) := LexStep(s);
      if token.Eof? {
        StoppedJunk(s, x, c, rest);
      } else {
        StepShrinks(s);
        JunkLexed(t, c, rest);
        JunkBehind(s, c, rest, token, t);
        assert t + [c] + rest == t + ([c] + rest);
        TokensCons(token, x, t + ([c] + rest));
      }
    }
  }

  lemma StepShrinks(s: string)
    ensures !LexStep(s).0.Eof? ==> |LexStep(s).1| < |s|
  {
  }

  lemma EmptyJunk(c: char, rest: string)
    ensures JunkTokens("", c, rest) == []
  {
    NoTokens();
  }

  lemma SameJunk(s: string, t: string, c: char, rest: string)
    requires Tokens(s) == Tokens(t) && LexesToEnd(s) == LexesToEnd(t)
    requires EndsInDigit(s) == EndsInDigit(t) && EndsInStar(s) == EndsInStar(t)
    ensures JunkTokens(s, c, rest) == JunkTokens(t, c, rest)
  {
    hide Tokens, LexesToEnd, EndsInDigit, EndsInStar, IsSpace, IsPunct;
  }

  lemma StoppedJunk(s: string, x: string, c: char, rest: string)
    requires LexStep(s).0.Eof? && LexStep(x).0.Eof? && !IsBlank(s)
    ensures Tokens(x) == [] && JunkTokens(s, c, rest) == []
  {
  }

  // ---------- Parsing ----------

  /** The tokens that an expression is parsed from. */
  function SetSource(e: SetExp): seq<Token> {
    match e
    case StepSetExp(step) => [StarSlash, IntToken(step)]
    case EnumSetExp(ints) => EnumTokens(ints)
    case RangeSetExp(start, end) => [IntToken(start), Dash, IntToken(end)]
    case AnySetExp => []
  }

  function TopSource(e: TimeSpecExp): seq<Token> {
    match e
    case OneValTimeSpecExp(val) => [IntToken(val)]
    case WildcardTimeSpecExp => [Star]
    case SetTimeSpecExp(setExp) => SetSource(setExp)
    case RandomTimeSpecExp(setExp) => [Rand] + SetSource(setExp)
  }

  lemma {:induction false} EnumTailSource(tokens: seq<Token>)
    requires ParseEnumTail(tokens).Some?
    ensures tokens == EnumTail(ParseEnumTail(tokens).value) && ParseEnumTail(tokens).value != []
  {
    assert tokens == [tokens[0], tokens[1]] + tokens[2..];
    if |tokens| == 2 {
      assert tokens[2..] == [] && [tokens[1].nbr][1..] == [];
    } else {
      EnumTailSource(tokens[2..]);
      var rest := ParseEnumTail(tokens[2..]).value;
      assert ([tokens[1].nbr] + rest)[1..] == rest;
    }
  }

  lemma SetSourceOf(tokens: seq<Token>)
    requires ParseSetExp(tokens).Some?
    ensures tokens == SetSource(ParseSetExp(tokens).value)
    ensures tokens != [] && tokens[|tokens| - 1].IntToken?
  {
    if ParseSetExp(tokens).value.EnumSetExp? {
      EnumTailSource(tokens[1..]);
      EnumTailEnds(tokens[1..]);
      var rest := ParseEnumTail(tokens[1..]).value;
      assert ([tokens[0].nbr] + rest)[1..] == rest;
      assert tokens == [tokens[0]] + tokens[1..];
    }
  }

  lemma {:induction false} EnumTailEnds(tokens: seq<Token>)
    requires ParseEnumTail(tokens).Some?
    ensures |tokens| >= 2 && tokens[|tokens| - 1].IntToken?
  {
    if |tokens| > 2 {
      EnumTailEnds(tokens[2..]);
    }
  }

  /** The grammar is unambiguous in the other direction too: an expression has one sequence of tokens. */
  lemma TopSourceOf(tokens: seq<Token>)
    requires ParseTop(tokens).Some?
    ensures tokens == TopSource(ParseTop(tokens).value)
    ensures tokens != [] && !tokens[|tokens| - 1].StarSlash?
  {
    hide ParseSetExp, SetSource;
    if tokens != [] && tokens[0].Rand? && |tokens| > 1 {
      SetSourceOf(tokens[1..]);
      assert tokens == [Rand] + tokens[1..];
    } else if tokens == [Rand] {
      AnySource();
    } else if ParseTop(tokens).value.SetTimeSpecExp? {
      SetSourceOf(tokens);
    }
  }

  lemma AnySource()
    ensures SetSource(AnySetExp) == [] && [Rand] + [] == [Rand]
  {
  }

  /** The character is not read, or is read as the end of the token before it. */
  predicate JunkIgnored(s: string, c: char, rest: string) {
    LexesToEnd(s) ==>
      if EndsInDigit(s) then if c == EOF_RUNE then Tokens(rest) == [] else IsSpace(c) || IsPunct(c)
      else if EndsInStar(s) then if c == EOF_RUNE then Tokens(rest) == [] else c != '/'
      else true
  }

  /**
   Main result: for every complete phrase, every character that begins no token and whatever follows it, the phrase is
   what is parsed if and only if the phrase does not end in a numeral or the character can follow one; a slash after a
   star makes another token, and a NUL after a numeral or a star is lost, so that what follows it is read.
   */
  lemma JunkIsIgnoredIff(s: string, c: char, rest: string)
    requires ParseExp(s).Some? && IsJunk(c)
    ensures ParseExp(s + [c] + rest) == ParseExp(s) <==> JunkIgnored(s, c, rest)
  {
    JunkLexed(s, c, rest);
    TopSourceOf(Tokens(s));
    hide Tokens, IsSpace, IsPunct, ParseTop, LexesToEnd, EndsInDigit, EndsInStar;
    var x := s + [c] + rest;
    if ParseExp(x) == ParseExp(s) {
      TopSourceOf(Tokens(x));
    }
    assert ParseExp(x) == ParseExp(s) <==> JunkTokens(s, c, rest) == Tokens(s);
    SameTokensIff(s, c, rest);
  }

  lemma SameTokensIff(s: string, c: char, rest: string)
    requires Tokens(s) != [] && !Tokens(s)[|Tokens(s)| - 1].StarSlash?
    ensures JunkTokens(s, c, rest) == Tokens(s) <==> JunkIgnored(s, c, rest)
  {
    var tokens := Tokens(s);
    hide Tokens, IsSpace, IsPunct, LexesToEnd, EndsInDigit, EndsInStar;
    LongerIff(tokens, Tokens(rest));
    assert AllButLast(tokens) != tokens;
    SlashDiffers(tokens, Tokens(rest));
  }

  lemma LongerIff(a: seq<Token>, b: seq<Token>)
    ensures a + b == a <==> b == []
  {
  }

  lemma SlashDiffers(tokens: seq<Token>, more: seq<Token>)
    requires tokens != [] && !tokens[|tokens| - 1].StarSlash?
    ensures AllButLast(tokens) + [StarSlash] + more != tokens
  {
    assert (AllButLast(tokens) + [StarSlash] + more)[|tokens| - 1] == StarSlash;
  }

  /** After a numeral, a semicolon begins junk, and a letter spoils the numeral. */
  lemma JunkExample()
    ensures ParseExp("5;x") == ParseExp("5") == Some(OneValTimeSpecExp(5))
    ensures ParseExp("5x") != ParseExp("5")
  {
    assert NatText(5) == "5";
    NumberParses(5);
    FiveLexes();
    JunkIsIgnoredIff("5", ';', "x");
    JunkIsIgnoredIff("5", 'x', "");
    hide *;
    assert "5" + [';'] + "x" == "5;x" && "5" + ['x'] + "" == "5x";
  }

  lemma FiveLexes()
    ensures LexesToEnd("5") && EndsInDigit("5")
    ensures IsJunk(';') && IsPunct(';') && IsJunk('x') && !IsPunct('x') && !IsSpace('x')
    ensures JunkIgnored("5", ';', "x") && !JunkIgnored("5", 'x', "")
  {
    assert NatText(5) == "5" && NatText(5) + "" == "5";
    PrintedNumber(5, "");
    assert LexesToEnd("");
  }
}
