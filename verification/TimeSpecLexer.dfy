/**
 The lexer of time specs (parse_time_spec.y), which works on the bytes of one field.
 */
module TimeSpecLexers {
  import opened Wrappers
  import opened Decimal

  /** The rune that stands for the end of the input, and for no rune having been put back. */
  const EOF_RUNE: char := '\0'

  datatype Token = Comma | Dash | Star | Rand | StarSlash | IntToken(nbr: nat) | Eof

  /** unicode.IsSpace, for runes made of one byte. */
  predicate IsSpace(c: char) {
    c in "\t\n\r " || c as int in {0x0b, 0x0c, 0x85, 0xa0}
  }

  /** unicode.IsPunct, for runes made of one byte. */
  predicate IsPunct(c: char) {
    c in "!\"#%&'()*,-./:;?@[\\]_{}" || c as int in {0xa1, 0xa7, 0xab, 0xb6, 0xb7, 0xbb, 0xbf}
  }

  /** The number of digits at the start of s. */
  function DigitRun(s: string): (k: nat)
    ensures k <= |s| && AllDigits(s[..k])
    ensures k < |s| ==> !IsDigit(s[k])
  {
    if s == [] || !IsDigit(s[0]) then 0
    else
      var k := 1 + DigitRun(s[1..]);
      assert s[..k] == [s[0]] + s[1..][..k - 1];
      k
  }

  /** s without its first rune if that is a NUL, which putting back loses. */
  function PutBack(s: string): (r: string)
    ensures |r| <= |s|
  {
    if s != [] && s[0] == EOF_RUNE then s[1..] else s
  }

  /** The next token of what is left of the input, and what is left after it. */
  function LexStep(s: string): (r: (Token, string))
    ensures |r.1| <= |s| && (!r.0.Eof? ==> |r.1| < |s|)
    decreases |s|
  {
    if s == [] then (Eof, [])
    else
      var c, t := s[0], s[1..];
      if c == ',' then (Comma, t)
      else if c == '-' then (Dash, t)
      else if c == 'R' then (Rand, t)
      else if c == '*' then
        if t != [] && t[0] == '/' then (StarSlash, t[1..]) else (Star, PutBack(t))
      else if IsDigit(c) then LexNumber(s)
      else if c == ' ' || c == '\t' then LexStep(t)
      else (Eof, t)
  }

  /** A numeral must be followed by a space, a punctuation mark or the end, and fit an int. */
  function LexNumber(s: string): (r: (Token, string))
    requires s != [] && IsDigit(s[0])
    ensures |r.1| < |s|
  {
    var k := DigitRun(s);
    if k < |s| && s[k] != EOF_RUNE && !IsSpace(s[k]) && !IsPunct(s[k]) then (Eof, s[k + 1..])
    else
      var n := DigitsValue(s[..k]);
      (if n <= MAX_INT64 then IntToken(n) else Eof, PutBack(s[k..]))
  }

  /** The tokens the parser sees: those before the first end marker, be it the end or a bad character. */
  function Tokens(s: string): seq<Token>
    decreases |s|
  {
    var (token, rest) := LexStep(s);
    if token.Eof? then [] else [token] + Tokens(rest)
  }

  class Lexer {
    var expr: string
    var peek: char

    /** What is left of the input. */
    ghost function Rest(): string
      reads this
    {
      (if peek == EOF_RUNE then [] else [peek]) + expr
    }

    constructor (expr: string)
      ensures Rest() == expr
    {
      this.expr, peek := expr, EOF_RUNE;
    }

    method NextRune() returns (r: char)
      modifies this
      ensures peek == EOF_RUNE
      ensures if old(Rest()) == [] then r == EOF_RUNE && Rest() == []
              else r == old(Rest())[0] && Rest() == old(Rest())[1..]
    {
      if peek != EOF_RUNE {
        r := peek;
        peek := EOF_RUNE;
      } else if |expr| == 0 {
        r := EOF_RUNE;
      } else {
        r := expr[0];
        expr := expr[1..];
      }
    }

    method Lex() returns (token: Token)
      modifies this
      ensures (token, Rest()) == LexStep(old(Rest()))
    {
      while true
        invariant LexStep(Rest()) == LexStep(old(Rest()))
        decreases |Rest()|
      {
        ghost var before := Rest();
        var r := NextRune();
        match r
        case ',' => return Comma;
        case '-' => return Dash;
        case 'R' => return Rand;
        case '*' =>
          ghost var after := Rest();
          var r2 := NextRune();
          if r2 == '/' {
            return StarSlash;
          } else {
            peek := r2;
            assert after != [] ==> [after[0]] + after[1..] == after;
            assert Rest() == PutBack(after);
            return Star;
          }
        case _ =>
          if IsDigit(r) {
            assert [r] + Rest() == before;
            token := ReadNumber(r);
            return;
          } else if r == EOF_RUNE {
            return Eof;
          } else if r == ' ' || r == '\t' {
          } else {
            return Eof;
          }
      }
    }

    /** The rest of a numeral whose first digit is r. */
    method ReadNumber(r: char) returns (token: Token)
      requires IsDigit(r) && peek == EOF_RUNE
      modifies this
      ensures (token, Rest()) == LexNumber([r] + old(Rest()))
    {
      ghost var s := [r] + Rest();
      var numeral := [r];
      var done := false;
      while !done
        invariant 1 <= |numeral| <= |s| && AllDigits(numeral) && numeral == s[..|numeral|]
        invariant done ==> DigitRun(s) == |numeral| && Rest() == PutBack(s[|numeral|..])
        invariant done ==>
                    |numeral| == |s| || s[|numeral|] == EOF_RUNE || IsSpace(s[|numeral|]) || IsPunct(s[|numeral|])
        invariant !done ==> peek == EOF_RUNE && Rest() == s[|numeral|..]
        decreases !done, |s| - |numeral|
      {
        var r2 := NextRune();
        if IsDigit(r2) {
          numeral := numeral + [r2];
        } else {
          DigitRunIs(s, |numeral|);
          if IsSpace(r2) || IsPunct(r2) || r2 == EOF_RUNE {
            peek := r2;
            done := true;
          } else {
            return Eof;
          }
        }
      }
      token := if DigitsValue(numeral) <= MAX_INT64 then IntToken(DigitsValue(numeral)) else Eof;
    }
  }

  lemma {:induction false} DigitRunIs(s: string, k: nat)
    requires k <= |s| && AllDigits(s[..k]) && (k < |s| ==> !IsDigit(s[k]))
    ensures DigitRun(s) == k
  {
  }

  // ---------- Printed tokens ----------

  /** A printed number that is followed by nothing or by a punctuation mark is read as that number. */
  lemma PrintedNumber(n: nat, rest: string)
    requires n <= MAX_INT64 && (rest == [] || rest[0] in ",-")
    ensures LexStep(NatText(n) + rest) == (IntToken(n), rest)
  {
    NatTextReadsBack(n);
    var text := NatText(n);
    var s := text + rest;
    assert s[..|text|] == text && s[|text|..] == rest;
    DigitRunIs(s, |text|);
    assert IsDigit(s[0]);
  }
}
