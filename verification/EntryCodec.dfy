/**
 The text form of a run-log entry: encodeRunLogEntry and decodeRunLogEntry.
 */
module EntryCodec {
  import opened Wrappers
  import opened Decimal
  import opened RunLogEntries

  const MAX_JOB_NAME_LEN := 16
  const LOG_ENTRY_LEN := 64

  // ---------- Escaping ----------

  /** Replace every c by a backslash and the given letter. */
  function Escape(s: string, c: char, letter: char): string {
    if s == [] then []
    else (if s[0] == c then ['\\', letter] else [s[0]]) + Escape(s[1..], c, letter)
  }

  /** Replace every backslash directly followed by the given letter, left to right, by c. */
  function Unescape(s: string, c: char, letter: char): string {
    if s == [] then []
    else if |s| >= 2 && s[0] == '\\' && s[1] == letter then [c] + Unescape(s[2..], c, letter)
    else [s[0]] + Unescape(s[1..], c, letter)
  }

  /** Newlines, then tabs, escaped. */
  function EscapeBoth(s: string): string {
    Escape(Escape(s, '\n', 'n'), '\t', 't')
  }

  function Truncated(name: string): string {
    if |name| < MAX_JOB_NAME_LEN then name else name[..MAX_JOB_NAME_LEN]
  }

  function EncodeName(name: string): string {
    EscapeBoth(Truncated(name))
  }

  function DecodeName(field: string): string {
    Unescape(Unescape(field, '\n', 'n'), '\t', 't')
  }

  // ---------- Whole records ----------

  function Split(s: string): (fields: seq<string>)
    ensures |fields| >= 1
  {
    if s == [] then [""]
    else
      var rest := Split(s[1..]);
      if s[0] == '\t' then [""] + rest else [[s[0]] + rest[0]] + rest[1..]
  }

  function Spaces(n: nat): string {
    seq(n, _ => ' ')
  }

  function TrimRight(s: string): string {
    if s != [] && s[|s| - 1] == ' ' then TrimRight(s[..|s| - 1]) else s
  }

  /** The five tab-separated fields, before padding. */
  function Unpadded(e: RunLogEntry): string {
    EncodeName(e.jobName) + "\t" + IntText(e.time) + "\t" + e.fate.ToString() + "\t" +
    e.result.ToString() + "\t" + e.execTime
  }

  /** Panics when the fields do not fit: strings.Repeat refuses a negative count. */
  function Encode(e: RunLogEntry): Outcome<string> {
    var text := Unpadded(e);
    if |text| <= LOG_ENTRY_LEN then Returned(text + Spaces(LOG_ENTRY_LEN - |text|)) else Panicked
  }

  /** Entries that the log can write. */
  ghost predicate Fits(e: RunLogEntry) {
    e.Representable() && Encode(e).Returned?
  }

  function DecodeFate(s: string): Option<SubprocFate> {
    if s == "succeeded" || s == "true" then Some(Succeeded)
    else if s == "failed" || s == "false" then Some(Failed)
    else if s == "cancelled" then Some(Cancelled)
    else None
  }

  function DecodeStatus(s: string): Option<JobStatus> {
    if s == "Good" then Some(JobGood)
    else if s == "Failed" then Some(JobFailed)
    else if s == "Backoff" then Some(JobBackoff)
    else None
  }

  datatype DecodeError = WrongNumberOfFields | BadTime | BadFate | BadResult | BadExecTime

  function Decode(record: string): Result<RunLogEntry, DecodeError> {
    DecodeFields(Split(TrimRight(record)))
  }

  function DecodeFields(fields: seq<string>): Result<RunLogEntry, DecodeError> {
    if |fields| != 5 then Err(WrongNumberOfFields)
    else
      var time := ParseInt64(fields[1]);
      if time.None? then Err(BadTime)
      else
        var fate := DecodeFate(fields[2]);
        if fate.None? then Err(BadFate)
        else
          var status := DecodeStatus(fields[3]);
          if status.None? then Err(BadResult)
          else if !IsDurationText(fields[4]) then Err(BadExecTime)
          else Ok(RunLogEntry(DecodeName(fields[0]), time.value, fate.value, status.value, fields[4]))
  }

  // ---------- Names ----------

  predicate PairAt(s: string, i: nat, letter: char) {
    i + 1 < |s| && s[i] == '\\' && s[i + 1] == letter
  }

  /** A backslash directly followed by 'n' or 't': text that looks already escaped. */
  predicate LooksEscaped(s: string) {
    exists i | 0 <= i < |s| :: PairAt(s, i, 'n') || PairAt(s, i, 't')
  }

  // How the first character is treated.

  lemma EscapeCons(h: char, t: string, c: char, letter: char)
    ensures Escape([h] + t, c, letter) == (if h == c then ['\\', letter] else [h]) + Escape(t, c, letter)
  {
  }

  lemma UnescapePair(t: string, c: char, letter: char)
    ensures Unescape(['\\', letter] + t, c, letter) == [c] + Unescape(t, c, letter)
  {
  }

  lemma UnescapeOther(h: char, t: string, c: char, letter: char)
    requires h != '\\' || t == [] || t[0] != letter
    ensures Unescape([h] + t, c, letter) == [h] + Unescape(t, c, letter)
  {
  }

  lemma EscapeTwo(h: char, l: char, t: string, c: char, letter: char)
    requires h != c && l != c
    ensures Escape([h, l] + t, c, letter) == [h, l] + Escape(t, c, letter)
  {
  }

  lemma UnescapeTwo(l: char, t: string, c: char, letter: char)
    requires l != letter && l != '\\'
    ensures Unescape(['\\', l] + t, c, letter) == ['\\', l] + Unescape(t, c, letter)
  {
  }

  lemma EscapeBothCons(h: char, t: string)
    ensures EscapeBoth([h] + t) ==
            (if h == '\n' then "\\n" else if h == '\t' then "\\t" else [h]) + EscapeBoth(t)
  {
    EscapeCons(h, t, '\n', 'n');
    var y := Escape(t, '\n', 'n');
    if h == '\n' {
      EscapeTwo('\\', 'n', y, '\t', 't');
    } else {
      EscapeCons(h, y, '\t', 't');
    }
  }

  lemma HeadTail(s: string)
    requires s != []
    ensures s == [s[0]] + s[1..]
  {
  }

  /** Escaping never makes a string start with a letter it did not start with. */
  lemma EscapeBothStart(s: string, l: char)
    requires s != [] && l in "nt"
    ensures EscapeBoth(s) != [] && (EscapeBoth(s)[0] == l <==> s[0] == l)
  {
  }

  /** Reading back the escaped newlines of a string whose tabs are escaped as well. */
  lemma {:induction false} UnescapeNewlines(x: string)
    ensures Unescape(EscapeBoth(x), '\n', 'n') == Escape(Unescape(x, '\n', 'n'), '\t', 't')
  {
    hide Escape, Unescape, EscapeBoth;
    if x == [] {
      EmptyStrings();
    } else {
      var h, t := x[0], x[1..];
      HeadTail(x);
      EscapeBothCons(h, t);
      UnescapeNewlines(t);
      if h == '\n' {
        UnescapePair(EscapeBoth(t), '\n', 'n');
        UnescapeOther(h, t, '\n', 'n');
        EscapeCons('\n', Unescape(t, '\n', 'n'), '\t', 't');
      } else if h == '\t' {
        UnescapeTwo('t', EscapeBoth(t), '\n', 'n');
        UnescapeOther(h, t, '\n', 'n');
        EscapeCons('\t', Unescape(t, '\n', 'n'), '\t', 't');
      } else if h == '\\' && t != [] && t[0] == 'n' {
        var rest := t[1..];
        HeadTail(t);
        EscapeBothCons('n', rest);
        UnescapeNewlines(rest);
        assert EscapeBoth(x) == ['\\', 'n'] + EscapeBoth(rest);
        assert x == ['\\', 'n'] + rest;
        UnescapePair(EscapeBoth(rest), '\n', 'n');
        UnescapePair(rest, '\n', 'n');
        EscapeCons('\n', Unescape(rest, '\n', 'n'), '\t', 't');
      } else {
        if t == [] {
          EmptyStrings();
        } else {
          EscapeBothStart(t, 'n');
        }
        UnescapeOther(h, EscapeBoth(t), '\n', 'n');
        UnescapeOther(h, t, '\n', 'n');
        EscapeCons(h, Unescape(t, '\n', 'n'), '\t', 't');
      }
    }
  }

  lemma EmptyStrings()
    ensures EscapeBoth("") == "" && Unescape("", '\n', 'n') == "" && Unescape("", '\t', 't') == ""
    ensures Escape("", '\n', 'n') == "" && Escape("", '\t', 't') == ""
  {
  }

  lemma {:induction false} UnescapeTabs(x: string)
    ensures Unescape(Escape(x, '\t', 't'), '\t', 't') == Unescape(x, '\t', 't')
  {
    hide Escape, Unescape;
    if x == [] {
      EmptyStrings();
    } else {
      var h, t := x[0], x[1..];
      HeadTail(x);
      EscapeCons(h, t, '\t', 't');
      UnescapeTabs(t);
      if h == '\t' {
        UnescapePair(Escape(t, '\t', 't'), '\t', 't');
        UnescapeOther(h, t, '\t', 't');
      } else if h == '\\' && t != [] && t[0] == 't' {
        var rest := t[1..];
        HeadTail(t);
        EscapeCons('t', rest, '\t', 't');
        UnescapeTabs(rest);
        assert Escape(x, '\t', 't') == ['\\', 't'] + Escape(rest, '\t', 't');
        assert x == ['\\', 't'] + rest;
        UnescapePair(Escape(rest, '\t', 't'), '\t', 't');
        UnescapePair(rest, '\t', 't');
      } else {
        if t == [] {
          EmptyStrings();
        } else {
          HeadTail(t);
          EscapeCons(t[0], t[1..], '\t', 't');
        }
        UnescapeOther(h, Escape(t, '\t', 't'), '\t', 't');
        UnescapeOther(h, t, '\t', 't');
      }
    }
  }

  /** Unescaping shortens a string exactly when it has something to unescape. */
  lemma {:induction false} UnescapeShrinks(x: string, c: char, letter: char)
    requires letter != '\\'
    ensures |Unescape(x, c, letter)| <= |x|
    ensures (exists i | 0 <= i < |x| :: PairAt(x, i, letter)) <==> |Unescape(x, c, letter)| < |x|
    ensures |Unescape(x, c, letter)| == |x| ==> Unescape(x, c, letter) == x
  {
    if x != [] {
      if |x| >= 2 && x[0] == '\\' && x[1] == letter {
        UnescapeShrinks(x[2..], c, letter);
        assert PairAt(x, 0, letter);
      } else {
        UnescapeShrinks(x[1..], c, letter);
        forall i | 0 <= i < |x| && PairAt(x, i, letter)
          ensures PairAt(x[1..], i - 1, letter)
        {
        }
        forall i | 0 <= i < |x[1..]| && PairAt(x[1..], i, letter)
          ensures PairAt(x, i + 1, letter)
        {
        }
      }
    }
  }

  /** The first 16 bytes of a name, or all of a shorter one. */
  ghost predicate IsCutOf(cut: string, name: string) {
    cut <= name && |cut| == if |name| < 16 then |name| else 16
  }

  /**
   What comes back of a job name is its first 16 bytes, or all of a shorter name, exactly when these hold no backslash
   directly followed by 'n' or 't': the encoder does not escape backslashes. More than 16 bytes never come back.
   */
  lemma NameRoundTrip(name: string)
    ensures |DecodeName(EncodeName(name))| <= 16
    ensures IsCutOf(DecodeName(EncodeName(name)), name)
            <==> !LooksEscaped(name[..if |name| < 16 then |name| else 16])
    ensures DecodeName(EncodeName(name)) == Truncated(name) <==> !LooksEscaped(Truncated(name))
  {
    var x := Truncated(name);
    UnescapeNewlines(x);
    var u := Unescape(x, '\n', 'n');
    UnescapeTabs(u);
    UnescapeShrinks(x, '\n', 'n');
    UnescapeShrinks(u, '\t', 't');
    assert DecodeName(EncodeName(name)) == x <==> !LooksEscaped(x);
    OneCut(name, DecodeName(EncodeName(name)));
    hide Escape, Unescape, LooksEscaped, EncodeName, DecodeName;
  }

  lemma OneCut(name: string, cut: string)
    ensures IsCutOf(cut, name) <==> cut == Truncated(name)
    ensures Truncated(name) == name[..if |name| < 16 then |name| else 16]
  {
    if IsCutOf(cut, name) {
      assert cut == name[..|cut|];
    }
  }

  /** An escaped name holds neither a tab nor a newline. */
  lemma {:induction false} EscapedChars(s: string, c: char, letter: char, other: char)
    requires c != '\\' && c != letter && other != '\\' && other != letter
    ensures c !in Escape(s, c, letter)
    ensures other !in s ==> other !in Escape(s, c, letter)
  {
    if s != [] {
      EscapedChars(s[1..], c, letter, other);
    }
  }

  lemma EncodedNameChars(name: string)
    ensures '\t' !in EncodeName(name) && '\n' !in EncodeName(name)
  {
    EscapedChars(Truncated(name), '\n', 'n', '\t');
    EscapedChars(Escape(Truncated(name), '\n', 'n'), '\t', 't', '\n');
  }

  // ---------- Records ----------

  lemma {:induction false} SplitField(field: string, rest: string)
    requires '\t' !in field
    ensures Split(field + "\t" + rest) == [field] + Split(rest)
  {
    var s := field + "\t" + rest;
    if field == [] {
      assert s[1..] == rest;
    } else {
      SplitField(field[1..], rest);
      assert s[1..] == field[1..] + "\t" + rest;
      assert [field[0]] + field[1..] == field;
    }
  }

  lemma {:induction false} SplitLast(field: string)
    requires '\t' !in field
    ensures Split(field) == [field]
  {
    if field != [] {
      SplitLast(field[1..]);
      assert [field[0]] + field[1..] == field;
    }
  }

  lemma {:induction false} TrimPadding(text: string, n: nat)
    requires text != [] && text[|text| - 1] != ' '
    ensures TrimRight(text + Spaces(n)) == text
  {
    var s := text + Spaces(n);
    if n == 0 {
      assert s == text;
    } else {
      TrimPadding(text, n - 1);
      assert s[..|s| - 1] == text + Spaces(n - 1);
    }
  }

  lemma ConcatTail(front: string, x: string, y: string, z: string)
    ensures front + x + y + z == front + (x + y + z)
  {
  }

  lemma SplitFive(a: string, b: string, c: string, d: string, e: string)
    requires '\t' !in a && '\t' !in b && '\t' !in c && '\t' !in d && '\t' !in e
    ensures Split(a + "\t" + b + "\t" + c + "\t" + d + "\t" + e) == [a, b, c, d, e]
  {
    var r3 := d + "\t" + e;
    var r2 := c + "\t" + r3;
    var r1 := b + "\t" + r2;
    ConcatTail(a + "\t" + b + "\t" + c + "\t", d, "\t", e);
    ConcatTail(a + "\t" + b + "\t", c, "\t", r3);
    ConcatTail(a + "\t", b, "\t", r2);
    hide Split;
    SplitField(a, r1);
    SplitField(b, r2);
    SplitField(c, r3);
    SplitField(d, e);
    SplitLast(e);
  }

  lemma FateReadsBack(fate: SubprocFate)
    ensures DecodeFate(fate.ToString()) == Some(fate)
    ensures '\t' !in fate.ToString() && '\n' !in fate.ToString()
  {
  }

  lemma StatusReadsBack(status: JobStatus)
    ensures DecodeStatus(status.ToString()) == Some(status)
    ensures '\t' !in status.ToString() && '\n' !in status.ToString()
  {
  }

  /** The entry that reading back the record of e yields. */
  function Stored(e: RunLogEntry): RunLogEntry {
    e.(jobName := DecodeName(EncodeName(e.jobName)))
  }

  lemma DecodeFive(e: RunLogEntry, name: string, time: string, fate: string, result: string)
    requires e.Representable() && time == IntText(e.time)
    requires DecodeFate(fate) == Some(e.fate) && DecodeStatus(result) == Some(e.result)
    ensures DecodeFields([name, time, fate, result, e.execTime]) == Ok(e.(jobName := DecodeName(name)))
  {
    ParsePrintedInt(e.time);
  }

  /** Every field but the job name survives the round trip unconditionally. */
  lemma DecodeEncoded(e: RunLogEntry)
    requires Fits(e)
    ensures Decode(Encode(e).value) == Ok(Stored(e))
  {
    var text := Unpadded(e);
    assert text[|text| - 1] == e.execTime[|e.execTime| - 1];
    TrimPadding(text, LOG_ENTRY_LEN - |text|);
    EncodedNameChars(e.jobName);
    IntTextChars(e.time);
    FateReadsBack(e.fate);
    StatusReadsBack(e.result);
    var fate, result := e.fate.ToString(), e.result.ToString();
    SplitFive(EncodeName(e.jobName), IntText(e.time), fate, result, e.execTime);
    DecodeFive(e, EncodeName(e.jobName), IntText(e.time), fate, result);
  }

  /**
   Main result: a record decodes to an entry that differs from the encoded one in its name at most; and its name is the
   first 16 bytes of the encoded one's, or all of a shorter one, if and only if these hold no backslash directly
   followed by 'n' or 't'.
   */
  lemma EntryRoundTrip(e: RunLogEntry)
    requires Fits(e)
    ensures var d := Decode(Encode(e).value);
            && d.Ok? && d.value == e.(jobName := d.value.jobName)
            && (IsCutOf(d.value.jobName, e.jobName)
                <==> !LooksEscaped(e.jobName[..if |e.jobName| < 16 then |e.jobName| else 16]))
  {
    DecodeEncoded(e);
    NameRoundTrip(e.jobName);
  }

  /** Of a name that is too long the beginning comes back. */
  lemma LongName(cut: string, more: string)
    requires |cut| == 16 && '\\' !in cut
    ensures DecodeName(EncodeName(cut + more)) == cut
  {
    var name := cut + more;
    NameRoundTrip(name);
    assert name[..16] == cut;
    NoBackslash(cut);
    hide EncodeName, DecodeName, LooksEscaped;
    OneCut(name, DecodeName(EncodeName(name)));
  }

  lemma NoBackslash(s: string)
    requires '\\' !in s
    ensures !LooksEscaped(s)
  {
  }

  // ---------- The text of a record ----------

  /** The record of an entry: name, nanoseconds, fate, result, duration, with tabs between them, and spaces behind. */
  lemma RecordExample()
    ensures Encode(RunLogEntry("a", 0, Failed, JobBackoff, "1s")) == Returned("a\t0\tfailed\tBackoff\t1s" + Spaces(43))
  {
    PlainName("a");
    assert IntText(0) == "0";
    hide EncodeName, IntText;
    assert "a" + "\t" + "0" + "\t" == "a\t0\t";
    assert "a\t0\t" + "failed" + "\t" == "a\t0\tfailed\t";
    assert "a\t0\tfailed\t" + "Backoff" + "\t" + "1s" == "a\t0\tfailed\tBackoff\t1s";
    assert |"a\t0\tfailed\tBackoff\t1s"| == 21;
  }

  /** A name without tabs and newlines that is not too long is encoded as itself. */
  lemma PlainName(name: string)
    requires |name| <= 16 && '\t' !in name && '\n' !in name
    ensures EncodeName(name) == name
  {
    EscapeNothing(name, '\n', 'n');
    EscapeNothing(name, '\t', 't');
    assert Truncated(name) == name;
  }

  lemma {:induction false} EscapeNothing(s: string, c: char, letter: char)
    requires c !in s
    ensures Escape(s, c, letter) == s
  {
    if s != [] {
      EscapeNothing(s[1..], c, letter);
    }
  }

  /** Records of older versions, with "true" and "false" for the fate, are read as well. */
  lemma OldRecordsDecode(e: RunLogEntry, word: string)
    requires e.Representable() && '\t' !in e.jobName && DecodeName(e.jobName) == e.jobName
    requires (word == "true" && e.fate == Succeeded) || (word == "false" && e.fate == Failed)
    ensures Decode(e.jobName + "\t" + IntText(e.time) + "\t" + word + "\t" + e.result.ToString() + "\t" + e.execTime)
            == Ok(e)
  {
    var text := e.jobName + "\t" + IntText(e.time) + "\t" + word + "\t" + e.result.ToString() + "\t" + e.execTime;
    assert text[|text| - 1] == e.execTime[|e.execTime| - 1];
    TrimPadding(text, 0);
    assert text + Spaces(0) == text;
    IntTextChars(e.time);
    StatusReadsBack(e.result);
    SplitFive(e.jobName, IntText(e.time), word, e.result.ToString(), e.execTime);
    DecodeFive(e, e.jobName, IntText(e.time), word, e.result.ToString());
  }

  /** The fields, with tabs between them. */
  function JoinTabs(fields: seq<string>): string {
    if fields == [] then "" else if |fields| == 1 then fields[0] else fields[0] + "\t" + JoinTabs(fields[1..])
  }

  lemma {:induction false} SplitJoins(s: string)
    ensures JoinTabs(Split(s)) == s
    ensures forall i | 0 <= i < |Split(s)| :: '\t' !in Split(s)[i]
  {
    if s != [] {
      var rest := Split(s[1..]);
      SplitJoins(s[1..]);
      if s[0] == '\t' {
        assert ([""] + rest)[1..] == rest;
        assert "" + "\t" + s[1..] == s;
      } else {
        var first := [s[0]] + rest[0];
        assert ([first] + rest[1..])[1..] == rest[1..];
        if |rest| == 1 {
          assert JoinTabs([first] + rest[1..]) == first;
        } else {
          assert first + "\t" + JoinTabs(rest[1..]) == [s[0]] + (rest[0] + "\t" + JoinTabs(rest[1..]));
        }
      }
    }
  }

  /** A text is read as a record exactly when it is five fields with tabs between them, padded, each of its own kind. */
  ghost predicate IsRecordText(
    text: string, name: string, time: string, fate: string, result: string, execTime: string)
  {
    && '\t' !in name && '\t' !in time && '\t' !in fate && '\t' !in result && '\t' !in execTime
    && text == name + "\t" + time + "\t" + fate + "\t" + result + "\t" + execTime
    && ParseInt64(time).Some?
    && fate in {"succeeded", "failed", "cancelled", "true", "false"}
    && result in {"Good", "Failed", "Backoff"}
    && IsDurationText(execTime)
  }

  ghost predicate HasRecordText(text: string) {
    exists name, time, fate, result, execTime :: IsRecordText(text, name, time, fate, result, execTime)
  }

  lemma DecodedIff(record: string)
    ensures Decode(record).Ok? <==> HasRecordText(TrimRight(record))
  {
    hide TrimRight, DecodeFields;
    TextDecodesIff(TrimRight(record));
  }

  lemma TextDecodesIff(text: string)
    ensures DecodeFields(Split(text)).Ok? <==> HasRecordText(text)
  {
    hide ParseInt64, IsDurationText, Split, JoinTabs, DecodeFields;
    var f := Split(text);
    if DecodeFields(f).Ok? {
      SplitJoins(text);
      FieldsDecodeIff(f);
      FiveJoined(f);
      assert IsRecordText(text, f[0], f[1], f[2], f[3], f[4]);
    }
    if name, time, fate, result, execTime :| IsRecordText(text, name, time, fate, result, execTime) {
      RecordTextDecodes(text, name, time, fate, result, execTime);
    }
  }

  lemma RecordTextDecodes(text: string, name: string, time: string, fate: string, result: string, execTime: string)
    requires IsRecordText(text, name, time, fate, result, execTime)
    ensures DecodeFields(Split(text)).Ok?
  {
    SplitFive(name, time, fate, result, execTime);
    FieldsDecodeIff([name, time, fate, result, execTime]);
    hide Split, ParseInt64, DecodeFields;
  }

  lemma FieldsDecodeIff(f: seq<string>)
    ensures DecodeFields(f).Ok? <==>
            && |f| == 5 && ParseInt64(f[1]).Some?
            && f[2] in {"succeeded", "failed", "cancelled", "true", "false"}
            && f[3] in {"Good", "Failed", "Backoff"}
            && IsDurationText(f[4])
  {
    hide ParseInt64, IsDurationText, DecodeName;
  }

  lemma FiveJoined(f: seq<string>)
    requires |f| == 5
    ensures JoinTabs(f) == f[0] + "\t" + f[1] + "\t" + f[2] + "\t" + f[3] + "\t" + f[4]
  {
    var t := "\t";
    assert f[3..][1..] == f[4..] && f[2..][1..] == f[3..] && f[1..][1..] == f[2..];
    assert JoinTabs(f[4..]) == f[4];
    assert JoinTabs(f[3..]) == f[3] + t + f[4];
    assert JoinTabs(f[2..]) == f[2] + t + JoinTabs(f[3..]);
    assert JoinTabs(f[1..]) == f[1] + t + JoinTabs(f[2..]);
    ConcatTail(f[0] + t + f[1] + t + f[2] + t, f[3], t, f[4]);
    ConcatTail(f[0] + t + f[1] + t, f[2], t, JoinTabs(f[3..]));
    ConcatTail(f[0] + t, f[1], t, JoinTabs(f[2..]));
    hide JoinTabs;
  }

  /** A name of two bytes that does not come back: the job called backslash-n. */
  lemma BackslashNameIsAltered()
    ensures DecodeName(EncodeName("\\n")) == "\n"
  {
  }

  /** A record is exactly 64 bytes and holds no newline. */
  lemma RecordShape(e: RunLogEntry)
    requires Fits(e)
    ensures |Encode(e).value| == LOG_ENTRY_LEN && '\n' !in Encode(e).value
  {
    EncodedNameChars(e.jobName);
    IntTextChars(e.time);
    FateReadsBack(e.fate);
    StatusReadsBack(e.result);
  }

  // ---------- Storable entries ----------

  /** Entries that their record represents exactly; everything a run log file holds is of this kind. */
  ghost predicate Storable(e: RunLogEntry) {
    Fits(e) && Stored(e) == e
  }

  lemma {:induction false} EscapeUnescape(y: string, c: char, letter: char)
    requires c !in y && letter != '\\' && c != '\\'
    ensures Escape(Unescape(y, c, letter), c, letter) == y
  {
    if y != [] {
      HeadTail(y);
      if |y| >= 2 && y[0] == '\\' && y[1] == letter {
        EscapeUnescape(y[2..], c, letter);
        EscapeCons(c, Unescape(y[2..], c, letter), c, letter);
        assert ['\\', letter] + y[2..] == y;
      } else {
        EscapeUnescape(y[1..], c, letter);
        EscapeCons(y[0], Unescape(y[1..], c, letter), c, letter);
      }
    }
  }

  lemma {:induction false} UnescapedChars(y: string, c: char, letter: char, other: char)
    requires other != c && other !in y
    ensures other !in Unescape(y, c, letter)
  {
    if y != [] {
      if |y| >= 2 && y[0] == '\\' && y[1] == letter {
        UnescapedChars(y[2..], c, letter, other);
      } else {
        UnescapedChars(y[1..], c, letter, other);
      }
    }
  }

  /** Encoding what was read back gives the same record: rewriting a file never changes a record. */
  lemma ReencodeStored(e: RunLogEntry)
    requires Fits(e)
    ensures Encode(Stored(e)) == Encode(e) && Storable(Stored(e))
  {
    var y := EncodeName(e.jobName);
    var d := DecodeName(y);
    NameRoundTrip(e.jobName);
    EncodedNameChars(e.jobName);
    assert Truncated(d) == d;
    var u := Unescape(y, '\n', 'n');
    UnescapedChars(y, '\n', 'n', '\t');
    EscapeUnescape(y, '\n', 'n');
    EscapeUnescape(u, '\t', 't');
    UnescapeNewlines(d);
    EscapeCommutes(d);
    assert EncodeName(d) == Escape(Escape(d, '\t', 't'), '\n', 'n') == Escape(u, '\n', 'n') == y;
  }

  /** The two escapings do not interfere. */
  lemma {:induction false} EscapeCommutes(s: string)
    ensures EscapeBoth(s) == Escape(Escape(s, '\t', 't'), '\n', 'n')
  {
    hide Escape, EscapeBoth;
    if s == [] {
      EmptyStrings();
    } else {
      var h, t := s[0], s[1..];
      HeadTail(s);
      EscapeCommutes(t);
      EscapeBothCons(h, t);
      EscapeCons(h, t, '\t', 't');
      if h == '\t' {
        EscapeTwo('\\', 't', Escape(t, '\t', 't'), '\n', 'n');
      } else {
        EscapeCons(h, Escape(t, '\t', 't'), '\n', 'n');
      }
    }
  }
}
