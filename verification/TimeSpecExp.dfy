/**
 Parsed time specs and their evaluation: TimeSpecExp, SetExp and their Eval methods (parse_time_spec.y).
 */
module TimeSpecExps {
  import opened Wrappers
  import opened Decimal
  import opened TimeSpecs
  import opened Arithmetic

  datatype SetExp =
    | StepSetExp(step: nat)
    | EnumSetExp(ints: seq<nat>)
    | RangeSetExp(start: nat, end: nat)
    | AnySetExp
  {
    function ToString(): string {
      match this
      case StepSetExp(step) => "*/" + NatText(step)
      case EnumSetExp(ints) => JoinInts(NormValues(ints))
      case RangeSetExp(start, end) => NatText(start) + "-" + NatText(end)
      case AnySetExp => ""
    }
  }

  datatype TimeSpecExp =
    | OneValTimeSpecExp(val: nat)
    | WildcardTimeSpecExp
    | SetTimeSpecExp(setExp: SetExp)
    | RandomTimeSpecExp(setExp: SetExp)

  function JoinInts(ints: seq<int>): string {
    if ints == [] then "" else if |ints| == 1 then IntText(ints[0]) else IntText(ints[0]) + "," + JoinInts(ints[1..])
  }

  // ---------- Distinct values in order ----------

  ghost predicate StrictlyAscending(s: seq<int>) {
    forall i, j | 0 <= i < j < |s| :: s[i] < s[j]
  }

  /** v added to a strictly ascending sequence, unless it is there. */
  function AddValue(s: seq<int>, v: int): seq<int> {
    if s == [] || v < s[0] then [v] + s
    else if v == s[0] then s
    else [s[0]] + AddValue(s[1..], v)
  }

  /** The distinct values of a sequence, ascending. */
  function NormValues(ints: seq<int>): seq<int> {
    if ints == [] then [] else AddValue(NormValues(ints[1..]), ints[0])
  }

  lemma {:induction false} AddValueMembers(s: seq<int>, v: int, x: int)
    ensures x in AddValue(s, v) <==> x == v || x in s
  {
    if s != [] {
      AddValueMembers(s[1..], v, x);
      assert s == [s[0]] + s[1..];
    }
  }

  lemma AscendingCons(h: int, t: seq<int>)
    requires StrictlyAscending(t) && forall x | x in t :: h < x
    ensures StrictlyAscending([h] + t)
  {
    assert forall i | 0 <= i < |t| :: t[i] in t;
  }

  lemma AscendingTail(s: seq<int>)
    requires StrictlyAscending(s) && s != []
    ensures StrictlyAscending(s[1..]) && forall x | x in s[1..] :: s[0] < x
  {
  }

  lemma {:induction false} AddValueSorted(s: seq<int>, v: int)
    requires StrictlyAscending(s)
    ensures StrictlyAscending(AddValue(s, v))
    ensures forall x :: x in AddValue(s, v) <==> x == v || x in s
  {
    forall x ensures x in AddValue(s, v) <==> x == v || x in s { AddValueMembers(s, v, x); }
    if s != [] {
      AscendingTail(s);
      if v > s[0] {
        AddValueSorted(s[1..], v);
        AscendingCons(s[0], AddValue(s[1..], v));
      } else if v < s[0] {
        AscendingCons(v, s);
      }
    }
  }

  lemma {:induction false} NormValuesSorted(ints: seq<int>)
    ensures StrictlyAscending(NormValues(ints))
    ensures forall x :: x in NormValues(ints) <==> x in ints
  {
    if ints != [] {
      NormValuesSorted(ints[1..]);
      AddValueSorted(NormValues(ints[1..]), ints[0]);
      assert forall x :: x in ints <==> x == ints[0] || x in ints[1..];
    }
  }

  /** A set of values has one strictly ascending listing. */
  lemma {:induction false} AscendingUnique(a: seq<int>, b: seq<int>)
    requires StrictlyAscending(a) && StrictlyAscending(b)
    requires forall x :: x in a <==> x in b
    ensures a == b
  {
    assert a != [] ==> a[0] in a;
    assert b != [] ==> b[0] in b;
    if a != [] {
      assert a[0] == b[0];
      forall x ensures x in a[1..] <==> x in b[1..] {
        assert x in a[1..] <==> x in a && x != a[0] by { TailMembers(a, x); }
        assert x in b[1..] <==> x in b && x != b[0] by { TailMembers(b, x); }
      }
      AscendingUnique(a[1..], b[1..]);
    }
  }

  lemma TailMembers(s: seq<int>, x: int)
    requires s != [] && StrictlyAscending(s)
    ensures x in s[1..] <==> x in s && x != s[0]
  {
  }

  lemma NormValuesIdempotent(s: seq<int>)
    requires StrictlyAscending(s)
    ensures NormValues(s) == s
  {
  }

  /** normValues: the loop over the sorted values, with a map of those seen. */
  method NormValuesLoop(sortedInts: seq<int>) returns (uniqInts: seq<int>)
    requires forall i, j | 0 <= i < j < |sortedInts| :: sortedInts[i] <= sortedInts[j]
    ensures uniqInts == NormValues(sortedInts)
  {
    var uniq: set<int> := {};
    uniqInts := [];
    for n := 0 to |sortedInts|
      invariant forall x :: x in uniq <==> x in sortedInts[..n]
      invariant forall x :: x in uniqInts <==> x in uniq
      invariant StrictlyAscending(uniqInts)
    {
      var v := sortedInts[n];
      assert forall x | x in uniq :: x <= v;
      assert sortedInts[..n + 1] == sortedInts[..n] + [v];
      if v !in uniq {
        assert forall i | 0 <= i < |uniqInts| :: uniqInts[i] in uniqInts;
        uniqInts := uniqInts + [v];
        uniq := uniq + {v};
      }
    }
    assert sortedInts[..|sortedInts|] == sortedInts;
    NormValuesSorted(sortedInts);
    AscendingUnique(uniqInts, NormValues(sortedInts));
  }

  // ---------- Evaluation ----------

  /** Two's-complement wrap-around of int64, the width of Go's int here. */
  function Wrap64(n: int): int {
    (n - MIN_INT64) % 0x1_0000_0000_0000_0000 + MIN_INT64
  }

  /** The step loop of StepSetExp.Eval, cut off after n rounds: what it returns, if it returns by then. */
  function StepLoop(v: int, max: int, step: int, n: nat): Option<seq<int>>
    decreases n
  {
    if v > max then Some([])
    else if n == 0 then None
    else
      var rest := StepLoop(Wrap64(v + step), max, step, n - 1);
      if rest.Some? then Some([v] + rest.value) else None
  }

  /** The range of a field, as ParseFullTimeSpec gives them. */
  predicate IsField(min: int, max: int) {
    0 <= min <= 1 && min <= max <= 59
  }

  /** As many rounds as the step loop can need for a field. */
  function Rounds(min: int, max: int): nat {
    if min <= max then max - min + 4 else 0
  }

  /** The step loop terminates and stays in range just when the step is positive and cannot overflow. */
  predicate StepIsSafe(step: int, min: int) {
    1 <= step && min + step <= MAX_INT64
  }

  /** Every step-th value from v up to max. */
  function StepValues(v: int, max: int, step: int): seq<int>
    requires step >= 1
    decreases max - v
  {
    if v > max then [] else [v] + StepValues(v + step, max, step)
  }

  /** With a safe step the loop returns what StepValues says, and in no more rounds than there are values. */
  lemma {:induction false} StepLoopReturns(v: int, min: int, max: int, step: int, n: nat)
    requires StepIsSafe(step, min) && MIN_INT64 <= min <= v && max <= MAX_INT64 && max - v < n
    requires v == min || v + step <= MAX_INT64 || v > max
    requires max + max - min <= MAX_INT64
    ensures StepLoop(v, max, step, n) == Some(StepValues(v, max, step))
    decreases n
  {
    if v <= max {
      assert v + step <= MAX_INT64 && Wrap64(v + step) == v + step;
      StepLoopReturns(v + step, min, max, step, n - 1);
    }
  }

  /** A step of zero never returns. */
  lemma {:induction false} StepZeroNeverReturns(v: int, max: int, n: nat)
    requires MIN_INT64 <= v <= max && v <= MAX_INT64
    ensures StepLoop(v, max, 0, n) == None
  {
    if n > 0 {
      StepZeroNeverReturns(v, max, n - 1);
    }
  }

  /**
   Exactly when the step loop is any use: it returns, with values of the field alone, if and only if the step is
   positive and its first addition does not overflow.
   */
  lemma StepLoopUsableIff(min: int, max: int, step: int, n: nat)
    requires 0 <= min <= max < n && max + max <= MAX_INT64 && 0 <= step <= MAX_INT64
    ensures (StepLoop(min, max, step, n).Some? && forall v | v in StepLoop(min, max, step, n).value :: min <= v <= max)
            <==> StepIsSafe(step, min)
  {
    if StepIsSafe(step, min) {
      StepLoopReturns(min, min, max, step, n);
      StepValuesDenote(min, max, step);
    } else if step == 0 {
      StepZeroNeverReturns(min, max, n);
    } else {
      var next := Wrap64(min + step);
      assert next == min + step - 0x1_0000_0000_0000_0000 < min;
      if StepLoop(min, max, step, n).Some? {
        var rest := StepLoop(next, max, step, n - 1).value;
        assert rest[0] == next;
        assert StepLoop(min, max, step, n).value == [min] + rest;
        assert next in [min] + rest;
      }
    }
  }

  /** What the loop returns, it returns with more rounds too. */
  lemma {:induction false} MoreRounds(v: int, max: int, step: int, n: nat, m: nat)
    requires StepLoop(v, max, step, n).Some? && n <= m
    ensures StepLoop(v, max, step, m) == StepLoop(v, max, step, n)
    decreases n
  {
    if v <= max {
      MoreRounds(Wrap64(v + step), max, step, n - 1, m - 1);
    }
  }

  /** The one step that overflows, and what the loop makes of it: two values that are not of the field. */
  lemma OverflowingStep(max: int, n: nat)
    requires 1 <= max <= 59 && n >= 4
    ensures StepLoop(1, max, MAX_INT64, n) == Some([1, MIN_INT64, -1])
  {
    assert Wrap64(1 + MAX_INT64) == MIN_INT64 && Wrap64(MIN_INT64 + MAX_INT64) == -1;
    assert Wrap64(-1 + MAX_INT64) == MAX_INT64 - 1;
    assert StepLoop(MAX_INT64 - 1, max, MAX_INT64, n - 3) == Some([]);
    assert [-1] + [] == [-1];
    assert StepLoop(-1, max, MAX_INT64, n - 2) == Some([-1]);
    assert StepLoop(MIN_INT64, max, MAX_INT64, n - 1) == Some([MIN_INT64] + [-1]);
    assert [1] + ([MIN_INT64] + [-1]) == [1, MIN_INT64, -1];
  }

  /** For every field and int64 step, the loop returns, within that many rounds, if and only if the step is not 0. */
  lemma StepReturnsIff(min: int, max: int, step: int)
    requires IsField(min, max) && 0 <= step <= MAX_INT64
    ensures StepLoop(min, max, step, Rounds(min, max)).Some? <==> step >= 1
    ensures step == 0 ==> forall n: nat :: StepLoop(min, max, step, n).None?
    ensures StepIsSafe(step, min) ==> StepLoop(min, max, step, Rounds(min, max)) == Some(StepValues(min, max, step))
    ensures step >= 1 && !StepIsSafe(step, min) ==>
              StepLoop(min, max, step, Rounds(min, max)) == Some([1, MIN_INT64, -1])
  {
    if step == 0 {
      forall n: nat ensures StepLoop(min, max, step, n).None? { StepZeroNeverReturns(min, max, n); }
    } else if StepIsSafe(step, min) {
      StepLoopReturns(min, min, max, step, Rounds(min, max));
    } else {
      assert min == 1 && step == MAX_INT64;
      OverflowingStep(max, Rounds(min, max));
    }
  }

  lemma {:induction false} StepValuesDenote(v: int, max: int, step: int)
    requires step >= 1
    ensures StrictlyAscending(StepValues(v, max, step))
    ensures forall x :: x in StepValues(v, max, step) <==> v <= x <= max && (x - v) % step == 0
    decreases max - v
  {
    if v <= max {
      StepValuesDenote(v + step, max, step);
      var rest := StepValues(v + step, max, step);
      assert forall i | 0 <= i < |rest| :: rest[i] in rest;
      forall x ensures x in [v] + rest <==> v <= x <= max && (x - v) % step == 0 {
        NextStep(x, v, max, step);
      }
    }
  }

  /** A multiple of the step above v is v itself or one above v + step. */
  lemma NextStep(x: int, v: int, max: int, step: int)
    requires step >= 1 && v <= max
    ensures v <= x <= max && (x - v) % step == 0
            <==> x == v || (v + step <= x <= max && (x - (v + step)) % step == 0)
  {
    StepModulo(x - v, step);
    assert x - (v + step) == x - v - step;
  }

  lemma StepModulo(d: int, step: int)
    requires step >= 1
    ensures 0 < d < step ==> d % step != 0
    ensures d >= step ==> ((d - step) % step == 0 <==> d % step == 0)
    ensures 0 % step == 0
  {
    if d >= step {
      var q, r := (d - step) / step, (d - step) % step;
      assert d - step == q * step + r;
      QuotientUnique(d / step, d % step, q + 1, r, step);
    } else if 0 <= d {
      QuotientUnique(d / step, d % step, 0, d, step);
    }
    QuotientUnique(0 / step, 0 % step, 0, 0, step);
  }

  function RangeValues(start: int, end: int): seq<int> {
    if start > end then [] else seq(end - start + 1, i => start + i)
  }

  datatype EvalError = TooSmall | TooGreat | StartAfterEnd

  /** What evaluating an expression comes to; it may not come to an end. */
  datatype EvalResult<T> = Evaluated(value: T) | Invalid(error: EvalError) | Diverges

  function FirstOutside(ints: seq<int>, min: int, max: int): Option<EvalError> {
    if ints == [] then None
    else if ints[0] < min then Some(TooSmall)
    else if ints[0] > max then Some(TooGreat)
    else FirstOutside(ints[1..], min, max)
  }

  function EvalSet(e: SetExp, min: int, max: int): EvalResult<seq<int>> {
    match e
    case StepSetExp(step) =>
      var vals := StepLoop(min, max, step, Rounds(min, max));
      if vals.Some? then Evaluated(vals.value) else Diverges
    case EnumSetExp(ints) =>
      var outside := FirstOutside(ints, min, max);
      if outside.Some? then Invalid(outside.value) else Evaluated(NormValues(ints))
    case RangeSetExp(start, end) =>
      if start < min then Invalid(TooSmall)
      else if end > max then Invalid(TooGreat)
      else if start > end then Invalid(StartAfterEnd)
      else Evaluated(RangeValues(start, end))
    case AnySetExp => Evaluated(RangeValues(min, max))
  }

  /** The values an expression stands for. */
  ghost predicate Denotes(e: SetExp, min: int, max: int, v: int) {
    match e
    case StepSetExp(step) => step >= 1 && min <= v <= max && (v - min) % step == 0
    case EnumSetExp(ints) => v in ints
    case RangeSetExp(start, end) => start <= v <= end
    case AnySetExp => min <= v <= max
  }

  lemma {:induction false} FirstOutsideIff(ints: seq<int>, min: int, max: int)
    ensures FirstOutside(ints, min, max).None? <==> forall v | v in ints :: min <= v <= max
  {
    if ints != [] {
      FirstOutsideIff(ints[1..], min, max);
      assert ints[0] in ints;
      assert forall x :: x in ints <==> x == ints[0] || x in ints[1..];
    }
  }

  /** A step whose first addition overflows. */
  predicate Overflows(e: SetExp, min: int) {
    e.StepSetExp? && min + e.step > MAX_INT64
  }

  /** The values are the denoted ones, strictly ascending and within the field's range. */
  ghost predicate Exact(vals: seq<int>, e: SetExp, min: int, max: int) {
    && StrictlyAscending(vals)
    && (forall v :: v in vals <==> Denotes(e, min, max, v))
    && (forall v | v in vals :: min <= v <= max)
  }

  lemma EvalDenotes(e: SetExp, min: int, max: int)
    requires EvalSet(e, min, max).Evaluated? && !Overflows(e, min)
    requires e.StepSetExp? ==> IsField(min, max)
    ensures Exact(EvalSet(e, min, max).value, e, min, max)
  {
    match e
    case StepSetExp(step) =>
      StepReturnsIff(min, max, step);
      StepValuesDenote(min, max, step);
    case EnumSetExp(ints) =>
      FirstOutsideIff(ints, min, max);
      NormValuesSorted(ints);
    case RangeSetExp(start, end) =>
      RangeValuesDenote(start, end);
    case AnySetExp =>
      RangeValuesDenote(min, max);
  }

  /** Steps that the lexer can return. */
  predicate Int64Step(e: SetExp) {
    e.StepSetExp? ==> e.step <= MAX_INT64
  }

  /**
   Main result: evaluation yields exactly the denoted values, strictly ascending and within the field's range, if and
   only if it is not of a step that overflows; it then yields values out of the range.
   */
  lemma EvalDenotesIff(e: SetExp, min: int, max: int)
    requires IsField(min, max) && Int64Step(e) && EvalSet(e, min, max).Evaluated?
    ensures Exact(EvalSet(e, min, max).value, e, min, max) <==> !Overflows(e, min)
    ensures Overflows(e, min) ==> MIN_INT64 in EvalSet(e, min, max).value
  {
    if Overflows(e, min) {
      StepReturnsIff(min, max, e.step);
      assert [1, MIN_INT64, -1][1] == MIN_INT64;
      assert MIN_INT64 in EvalSet(e, min, max).value && !(min <= MIN_INT64 <= max);
    } else {
      EvalDenotes(e, min, max);
    }
  }

  lemma RangeValuesDenote(start: int, end: int)
    ensures StrictlyAscending(RangeValues(start, end))
    ensures forall v :: v in RangeValues(start, end) <==> start <= v <= end
  {
    var vals := RangeValues(start, end);
    forall v | start <= v <= end ensures v in vals {
      assert vals[v - start] == v;
    }
  }

  /**
   Evaluation is refused exactly when a listed value is out of range or a range runs backwards, and does not end exactly
   for a step of 0.
   */
  lemma EvalRefusedIff(e: SetExp, min: int, max: int)
    requires IsField(min, max) && Int64Step(e)
    ensures EvalSet(e, min, max).Invalid? <==> NamesOutside(e, min, max)
    ensures EvalSet(e, min, max).Diverges? <==> e == StepSetExp(0)
  {
    if e.EnumSetExp? {
      FirstOutsideIff(e.ints, min, max);
    }
    if e.StepSetExp? {
      StepReturnsIff(min, max, e.step);
    }
  }

  // The loops that evaluate set expressions.

  /** With a step of 0 there is no return. */
  method StepEval(step: int, min: int, max: int) returns (vals: seq<int>)
    requires IsField(min, max) && 1 <= step <= MAX_INT64
    ensures StepLoop(min, max, step, Rounds(min, max)) == Some(vals)
  {
    StepReturnsIff(min, max, step);
    vals := [];
    var v := min;
    ghost var n, all := Rounds(min, max), StepLoop(min, max, step, Rounds(min, max)).value;
    assert [] + all == all;
    while v <= max
      invariant StepLoop(v, max, step, n).Some? && vals + StepLoop(v, max, step, n).value == all
      decreases n
    {
      var next := Wrap64(v + step);
      var rest := StepLoop(next, max, step, n - 1).value;
      assert vals + ([v] + rest) == (vals + [v]) + rest;
      vals := vals + [v];
      v := next;
      n := n - 1;
    }
    assert vals + [] == vals;
  }

  method RangeEval(start: int, end: int) returns (vals: seq<int>)
    ensures vals == RangeValues(start, end)
  {
    vals := [];
    var i := start;
    while i <= end
      invariant start <= i <= if start <= end then end + 1 else start
      invariant vals == seq(i - start, k => start + k)
    {
      vals := vals + [i];
      i := i + 1;
    }
    assert |vals| == |RangeValues(start, end)| && forall k | 0 <= k < |vals| :: vals[k] == RangeValues(start, end)[k];
  }

  function EvalExp(e: TimeSpecExp, min: int, max: int): EvalResult<TimeSpec> {
    match e
    case OneValTimeSpecExp(val) =>
      if val < min then Invalid(TooSmall) else if val > max then Invalid(TooGreat) else Evaluated(OneValTimeSpec(val))
    case WildcardTimeSpecExp => Evaluated(WildcardTimeSpec)
    case SetTimeSpecExp(setExp) =>
      (match EvalSet(setExp, min, max)
       case Evaluated(vals) => Evaluated(SetTimeSpec(setExp.ToString(), vals))
       case Invalid(error) => Invalid(error)
       case Diverges => Diverges)
    case RandomTimeSpecExp(setExp) =>
      (match EvalSet(setExp, min, max)
       case Evaluated(vals) => Evaluated(RandomTimeSpec("R" + setExp.ToString(), vals, None))
       case Invalid(error) => Invalid(error)
       case Diverges => Diverges)
  }

  ghost predicate ExpOverflows(e: TimeSpecExp, min: int) {
    (e.SetTimeSpecExp? || e.RandomTimeSpecExp?) && Overflows(e.setExp, min)
  }

  /** Every accepted field names at least one value of its field and no other, unless it is a step that overflows. */
  lemma EvaluatedIsWithin(e: TimeSpecExp, min: int, max: int)
    requires IsField(min, max) && EvalExp(e, min, max).Evaluated?
    requires e.SetTimeSpecExp? || e.RandomTimeSpecExp? ==>
               Int64Step(e.setExp) && (e.setExp.EnumSetExp? ==> e.setExp.ints != [])
    ensures EvalExp(e, min, max).value.Within(min, max) <==> !ExpOverflows(e, min)
  {
    if e.SetTimeSpecExp? || e.RandomTimeSpecExp? {
      EvalDenotesIff(e.setExp, min, max);
      EvalRefusedIff(e.setExp, min, max);
      if !ExpOverflows(e, min) {
        DenotesSome(e.setExp, min, max);
      }
    }
  }

  lemma DenotesSome(e: SetExp, min: int, max: int)
    requires min <= max && EvalSet(e, min, max).Evaluated? && Exact(EvalSet(e, min, max).value, e, min, max)
    requires e.EnumSetExp? ==> e.ints != []
    requires e.StepSetExp? ==> e.step >= 1
    ensures EvalSet(e, min, max).value != []
  {
    var v := match e
      case StepSetExp(_) => min
      case EnumSetExp(ints) => ints[0]
      case RangeSetExp(start, _) => start
      case AnySetExp => min;
    assert e.StepSetExp? ==> (min - min) % e.step == 0;
    assert Denotes(e, min, max, v);
    assert v in EvalSet(e, min, max).value;
  }

  /** The values a field's expression stands for. */
  ghost predicate ExpDenotes(e: TimeSpecExp, min: int, max: int, v: int) {
    match e
    case OneValTimeSpecExp(val) => v == val
    case WildcardTimeSpecExp => true
    case SetTimeSpecExp(setExp) => Denotes(setExp, min, max, v)
    case RandomTimeSpecExp(setExp) => Denotes(setExp, min, max, v)
  }

  /** A spec stands for an expression: it allows what that denotes, and is a wildcard or random as that is. */
  ghost predicate StandsFor(spec: TimeSpec, e: TimeSpecExp, min: int, max: int) {
    && (forall v :: spec.Allows(v) <==> ExpDenotes(e, min, max, v))
    && (spec.IsWildcard() <==> e == WildcardTimeSpecExp)
    && (spec.RandomTimeSpec? <==> e.RandomTimeSpecExp?)
    && (spec.RandomTimeSpec? ==> spec.pickedVal.None?)
  }

  /** Main result: what a field is evaluated to allows exactly the values that its expression denotes. */
  lemma EvaluatedStandsFor(e: TimeSpecExp, min: int, max: int)
    requires IsField(min, max) && EvalExp(e, min, max).Evaluated? && !ExpOverflows(e, min)
    ensures StandsFor(EvalExp(e, min, max).value, e, min, max)
  {
    if e.SetTimeSpecExp? || e.RandomTimeSpecExp? {
      EvalDenotes(e.setExp, min, max);
      hide StrictlyAscending, Denotes, EvalSet;
    }
  }

  /** A field is refused exactly when it names a value out of range or a range that runs backwards. */
  lemma ExpRefusedIff(e: TimeSpecExp, min: int, max: int)
    requires IsField(min, max)
    requires e.SetTimeSpecExp? || e.RandomTimeSpecExp? ==> Int64Step(e.setExp)
    ensures EvalExp(e, min, max).Invalid? <==>
            match e
            case OneValTimeSpecExp(val) => !(min <= val <= max)
            case WildcardTimeSpecExp => false
            case SetTimeSpecExp(setExp) => NamesOutside(setExp, min, max)
            case RandomTimeSpecExp(setExp) => NamesOutside(setExp, min, max)
  {
    if e.SetTimeSpecExp? || e.RandomTimeSpecExp? {
      EvalRefusedIff(e.setExp, min, max);
      hide EvalSet;
    }
  }

  ghost predicate NamesOutside(e: SetExp, min: int, max: int) {
    || (e.EnumSetExp? && exists v | v in e.ints :: !(min <= v <= max))
    || (e.RangeSetExp? && !(min <= e.start <= e.end <= max))
  }
}
