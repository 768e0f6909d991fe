/**
 Time specs: the conditions a schedule puts on the fields of a point in time (time_spec.go).
 */
module TimeSpecs {
  import opened Wrappers
  import opened Decimal
  import opened Calendar

  datatype TimeSpec =
    | WildcardTimeSpec
    | OneValTimeSpec(val: int)
    | SetTimeSpec(desc: string, vals: seq<int>)
    | RandomTimeSpec(desc: string, vals: seq<int>, pickedVal: Option<int>)
  {
    predicate IsWildcard() {
      WildcardTimeSpec?
    }

    function ToString(): string {
      match this
      case WildcardTimeSpec => "*"
      case OneValTimeSpec(val) => IntText(val)
      case SetTimeSpec(desc, _) => desc
      case RandomTimeSpec(desc, _, pickedVal) =>
        if pickedVal.None? then desc else desc + "->" + IntText(pickedVal.value)
    }

    /** Satisfied panics on a random spec that was never derandomized. */
    predicate Ready() {
      RandomTimeSpec? ==> pickedVal.Some?
    }

    predicate Satisfied(v: int)
      requires Ready()
    {
      match this
      case WildcardTimeSpec => true
      case OneValTimeSpec(val) => val == v
      case SetTimeSpec(_, vals) => v in vals
      case RandomTimeSpec(_, _, pickedVal) => pickedVal.value == v
    }

    /** Derandomize, the random choice being the given index; a value picked earlier stays. */
    function Derandomized(choice: nat): TimeSpec
      requires RandomTimeSpec? ==> choice < |vals|
    {
      if RandomTimeSpec? && pickedVal.None? then this.(pickedVal := Some(vals[choice])) else this
    }

    /** What a spec allows when it is written, before any random choice. */
    ghost predicate Allows(v: int) {
      match this
      case WildcardTimeSpec => true
      case OneValTimeSpec(val) => val == v
      case SetTimeSpec(_, vals) => v in vals
      case RandomTimeSpec(_, vals, pickedVal) => v in vals
    }

    /** All values the spec names, of which there is at least one, lie in the range of its field. */
    ghost predicate Within(min: int, max: int) {
      match this
      case WildcardTimeSpec => true
      case OneValTimeSpec(val) => min <= val <= max
      case SetTimeSpec(_, vals) => vals != [] && forall v | v in vals :: min <= v <= max
      case RandomTimeSpec(_, vals, pickedVal) =>
        vals != [] && (forall v | v in vals :: min <= v <= max) && (pickedVal.Some? ==> pickedVal.value in vals)
    }
  }

  datatype FullTimeSpec = FullTimeSpec(
    sec: TimeSpec,
    min: TimeSpec,
    hour: TimeSpec,
    monthDay: TimeSpec,
    mon: TimeSpec,
    wday: TimeSpec)
  {
    function ToString(): string {
      sec.ToString() + " " + min.ToString() + " " + hour.ToString() + " " +
      monthDay.ToString() + " " + mon.ToString() + " " + wday.ToString()
    }

    predicate Ready() {
      sec.Ready() && min.Ready() && hour.Ready() && monthDay.Ready() && mon.Ready() && wday.Ready()
    }

    ghost predicate Within() {
      sec.Within(0, 59) && min.Within(0, 59) && hour.Within(0, 23) &&
      monthDay.Within(1, 31) && mon.Within(1, 12) && wday.Within(0, 6)
    }

    /** Both day fields must be satisfied if either is a wildcard; otherwise one is enough. */
    predicate DaySatisfied(weekday: int, mday: int)
      requires Ready()
    {
      if !monthDay.IsWildcard() && !wday.IsWildcard() then wday.Satisfied(weekday) || monthDay.Satisfied(mday)
      else wday.Satisfied(weekday) && monthDay.Satisfied(mday)
    }

    predicate Satisfied(t: nat)
      requires Ready()
    {
      var date := DateOf(UnixDay(t));
      var nondayMatch := sec.Satisfied(Second(t)) && min.Satisfied(Minute(t)) && hour.Satisfied(Hour(t)) &&
                         mon.Satisfied(date.month);
      nondayMatch && DaySatisfied(WeekdayOf(UnixDay(t)), date.mday)
    }
  }

  /** SetTimeSpec.Satisfied: the loop over the values. */
  method SatisfiedBySet(vals: seq<int>, v: int) returns (satisfied: bool)
    ensures satisfied <==> v in vals
  {
    for i := 0 to |vals|
      invariant v !in vals[..i]
    {
      if v == vals[i] {
        return true;
      }
    }
    satisfied := false;
  }

  /** Whether a time is satisfying depends on its second alone. */
  lemma SatisfiedBySecond(spec: FullTimeSpec, t: nat, t': nat)
    requires spec.Ready() && UnixSecond(t) == UnixSecond(t')
    ensures spec.Satisfied(t) <==> spec.Satisfied(t')
  {
  }

  // ---------- What a spec asks of a time ----------

  /** What is asked of the fields other than the day of the month and of the week. */
  predicate ClockAndMonth(spec: FullTimeSpec, t: nat)
    requires spec.Ready()
  {
    && spec.sec.Satisfied(Second(t)) && spec.min.Satisfied(Minute(t)) && spec.hour.Satisfied(Hour(t))
    && spec.mon.Satisfied(DateOf(UnixDay(t)).month)
  }

  /** Without a demand on the weekday, the day of the month decides. */
  lemma MonthDayAlone(spec: FullTimeSpec, t: nat)
    requires spec.Ready() && spec.wday == WildcardTimeSpec
    ensures spec.Satisfied(t) <==> ClockAndMonth(spec, t) && spec.monthDay.Satisfied(DateOf(UnixDay(t)).mday)
  {
  }

  /** Without a demand on the day of the month, the weekday decides. */
  lemma WeekdayAlone(spec: FullTimeSpec, t: nat)
    requires spec.Ready() && spec.monthDay == WildcardTimeSpec
    ensures spec.Satisfied(t) <==> ClockAndMonth(spec, t) && spec.wday.Satisfied(WeekdayOf(UnixDay(t)))
  {
  }

  /** The spec without its demand on the weekday, and without that on the day of the month. */
  function OnMonthDays(spec: FullTimeSpec): FullTimeSpec {
    spec.(wday := WildcardTimeSpec)
  }

  function OnWeekdays(spec: FullTimeSpec): FullTimeSpec {
    spec.(monthDay := WildcardTimeSpec)
  }

  /** With demands on both, a time is satisfying if and only if it is for either demand alone. */
  lemma EitherDay(spec: FullTimeSpec, t: nat)
    requires spec.Ready() && !spec.wday.IsWildcard() && !spec.monthDay.IsWildcard()
    ensures spec.Satisfied(t) <==> OnMonthDays(spec).Satisfied(t) || OnWeekdays(spec).Satisfied(t)
  {
  }

  /** A derandomized spec other than a random one is satisfied by exactly the values it allows. */
  lemma SatisfiedIffAllowed(spec: TimeSpec, v: int)
    requires spec.Ready()
    ensures !spec.RandomTimeSpec? ==> (spec.Satisfied(v) <==> spec.Allows(v))
    ensures spec.RandomTimeSpec? ==> (spec.Satisfied(v) <==> spec.pickedVal == Some(v))
  {
  }

  /** Of a random spec each value can be picked, and only one of its values, which alone then satisfies it. */
  lemma EachValueCanBePicked(spec: TimeSpec, v: int)
    requires spec.RandomTimeSpec? && spec.pickedVal.None?
    ensures spec.Allows(v) <==> exists choice | 0 <= choice < |spec.vals| :: Picks(spec, choice, v)
  {
    if spec.Allows(v) {
      var choice :| 0 <= choice < |spec.vals| && spec.vals[choice] == v;
      assert Picks(spec, choice, v);
    }
    forall choice | 0 <= choice < |spec.vals| && Picks(spec, choice, v) ensures spec.Allows(v) {
      assert spec.Derandomized(choice).Satisfied(v) && spec.vals[choice] in spec.vals;
    }
  }

  /** With this choice, v and nothing else satisfies the spec. */
  ghost predicate Picks(spec: TimeSpec, choice: nat, v: int)
    requires spec.RandomTimeSpec? && choice < |spec.vals|
  {
    spec.Derandomized(choice).Ready() && forall w :: spec.Derandomized(choice).Satisfied(w) <==> w == v
  }

  /** A derandomized spec has a value of its field that satisfies it, namely one it allowed. */
  lemma Satisfiable(spec: TimeSpec, min: int, max: int) returns (v: int)
    requires spec.Within(min, max) && spec.Ready() && min <= max
    ensures min <= v <= max && spec.Satisfied(v) && spec.Allows(v)
  {
    match spec
    case WildcardTimeSpec => v := min;
    case OneValTimeSpec(val) => v := val;
    case SetTimeSpec(_, vals) => v := vals[0]; assert v in vals;
    case RandomTimeSpec(_, _, pickedVal) => v := pickedVal.value;
  }

  /** Derandomizing makes a spec ready, narrows what it allows to one of its values, and is done once. */
  lemma DerandomizedIsReady(spec: TimeSpec, min: int, max: int, choice: nat, again: nat)
    requires spec.Within(min, max)
    requires spec.RandomTimeSpec? ==> choice < |spec.vals| && again < |spec.vals|
    ensures var done := spec.Derandomized(choice);
            && done.Ready() && done.Within(min, max) && done.IsWildcard() == spec.IsWildcard()
            && (forall v :: done.Satisfied(v) ==> spec.Allows(v))
            && done.Derandomized(again) == done
  {
  }
}
