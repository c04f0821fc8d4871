/**
 * The cron interpretation service: named-schedule normalisation, validation
 * through croniter, the next five occurrences, the five-field breakdown and
 * the edge-case warnings. croniter, cron_descriptor and `strftime` are not
 * modelled: they reach the service as the fields of a `CronLibrary` value.
 */
module InterpretService {
  import opened Wrappers
  import opened Errors
  import opened Text

  /** An instant on the library's clock; its calendar structure is the library's business. */
  type Instant = int

  /**
   * The third-party calls the service makes, supplied by the caller and never
   * interpreted: `croniter(expression, now)` (which may raise), the iterator's
   * `get_next` (which returns the next occurrence and the advanced iterator,
   * or raises), cron_descriptor's description (which may raise), and
   * `datetime.strftime('%Y-%m-%d %H:%M:%S')`. `S` is croniter's iterator state.
   */
  datatype CronLibrary<!S> = CronLibrary(
    croniter: (string, Instant) -> Result<S, Exception>,
    getNext: S -> Result<(Instant, S), Exception>,
    describe: string -> Result<string, Exception>,
    strftime: Instant -> string)

  // ---------------------------------------------------------------------------
  // Named schedules

  /** The seven `@` shortcuts and their five-field expansions. */
  const SpecialSchedules: map<string, string> := map[
    "@yearly" := "0 0 1 1 *",
    "@annually" := "0 0 1 1 *",
    "@monthly" := "0 0 1 * *",
    "@weekly" := "0 0 * * 0",
    "@daily" := "0 0 * * *",
    "@midnight" := "0 0 * * *",
    "@hourly" := "0 * * * *"
  ]

  /** Five fields joined by single spaces. */
  lemma JoinFive(a: string, b: string, c: string, d: string, e: string)
    ensures JoinSpaced([a, b, c, d, e]) == a + " " + (b + " " + (c + " " + (d + " " + e)))
  {
    assert [d, e][1..] == [e];
    assert JoinSpaced([d, e]) == d + " " + e;
    assert [c, d, e][1..] == [d, e];
    assert JoinSpaced([c, d, e]) == c + " " + (d + " " + e);
    assert [b, c, d, e][1..] == [c, d, e];
    assert JoinSpaced([b, c, d, e]) == b + " " + (c + " " + (d + " " + e));
    assert [a, b, c, d, e][1..] == [b, c, d, e];
  }

  // The five distinct expansions, each as its five fields joined by single
  // spaces. One lemma per expansion keeps each literal-string proof small.

  lemma YearlyIsJoined()
    ensures SpecialSchedules["@yearly"] == JoinSpaced(["0", "0", "1", "1", "*"])
    ensures exists fields :: FiveFields(fields) && SpecialSchedules["@yearly"] == JoinSpaced(fields)
  {
    JoinFive("0", "0", "1", "1", "*");
    assert FiveFields(["0", "0", "1", "1", "*"]);
  }

  lemma MonthlyIsJoined()
    ensures SpecialSchedules["@monthly"] == JoinSpaced(["0", "0", "1", "*", "*"])
    ensures exists fields :: FiveFields(fields) && SpecialSchedules["@monthly"] == JoinSpaced(fields)
  {
    JoinFive("0", "0", "1", "*", "*");
    assert FiveFields(["0", "0", "1", "*", "*"]);
  }

  lemma WeeklyIsJoined()
    ensures SpecialSchedules["@weekly"] == JoinSpaced(["0", "0", "*", "*", "0"])
    ensures exists fields :: FiveFields(fields) && SpecialSchedules["@weekly"] == JoinSpaced(fields)
  {
    JoinFive("0", "0", "*", "*", "0");
    assert FiveFields(["0", "0", "*", "*", "0"]);
  }

  lemma DailyIsJoined()
    ensures SpecialSchedules["@daily"] == JoinSpaced(["0", "0", "*", "*", "*"])
    ensures exists fields :: FiveFields(fields) && SpecialSchedules["@daily"] == JoinSpaced(fields)
  {
    JoinFive("0", "0", "*", "*", "*");
    assert FiveFields(["0", "0", "*", "*", "*"]);
  }

  lemma HourlyIsJoined()
    ensures SpecialSchedules["@hourly"] == JoinSpaced(["0", "*", "*", "*", "*"])
    ensures exists fields :: FiveFields(fields) && SpecialSchedules["@hourly"] == JoinSpaced(fields)
  {
    JoinFive("0", "*", "*", "*", "*");
    assert FiveFields(["0", "*", "*", "*", "*"]);
  }

  /** Five whitespace-free, non-empty fields. */
  predicate FiveFields(fields: seq<string>) {
    |fields| == 5 && forall k :: 0 <= k < 5 ==> IsWord(fields[k])
  }

  /** The expansion of every shortcut is five fields joined by single spaces. */
  lemma ExpansionIsJoined(name: string)
    requires name in SpecialSchedules
    ensures exists fields :: FiveFields(fields) && SpecialSchedules[name] == JoinSpaced(fields)
  {
    if name == "@yearly" || name == "@annually" {
      assert SpecialSchedules[name] == SpecialSchedules["@yearly"];
      YearlyIsJoined();
    } else if name == "@monthly" {
      MonthlyIsJoined();
    } else if name == "@weekly" {
      WeeklyIsJoined();
    } else if name == "@daily" || name == "@midnight" {
      assert SpecialSchedules[name] == SpecialSchedules["@daily"];
      DailyIsJoined();
    } else {
      HourlyIsJoined();
    }
  }

  /** Every shortcut normalises to an expression of exactly five fields. */
  lemma ExpansionFields(name: string)
    requires name in SpecialSchedules
    ensures |Split(ConvertSpecialSchedules(name))| == 5
  {
    ExpansionIsJoined(name);
    var fields :| FiveFields(fields) && SpecialSchedules[name] == JoinSpaced(fields);
    SplitJoinSpaced(fields);
  }

  /**
   * `convert_special_schedules`: a shortcut becomes an expansion that is not
   * itself a shortcut; any other string is returned unchanged.
   */
  function ConvertSpecialSchedules(expression: string): (r: string)
    ensures expression !in SpecialSchedules ==> r == expression
    ensures r == expression || r !in SpecialSchedules
  {
    if expression in SpecialSchedules then SpecialSchedules[expression] else expression
  }

  /** Each shortcut gives its fixed expansion, and the aliases agree. */
  lemma NamedSchedules()
    ensures ConvertSpecialSchedules("@yearly") == ConvertSpecialSchedules("@annually") == "0 0 1 1 *"
    ensures ConvertSpecialSchedules("@monthly") == "0 0 1 * *"
    ensures ConvertSpecialSchedules("@weekly") == "0 0 * * 0"
    ensures ConvertSpecialSchedules("@daily") == ConvertSpecialSchedules("@midnight") == "0 0 * * *"
    ensures ConvertSpecialSchedules("@hourly") == "0 * * * *"
  {
  }

  /** Lookup is exact: other casing or padding is not recognised. */
  lemma ShortcutsAreExact()
    ensures ConvertSpecialSchedules("@Weekly") == "@Weekly"
    ensures ConvertSpecialSchedules(" @weekly") == " @weekly"
    ensures ConvertSpecialSchedules("@weekly ") == "@weekly "
    ensures ConvertSpecialSchedules("@reboot") == "@reboot"
    ensures ConvertSpecialSchedules("*/15 14 1,15 * 2-5") == "*/15 14 1,15 * 2-5"
  {
  }

  /** Normalising twice is normalising once. */
  lemma ConvertIdempotent(expression: string)
    ensures ConvertSpecialSchedules(ConvertSpecialSchedules(expression)) == ConvertSpecialSchedules(expression)
  {
  }

  // ---------------------------------------------------------------------------
  // Edge-case warnings

  const LeapYearPrefix: string := "0 0 29 2"
  const IntervalMarker: string := "*/"
  const LeapYearWarning: string := "This cron expression will only run on leap years."
  const IntervalWarning: string := "This cron expression uses intervals, which may lead to unexpected timings."

  /**
   * The warnings of `check_for_edge_cases`: the leap-year warning exactly
   * when the expression begins with `LeapYearPrefix`, the interval warning
   * exactly when the step marker `IntervalMarker` occurs in it, nothing
   * else, and the leap-year warning first.
   */
  function EdgeCaseWarnings(expression: string): (warnings: seq<string>)
    ensures LeapYearWarning in warnings <==> StartsWith(expression, LeapYearPrefix)
    ensures IntervalWarning in warnings <==> exists i :: OccursAt(expression, IntervalMarker, i)
    ensures |warnings| <= 2
    ensures forall k :: 0 <= k < |warnings| ==> warnings[k] == LeapYearWarning || warnings[k] == IntervalWarning
    ensures |warnings| == 2 ==> warnings == [LeapYearWarning, IntervalWarning]
  {
    ContainsIff(expression, IntervalMarker);
    (if StartsWith(expression, LeapYearPrefix) then [LeapYearWarning] else [])
      + (if Contains(expression, IntervalMarker) then [IntervalWarning] else [])
  }

  /** `check_for_edge_cases`, appending to a local list rule by rule. */
  method CheckForEdgeCases(expression: string) returns (warnings: seq<string>)
    ensures warnings == EdgeCaseWarnings(expression)
  {
    warnings := [];
    if StartsWith(expression, LeapYearPrefix) {
      warnings := warnings + [LeapYearWarning];
    }
    if Contains(expression, IntervalMarker) {
      warnings := warnings + [IntervalWarning];
    }
  }

  /** "0 0 29 2 *" runs on February 29th only and draws the leap-year warning. */
  lemma LeapDayWarns()
    ensures EdgeCaseWarnings("0 0 29 2 *") == [LeapYearWarning]
  {
    NoMarker("0 0 29 2 *");
  }

  /** February 28th draws no warning. */
  lemma FebruaryTwentyEighthDoesNotWarn()
    ensures EdgeCaseWarnings("0 0 28 2 *") == []
  {
    var s := "0 0 28 2 *";
    assert s[5] != LeapYearPrefix[5];
    NoMarker(s);
  }

  /** The prefix test is textual: the same schedule spaced differently draws no warning. */
  lemma RespacedLeapDayDoesNotWarn()
    ensures EdgeCaseWarnings("0  0 29 2 *") == []
  {
    var s := "0  0 29 2 *";
    assert s[2] != LeapYearPrefix[2];
    NoMarker(s);
  }

  /** A step field anywhere draws the interval warning. */
  lemma StepFieldWarns()
    ensures EdgeCaseWarnings("*/15 14 1,15 * 2-5") == [IntervalWarning]
  {
    var s := "*/15 14 1,15 * 2-5";
    assert s[0] != LeapYearPrefix[0];
    assert OccursAt(s, IntervalMarker, 0);
  }

  /** With both patterns present, the leap-year warning comes first. */
  lemma BothWarningsInOrder()
    ensures EdgeCaseWarnings("0 0 29 2 */2") == [LeapYearWarning, IntervalWarning]
  {
    assert OccursAt("0 0 29 2 */2", IntervalMarker, 9);
  }

  /** A string without '/' contains no interval marker. */
  lemma NoMarker(s: string)
    requires forall i :: 0 <= i < |s| ==> s[i] != '/'
    ensures !exists i :: OccursAt(s, IntervalMarker, i)
  {
    forall i | 0 <= i && i + 2 <= |s|
      ensures !OccursAt(s, IntervalMarker, i)
    {
      assert s[i..i + 2][1] == s[i + 1];
    }
  }

  // ---------------------------------------------------------------------------
  // Validation

  /** The exceptions `validate_cron_expression` turns into `None`. */
  predicate IsCaught(e: Exception): (caught: bool)
    ensures e.ValueError? || e == KeyError || e == CroniterBadCronError ==> caught
    ensures e == IndexError || e == TypeError || e.OtherError? ==> !caught
  {
    e.ValueError? || e.KeyError? || e.CroniterBadCronError?
  }

  /**
   * `validate_cron_expression`: croniter's iterator when it accepts the
   * expression, `None` when it raises one of the caught exceptions; any
   * other exception propagates.
   */
  function ValidateCronExpression<S>(lib: CronLibrary<S>, expression: string, now: Instant): (r: Result<Option<S>, Exception>)
    ensures r == Success(None) <==> lib.croniter(expression, now).Failure? && IsCaught(lib.croniter(expression, now).error)
    ensures lib.croniter(expression, now).Success? ==> r == Success(Some(lib.croniter(expression, now).value))
    ensures r.Failure? <==> lib.croniter(expression, now).Failure? && !IsCaught(lib.croniter(expression, now).error)
    ensures r.Failure? ==> r.error == lib.croniter(expression, now).error
  {
    match lib.croniter(expression, now)
    case Success(cron) => Success(Some(cron))
    case Failure(e) => if IsCaught(e) then Success(None) else Failure(e)
  }

  // ---------------------------------------------------------------------------
  // Occurrences

  /** How many occurrences the service lists. */
  const OccurrenceCount: nat := 5

  /** The iterator state after `k` calls of `get_next`, or the first exception one of them raised. */
  function Advance<S>(lib: CronLibrary<S>, cron: S, k: nat): Result<S, Exception> {
    if k == 0 then Success(cron)
    else match Advance(lib, cron, k - 1)
      case Failure(e) => Failure(e)
      case Success(state) =>
        match lib.getNext(state)
        case Failure(e) => Failure(e)
        case Success(next) => Success(next.1)
  }

  /** Prefixes `prefix` to a list that was produced; an exception passes through. */
  function Prepend(prefix: seq<string>, r: Result<seq<string>, Exception>): Result<seq<string>, Exception> {
    match r
    case Success(rest) => Success(prefix + rest)
    case Failure(e) => Failure(e)
  }

  lemma PrependNothing(r: Result<seq<string>, Exception>)
    ensures Prepend([], r) == r
  {
    match r
    case Success(rest) => assert [] + rest == rest;
    case Failure(_) =>
  }

  lemma PrependTwice(first: seq<string>, second: seq<string>, r: Result<seq<string>, Exception>)
    ensures Prepend(first, Prepend(second, r)) == Prepend(first + second, r)
  {
    match r
    case Success(rest) => assert first + (second + rest) == first + second + rest;
    case Failure(_) =>
  }

  /**
   * The `next_occurrences` comprehension of `interpret_cron_expression`:
   * `count` calls of `get_next` starting from iterator state `cron`, each
   * instant formatted with `strftime`; the first exception raised ends the
   * comprehension. A produced list has `count` entries.
   */
  function Occurrences<S>(lib: CronLibrary<S>, cron: S, count: nat): (r: Result<seq<string>, Exception>)
    ensures r.Success? ==> |r.value| == count
    decreases count
  {
    if count == 0 then Success([])
    else match lib.getNext(cron)
      case Failure(e) => Failure(e)
      case Success(next) => Prepend([lib.strftime(next.0)], Occurrences(lib, next.1, count - 1))
  }

  /** Advancing `k + 1` times is one call, then `k` more from the state it returned. */
  lemma {:induction false} AdvanceFirst<S>(lib: CronLibrary<S>, cron: S, k: nat)
    requires lib.getNext(cron).Success?
    ensures Advance(lib, cron, k + 1) == Advance(lib, lib.getNext(cron).value.1, k)
  {
    if k > 0 {
      AdvanceFirst(lib, cron, k - 1);
    }
  }

  /** The list is produced exactly when `count` calls of `get_next` all return, and otherwise carries the first exception. */
  lemma {:induction false} OccurrencesSucceedIff<S>(lib: CronLibrary<S>, cron: S, count: nat)
    ensures Occurrences(lib, cron, count).Success? <==> Advance(lib, cron, count).Success?
    ensures Occurrences(lib, cron, count).Failure? ==> Occurrences(lib, cron, count).error == Advance(lib, cron, count).error
    decreases count
  {
    if count > 0 {
      match lib.getNext(cron)
      case Failure(e) =>
        AdvanceFails(lib, cron, count);
      case Success(next) =>
        AdvanceFirst(lib, cron, count - 1);
        OccurrencesSucceedIff(lib, next.1, count - 1);
    }
  }

  /** If the first call raises, every later state carries that exception. */
  lemma {:induction false} AdvanceFails<S>(lib: CronLibrary<S>, cron: S, k: nat)
    requires k > 0 && lib.getNext(cron).Failure?
    ensures Advance(lib, cron, k) == Failure(lib.getNext(cron).error)
  {
    if k > 1 {
      AdvanceFails(lib, cron, k - 1);
    }
  }

  /** Entry `k` of a produced list is the formatted result of the `k + 1`-th call of `get_next`. */
  lemma {:induction false} OccurrenceIsKthCall<S>(lib: CronLibrary<S>, cron: S, count: nat, k: nat)
    requires Occurrences(lib, cron, count).Success? && k < count
    ensures Advance(lib, cron, k).Success?
    ensures lib.getNext(Advance(lib, cron, k).value).Success?
    ensures Occurrences(lib, cron, count).value[k] == lib.strftime(lib.getNext(Advance(lib, cron, k).value).value.0)
    decreases k
  {
    var next := lib.getNext(cron).value;
    if k > 0 {
      OccurrenceIsKthCall(lib, next.1, count - 1, k - 1);
      AdvanceFirst(lib, cron, k - 1);
    }
  }

  /** The `next_occurrences` comprehension as a loop: `count` calls of `get_next` on the iterator, formatted in call order. */
  method NextOccurrences<S>(lib: CronLibrary<S>, cron: S, count: nat) returns (r: Result<seq<string>, Exception>)
    ensures r == Occurrences(lib, cron, count)
  {
    var state := cron;
    var taken: seq<string> := [];
    var i := 0;
    PrependNothing(Occurrences(lib, cron, count));
    while i < count
      invariant 0 <= i <= count
      invariant Occurrences(lib, cron, count) == Prepend(taken, Occurrences(lib, state, count - i))
    {
      match lib.getNext(state)
      case Failure(e) =>
        return Failure(e);
      case Success(next) =>
        PrependTwice(taken, [lib.strftime(next.0)], Occurrences(lib, next.1, count - i - 1));
        taken := taken + [lib.strftime(next.0)];
        state := next.1;
      i := i + 1;
    }
    assert taken + [] == taken;
    r := Success(taken);
  }

  // ---------------------------------------------------------------------------
  // The five-field breakdown

  /** The `detailed_description` of a result: one token per cron field. */
  datatype DetailedDescription = DetailedDescription(
    minutes: string, hours: string, dayOfMonth: string, month: string, dayOfWeek: string)

  /** The breakdown in field order. */
  function FieldsOf(d: DetailedDescription): seq<string> {
    [d.minutes, d.hours, d.dayOfMonth, d.month, d.dayOfWeek]
  }

  /**
   * The `detailed_description` of `interpret_cron_expression`: the first
   * five whitespace-separated tokens, labelled in cron field order; with
   * fewer than five tokens the indexing raises IndexError.
   */
  function DetailedDescriptionOf(expression: string): (r: Result<DetailedDescription, Exception>)
    ensures r.Success? <==> |Split(expression)| >= 5
    ensures r.Failure? ==> r.error == IndexError
    ensures r.Success? ==> FieldsOf(r.value) == Split(expression)[..5]
  {
    var parts := Split(expression);
    if |parts| < 5 then Failure(IndexError)
    else Success(DetailedDescription(parts[0], parts[1], parts[2], parts[3], parts[4]))
  }

  /** Five fields joined by single spaces come back as the breakdown, in order. */
  lemma BreakdownOfJoined(fields: seq<string>)
    requires FiveFields(fields)
    ensures DetailedDescriptionOf(JoinSpaced(fields)).Success?
    ensures FieldsOf(DetailedDescriptionOf(JoinSpaced(fields)).value) == fields
  {
    SplitJoinSpaced(fields);
  }

  /** A shortcut's expansion always has a breakdown, which joins back to the expansion. */
  lemma ShortcutBreakdown(name: string)
    requires name in SpecialSchedules
    ensures DetailedDescriptionOf(ConvertSpecialSchedules(name)).Success?
    ensures JoinSpaced(FieldsOf(DetailedDescriptionOf(ConvertSpecialSchedules(name)).value)) == ConvertSpecialSchedules(name)
  {
    ExpansionIsJoined(name);
    var fields :| FiveFields(fields) && SpecialSchedules[name] == JoinSpaced(fields);
    BreakdownOfJoined(fields);
  }

  // ---------------------------------------------------------------------------
  // Orchestration

  const InvalidCronMessage: string := "Invalid cron expression."

  /** The dictionary `interpret_cron_expression` returns. */
  datatype Interpretation = Interpretation(
    expression: string,
    valid: bool,
    currentTime: string,
    nextOccurrences: seq<string>,
    interpretedMeaning: string,
    detailedDescription: DetailedDescription,
    warnings: seq<string>)

  /**
   * How a call of `interpret_cron_expression` ends: a result, the service's
   * own `ValueError(message)` for an expression croniter rejected, or an
   * exception raised further down and not caught.
   */
  datatype Outcome =
    | Interpreted(result: Interpretation)
    | Invalid(message: string)
    | Raised(exception: Exception)

  /** `interpret_cron_expression` as a function of the library, the raw input and the current instant. */
  function Interpret<S>(lib: CronLibrary<S>, raw: string, now: Instant): (out: Outcome)
    ensures out.Invalid? ==> out.message == InvalidCronMessage
    ensures out.Interpreted? ==>
      && out.result.expression == ConvertSpecialSchedules(raw)
      && out.result.valid
      && |out.result.nextOccurrences| == OccurrenceCount
      && out.result.warnings == EdgeCaseWarnings(out.result.expression)
  {
    var expression := ConvertSpecialSchedules(raw);
    match ValidateCronExpression(lib, expression, now)
    case Failure(e) => Raised(e)
    case Success(None) => Invalid(InvalidCronMessage)
    case Success(Some(cron)) =>
      match Occurrences(lib, cron, OccurrenceCount)
      case Failure(e) => Raised(e)
      case Success(next) =>
        match DetailedDescriptionOf(expression)
        case Failure(e) => Raised(e)
        case Success(fields) =>
          match lib.describe(expression)
          case Failure(e) => Raised(e)
          case Success(meaning) =>
            Interpreted(Interpretation(expression, true, lib.strftime(now), next, meaning, fields, EdgeCaseWarnings(expression)))
  }

  /** `interpret_cron_expression`, with `datetime.now()` passed in as `now`. */
  method InterpretCronExpression<S>(lib: CronLibrary<S>, raw: string, now: Instant) returns (out: Outcome)
    ensures out == Interpret(lib, raw, now)
  {
    var expression := ConvertSpecialSchedules(raw);
    var validated := ValidateCronExpression(lib, expression, now);
    if validated.Failure? {
      return Raised(validated.error);
    }
    if validated.value.None? {
      return Invalid(InvalidCronMessage);
    }
    var cron := validated.value.value;
    var next := NextOccurrences(lib, cron, OccurrenceCount);
    if next.Failure? {
      return Raised(next.error);
    }
    var fields := DetailedDescriptionOf(expression);
    if fields.Failure? {
      return Raised(fields.error);
    }
    var meaning := lib.describe(expression);
    if meaning.Failure? {
      return Raised(meaning.error);
    }
    var warnings := CheckForEdgeCases(expression);
    out := Interpreted(Interpretation(
      expression, true, lib.strftime(now), next.value, meaning.value, fields.value, warnings));
  }

  /** The service rejects the expression, with its fixed message, exactly when validation gives `None`. */
  lemma InvalidExactlyWhenNotValidated<S>(lib: CronLibrary<S>, raw: string, now: Instant)
    ensures Interpret(lib, raw, now).Invalid?
      <==> ValidateCronExpression(lib, ConvertSpecialSchedules(raw), now) == Success(None)
    ensures Interpret(lib, raw, now).Invalid? ==> Interpret(lib, raw, now).message == "Invalid cron expression."
  {
  }

  /**
   * A result is produced exactly when croniter accepts the normalised
   * expression, five calls of `get_next` return, the expression has at least
   * five tokens and the description is produced.
   */
  lemma {:induction false} InterpretedIff<S>(lib: CronLibrary<S>, raw: string, now: Instant)
    ensures Interpret(lib, raw, now).Interpreted? <==>
      var expression := ConvertSpecialSchedules(raw);
      && lib.croniter(expression, now).Success?
      && Advance(lib, lib.croniter(expression, now).value, OccurrenceCount).Success?
      && |Split(expression)| >= 5
      && lib.describe(expression).Success?
  {
    var expression := ConvertSpecialSchedules(raw);
    if lib.croniter(expression, now).Success? {
      OccurrencesSucceedIff(lib, lib.croniter(expression, now).value, OccurrenceCount);
    }
  }

  /**
   * A produced result carries the normalised expression, `valid` set, the
   * formatted current instant, five occurrences (the k-th being the k-th call
   * of `get_next`), the first five tokens as the breakdown, and the warnings
   * of the normalised expression.
   */
  lemma InterpretedResult<S>(lib: CronLibrary<S>, raw: string, now: Instant, k: nat)
    requires Interpret(lib, raw, now).Interpreted?
    requires k < OccurrenceCount
    ensures var result := Interpret(lib, raw, now).result;
      && result.expression == ConvertSpecialSchedules(raw)
      && result.valid
      && result.currentTime == lib.strftime(now)
      && |result.nextOccurrences| == OccurrenceCount
      && FieldsOf(result.detailedDescription) == Split(result.expression)[..5]
      && result.warnings == EdgeCaseWarnings(result.expression)
      && result.interpretedMeaning == lib.describe(result.expression).value
    ensures var cron := lib.croniter(ConvertSpecialSchedules(raw), now).value;
      && Advance(lib, cron, k).Success?
      && lib.getNext(Advance(lib, cron, k).value).Success?
      && Interpret(lib, raw, now).result.nextOccurrences[k]
         == lib.strftime(lib.getNext(Advance(lib, cron, k).value).value.0)
  {
    var cron := lib.croniter(ConvertSpecialSchedules(raw), now).value;
    OccurrenceIsKthCall(lib, cron, OccurrenceCount, k);
  }

  /** For a shortcut only the library can stop the interpretation: the breakdown always exists. */
  lemma ShortcutInterpretedIff<S>(lib: CronLibrary<S>, name: string, now: Instant)
    requires name in SpecialSchedules
    ensures Interpret(lib, name, now).Interpreted? <==>
      var expression := ConvertSpecialSchedules(name);
      && lib.croniter(expression, now).Success?
      && Advance(lib, lib.croniter(expression, now).value, OccurrenceCount).Success?
      && lib.describe(expression).Success?
  {
    InterpretedIff(lib, name, now);
    ExpansionFields(name);
  }

  /** The expression the service's own test submits, as five joined fields. */
  lemma SampleIsJoined()
    ensures "*/15 14 1,15 * 2-5" == JoinSpaced(["*/15", "14", "1,15", "*", "2-5"])
    ensures FiveFields(["*/15", "14", "1,15", "*", "2-5"])
  {
    JoinFive("*/15", "14", "1,15", "*", "2-5");
  }

  /** The test's expression breaks down into its five fields. */
  lemma SampleBreakdown()
    ensures DetailedDescriptionOf("*/15 14 1,15 * 2-5") == Success(DetailedDescription("*/15", "14", "1,15", "*", "2-5"))
  {
    SampleIsJoined();
    BreakdownOfJoined(["*/15", "14", "1,15", "*", "2-5"]);
  }
}
