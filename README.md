# Cron expression interpreter: a Dafny model

This project models the two parts of the Cron Expression Interpreter API that hold the repository's own logic.

**The interpretation service** (`app/services/interpret_service.py`) does the following:
- It normalises the seven `@` shortcuts to five-field expressions.
- It validates the expression through croniter. It catches `ValueError`, `KeyError` and `CroniterBadCronError` and turns them into `None`.
- It raises `ValueError("Invalid cron expression.")` when validation fails.
- Otherwise it lists the next five occurrences from the iterator, splits the expression into a five-field breakdown, asks cron_descriptor for a description and attaches the edge-case warnings.

croniter, cron_descriptor and `strftime` are not modelled. They reach the service as the fields of a `CronLibrary` value. The croniter constructor, `get_next` and the description each return a result or raise an exception, and the model says exactly how the service combines them. `strftime` is modelled as a total function that always returns a string.

**The sliding-window rate limiter** (`middlewares/rate_limit_middleware.py`) is modelled as a class. Its `rateLimitRecords` field maps each client address to a list of request times. `Dispatch` runs in three steps:
1. It appends the current time to the client's list.
2. It drops the times more than 60 seconds old.
3. It rejects the request when more than 100 times remain.

Files:
- `wrappers.dfy`: `Option` and `Result`.
- `errors.dfy`: the Python exception kinds the service distinguishes.
- `text.dfy`: Python's `str.split()`, `startswith` and substring test on `seq<char>`.
- `interpret_service.dfy`: the service.
- `rate_limit_middleware.dfy`: the rate limiter.

## Model

| member | source | states |
|---|---|---|
| Text.Split | app/services/interpret_service.py:32 | `str.split()` with no argument: every token is non-empty and free of Python whitespace (`SplitSkipsSpaces` and `SplitWordFirst` characterise it step by step, `SplitJoinSpaced` gives the round trip) |
| Text.StartsWithIff | app/services/interpret_service.py:70 | `s.startswith(prefix)` (`StartsWith`) holds exactly when `prefix` is no longer than `s` and matches its first characters one by one |
| Text.Contains | app/services/interpret_service.py:72 | the left-to-right scan for `sub in s` succeeds whenever `s` starts with `sub` (`ContainsIff` gives the full characterisation) |
| Text.SplitSkipsSpaces | app/services/interpret_service.py:32 | leading whitespace of any kind and length is dropped: `(ws + s).split() == s.split()` |
| Text.SplitWordFirst | app/services/interpret_service.py:32 | a word followed by whitespace or the end of the string becomes the first token, and splitting continues after it |
| Text.SplitMixedWhitespace | app/services/interpret_service.py:32 | `"a\t b  ".split() == ["a", "b"]`: tabs, runs of spaces and trailing whitespace separate tokens without producing empty ones |
| Text.SplitJoinSpaced | app/services/interpret_service.py:32 | whitespace splitting recovers any list of non-empty, space-free words joined by single spaces |
| Text.ContainsIff | app/services/interpret_service.py:72 | the substring test `sub in s` holds exactly when `sub` occurs at some index of `s` |
| InterpretService.ConvertSpecialSchedules | app/services/interpret_service.py:8-18 | a string that is not one of the seven keys is returned unchanged; a key becomes a string that is not itself a key |
| InterpretService.NamedSchedules | app/services/interpret_service.py:9-17 | each shortcut's exact expansion; `@yearly`/`@annually` agree, and so do `@daily`/`@midnight` |
| InterpretService.ShortcutsAreExact | app/services/interpret_service.py:18 | differently cased or padded names, unknown shortcuts and ordinary expressions pass through unchanged |
| InterpretService.ConvertIdempotent | app/services/interpret_service.py:9-18 | normalising twice equals normalising once |
| InterpretService.ExpansionFields | app/services/interpret_service.py:9-17 | every expansion splits into exactly five fields |
| InterpretService.ShortcutBreakdown | app/services/interpret_service.py:32-39 | a shortcut's expansion always has a breakdown, and joining its five fields gives the expansion back |
| InterpretService.EdgeCaseWarnings | app/services/interpret_service.py:66-74 | leap-year warning iff the expression starts with "0 0 29 2"; interval warning iff "*/" occurs anywhere; no other warnings, at most two, and leap-year first |
| InterpretService.CheckForEdgeCases | app/services/interpret_service.py:66-74 | the two conditional appends build exactly `EdgeCaseWarnings(expression)` |
| InterpretService.LeapDayWarns | app/services/interpret_service.py:70-71 | "0 0 29 2 *" gets the leap-year warning alone |
| InterpretService.FebruaryTwentyEighthDoesNotWarn | app/services/interpret_service.py:70-73 | "0 0 28 2 *" gets no warning |
| InterpretService.RespacedLeapDayDoesNotWarn | app/services/interpret_service.py:70-73 | "0  0 29 2 *" (double space) gets no warning: the prefix test is on characters |
| InterpretService.StepFieldWarns | app/services/interpret_service.py:72-73 | the test expression "*/15 14 1,15 * 2-5" gets the interval warning alone |
| InterpretService.BothWarningsInOrder | app/services/interpret_service.py:68-74 | "0 0 29 2 */2" gets both warnings, leap-year first |
| InterpretService.NoMarker | app/services/interpret_service.py:72 | an expression without '/' has no step marker |
| InterpretService.IsCaught | app/services/interpret_service.py:54 | `ValueError`, `KeyError` and `CroniterBadCronError` are caught; `IndexError`, `TypeError` and any other exception are not |
| InterpretService.ValidateCronExpression | app/services/interpret_service.py:51-55 | `None` exactly when croniter raises a caught exception; the iterator when croniter succeeds; any other exception propagates unchanged |
| InterpretService.Occurrences | app/services/interpret_service.py:30 | a produced list has exactly the requested number of entries |
| InterpretService.OccurrencesSucceedIff | app/services/interpret_service.py:30 | the list is produced iff `count` successive `get_next` calls return; otherwise the first exception is raised |
| InterpretService.OccurrenceIsKthCall | app/services/interpret_service.py:30 | entry k is the formatted result of the (k+1)-th `get_next` call, on the iterator advanced k times |
| InterpretService.NextOccurrences | app/services/interpret_service.py:30 | the loop of `get_next` calls yields exactly `Occurrences` |
| InterpretService.DetailedDescriptionOf | app/services/interpret_service.py:32-39 | a breakdown iff the expression has at least five tokens, holding the first five in field order; IndexError otherwise |
| InterpretService.BreakdownOfJoined | app/services/interpret_service.py:32-39 | five fields joined by spaces come back as the breakdown, in order |
| InterpretService.SampleBreakdown | tests/test_interpretation.py:43-50 | the test's expression breaks down into "*/15", "14", "1,15", "*", "2-5" |
| InterpretService.SampleIsJoined | tests/test_interpretation.py:9 | the test's expression is its five fields joined by single spaces |
| InterpretService.Interpret | app/services/interpret_service.py:21-48 | the refusal carries "Invalid cron expression."; a result holds the normalised expression, `valid` true, exactly five occurrences and `EdgeCaseWarnings` of the normalised expression |
| InterpretService.InterpretCronExpression | app/services/interpret_service.py:21-48 | the method's steps, in the source's order, give exactly the `Interpret` outcome |
| InterpretService.InvalidExactlyWhenNotValidated | app/services/interpret_service.py:24-27 | the service raises "Invalid cron expression." exactly when validation of the normalised expression gives `None` |
| InterpretService.InterpretedIff | app/services/interpret_service.py:24-48 | a result is returned iff croniter accepts, five `get_next` calls return, there are at least five tokens and the description is produced |
| InterpretService.InterpretedResult | app/services/interpret_service.py:24-47 | a result holds the normalised expression, `valid` true, the formatted current time, five occurrences (the k-th from the k-th `get_next`), the first five tokens and `EdgeCaseWarnings` of the normalised expression |
| InterpretService.ShortcutInterpretedIff | app/services/interpret_service.py:24-48 | for a shortcut only the library calls can prevent a result |
| RateLimiting.Recent | middlewares/rate_limit_middleware.py:27-30 | the filter keeps no more times than were recorded (its exact content is stated by `RecentMembers`, `RecentSingle` and `RecentConcat`) |
| RateLimiting.RecentMembers | middlewares/rate_limit_middleware.py:27-30 | the kept times are exactly the recorded times with `now - t <= 60` |
| RateLimiting.RecentSingle | middlewares/rate_limit_middleware.py:27-30 | a single time is kept exactly when `now - t <= 60` |
| RateLimiting.RecentConcat | middlewares/rate_limit_middleware.py:27-30 | filtering a concatenation filters each part and concatenates, so order and repeated times are kept |
| RateLimiting.RecentKeepsAll | middlewares/rate_limit_middleware.py:27-30 | when every time is within the window the filter keeps the list unchanged, in order |
| RateLimiting.RecentIdempotent | middlewares/rate_limit_middleware.py:27-30 | filtering twice at the same instant equals filtering once |
| RateLimiting.RecentKeepsNow | middlewares/rate_limit_middleware.py:24-30 | the timestamp just appended always survives the filter, at the end |
| RateLimiting.FilterWindow | middlewares/rate_limit_middleware.py:27-30 | the comprehension's loop computes exactly `Recent` |
| RateLimiting.Lookup | middlewares/rate_limit_middleware.py:15-24 | following the intended `defaultdict(list)`, not the code as written: a known client's list, and the empty list for an unknown client |
| RateLimiting.Step | middlewares/rate_limit_middleware.py:24-37 | following the intended `defaultdict(list)` (see Findings), not the code as written: the new map is the old one with only the caller's entry replaced, by its old in-window times followed by now; rejected iff 100 or more earlier times are still in the window |
| RateLimiting.StepWithinWindow | middlewares/rate_limit_middleware.py:27-30 | after a request every time the client has on record is within the window |
| RateLimiting.RateLimitMiddleware.constructor | middlewares/rate_limit_middleware.py:13-15 | a new middleware has no records |
| RateLimiting.RateLimitMiddleware.Dispatch | middlewares/rate_limit_middleware.py:17-40 | following the intended `defaultdict(list)` (see Findings), not the code as written: append, filter and length test turn the old records into `Step`'s records and decision |
| RateLimiting.BurstStep | middlewares/rate_limit_middleware.py:24-37 | in a burst inside one window span, a request extends the client's list by its own time and is rejected iff the list then exceeds 100 |
| RateLimiting.BurstDecisions | middlewares/rate_limit_middleware.py:10-37 | in such a burst, request k is rejected iff earlier records + k + 1 > 100; rejected requests keep counting |
| RateLimiting.FirstRejectedInBurst | middlewares/rate_limit_middleware.py:10-37 | starting empty, the 101st request of a burst is the first one rejected |
| RateLimiting.OtherClientsIndependent | middlewares/rate_limit_middleware.py:24-30 | requests from other clients never change a client's records |
| RateLimiting.FirstRequestForwarded | middlewares/rate_limit_middleware.py:15-37 | with the intended empty default, a client's first request is forwarded and recorded alone |
| RateLimiting.StepAsWritten | middlewares/rate_limit_middleware.py:15-24 | as written, an unknown client raises TypeError before anything is recorded |
| RateLimiting.AsWrittenAlwaysRaises | middlewares/rate_limit_middleware.py:15-24 | as written, a middleware that starts empty raises TypeError on every request it ever handles |

## Left out

- croniter (parsing, validation, `get_next`) and cron_descriptor are third-party libraries and are not reimplemented. They are the uninterpreted fields of `CronLibrary`. Nothing is claimed about ascending occurrences or field semantics.
- `datetime.now()` is a parameter (`now`). `strftime` is a library field, so the length-19 format of the test is not modelled.
- The iterator is modelled as a state value threaded through `get_next`. Its in-place mutation and aliasing are not modelled.
- Exceptions are tagged by the `except` clause that matches them, not by Python's class hierarchy. A subclass of a caught exception is assumed to be reported as that class.
- InterpretService.InterpretedResult: the test's assertion that the description is non-blank is not stated. cron_descriptor's output is not modelled.
- No scenario runs `Interpret` end to end on a literal expression. The test expression is covered piecewise: normalisation, breakdown and warnings.
- The HTTP layer is plumbing around the core and is not modelled. This covers FastAPI routing, the status-code mapping in `app/routers/interpret.py`, the pydantic schemas, logging (`custom_logging.py`, `middlewares/logging_middleware.py`) and the timing header in `app/main.py`.
- Rate limiter:
  - `request.client.host`, `call_next` and `JSONResponse` are HTTP plumbing. `Dispatch` takes the client address and the current time as parameters and returns a `Decision`. `Forwarded` stands for handing the request on.
  - Timestamps are `real` seconds. Float rounding is not modelled.
  - Concurrent `dispatch` calls are not modelled. The model handles requests one at a time.
  - The middleware is disabled in `app/main.py:9, 19`. It is modelled anyway.

## Findings

| source | as written | input that shows it | evidently intended | confidence | as-written member | corrected member |
|---|---|---|---|---|---|---|
| middlewares/rate_limit_middleware.py:15-24 | `defaultdict(List[float])` uses the typing alias `List[float]` as its default factory. Calling that alias raises TypeError, so the first request of any client raises before anything is recorded, and the records stay empty for ever | any request on a fresh middleware, e.g. client "10.0.0.1" at time 0 | an unknown client reads as an empty list (`defaultdict(list)`) | high, not executed | RateLimiting.AsWrittenAlwaysRaises | RateLimiting.RateLimitMiddleware.Dispatch, RateLimiting.Step, RateLimiting.FirstRequestForwarded |
