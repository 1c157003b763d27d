# lovable-mcp: rate limiter and bug-detection pipeline

This project models, in Dafny, the two pieces of the lovable-mcp server that
carry logic of their own.

- **The per-key sliding-window rate limiter** (`RateLimiter` in
  `src/server/server.py`) and the request guard in front of it
  (`LovableMCPServer.validate_request`). The limiter maps each API key to the
  timestamps of its recent admitted requests. A call prunes the list to the
  last 60 seconds, refuses when the pruned list already holds
  `requests_per_minute` entries, and otherwise records the new timestamp and
  admits. The guard rejects a request without an API key (401) before the
  limiter is touched, and rejects a limited request (429).
- **The bug-detection pipeline** (`BugDetector` in
  `src/tools/bug_detector.py`). Two analysis passes report issues. Their
  concatenation is annotated in place with a placeholder fix suggestion and
  `auto_fixable = False`. `apply_fix` returns the code unchanged.

Files and modules:

- `rate_limiter.dfy`, module `RateLimit`: the pruning function `Prune` and its
  laws; the limiter invariant `Consistent`; the class `RateLimiter` with the
  imperative `IsRateLimited`. The clock is an explicit integer argument `now`.
  Ghost fields record every admitted timestamp per key (`admitted`), the
  cutoff of each key's latest pruning, and whether the clock has ever gone
  backwards. With them the model states the guarantee the limiter exists for:
  while calls arrive with a non-decreasing clock, no key has more than the
  budget of admitted requests in the 60 seconds up to the latest call. A new
  limiter has had no call, and each call records its clock, so a caller that
  drives the limiter with a non-decreasing clock keeps `monotone` and can use
  `RateLimiter.WindowBound`.
- `server.dfy`, module `Server`: the class `McpServer`, which owns one limiter
  with the default budget of 60, and `ValidateRequest`.
- `bug_detector.dfy`, module `BugDetection`: issues as maps from field name to
  a small value type; the two passes as the functions `StaticAnalysis` and
  `CheckUiConsistency`, which return no issue, as shipped; the annotation as
  `Annotate`/`AnnotateAll`; the class `BugDetector`, whose
  `GenerateFixSuggestions` rewrites an array of issues in place.

The lemmas about the pipeline (`DetectedOrder`, `DetectedAnnotated`) hold for
any issue lists the passes might return. `DetectsNothing` specialises them to
the passes as shipped.

Two notes on the limiter:

- The bound "no stored list holds more than `requests_per_minute` entries"
  holds whatever order the clock values come in. Pruning only shrinks a list,
  and a timestamp is appended only when the pruned list is below the budget.
  The model states the bound unconditionally, as part of `Consistent`. A
  negative budget refuses every call, so the cap is `max(requests_per_minute, 0)`.
- Python's `defaultdict` inserts a key on first read and line 46 assigns the
  pruned list, so every key ever asked about stays in the map, even a refused
  one. `IsRateLimited` states this: the key set grows by exactly the key asked
  about.

## Model

| member | source | states |
|---|---|---|
| `RateLimit.Prune` | src/server/server.py:46 | the pruned list is no longer than the input; it holds only timestamps of the input that are strictly after the cutoff, and every such timestamp |
| `RateLimit.PruneAppend` | src/server/server.py:46 | pruning a concatenation is the concatenation of the prunings, so kept timestamps keep their relative order |
| `RateLimit.PruneMultiset` | src/server/server.py:46 | pruning keeps every occurrence of each timestamp after the cutoff and no occurrence of one at or before it |
| `RateLimit.PruneTwice` | src/server/server.py:43-46 | pruning at one cutoff and then at a later one equals pruning once at the later one |
| `RateLimit.PruneSorted` | src/server/server.py:46 | pruning a chronological list leaves it chronological |
| `RateLimit.WindowsExactStep` | src/server/server.py:41-54 | a call at a clock no earlier than the last keeps every stored list equal to its key's admitted log cut at the key's latest pruning |
| `RateLimit.LogsChronologicalStep` | src/server/server.py:53 | a call at a clock no earlier than the last keeps every admitted log chronological and not later than the clock |
| `RateLimit.ConsistentStep` | src/server/server.py:41-54 | one call keeps the limiter invariant; it adds exactly the called key, leaves every other key's list and log alone, and leaves only timestamps after now - 60 in the called key's list |
| `RateLimit.SlidingWindowBound` | src/server/server.py:36-54 | while the clock has not gone backwards, every key has at most the budget of admitted requests in the 60 seconds up to the latest call, and every stored list is chronological |
| `RateLimit.RateLimiter.constructor` | src/server/server.py:37-39 | a new limiter has the given budget, an empty map and an empty log, has seen no call and so has not seen the clock go backwards |
| `RateLimit.RateLimiter.IsRateLimited` | src/server/server.py:41-54 | returns true exactly when the pruned list already holds the budget; the stored list becomes the pruned list, with now appended only on admission; the key set grows by the key asked about; other keys' lists and logs are untouched; the call's clock is recorded, and the clock counts as non-decreasing exactly when it was before and now is no earlier than the previous call; while it is, the list equals the admitted log cut at now - 60 |
| `RateLimit.RateLimiter.WindowBound` | src/server/server.py:36-54 | for a limiter whose calls came with a non-decreasing clock, every key has at most the budget of admitted requests in the 60 seconds up to the latest call, and its stored list is chronological |
| `Server.McpServer.constructor` | src/server/server.py:65-70 | the server's limiter is new, has the default budget of 60, holds no key and has seen no call |
| `Server.McpServer.ValidateRequest` | src/server/server.py:79-89 | a missing or empty key gives 401 "API key required" with the limiter unchanged; otherwise a limited key gives 429 "Rate limit exceeded. Please try again later." and an admitted one returns the key; the limiter's key set grows by the key, its list and log for the key are updated as by IsRateLimited, other keys' lists and logs are untouched, the call's clock is recorded, and while the clock has been non-decreasing the key has at most the budget of admitted requests in the last 60 seconds; an error's status is 429 when a key was given and 401 otherwise |
| `BugDetection.StaticAnalysis` | src/tools/bug_detector.py:31-36 | the static-analysis pass reports no issue, for any code |
| `BugDetection.CheckUiConsistency` | src/tools/bug_detector.py:38-42 | the UI-consistency pass reports no issue, for any code and context |
| `BugDetection.Detected` | src/tools/bug_detector.py:17-24 | detect_bugs reports one issue per issue of the two passes together, and every reported issue is annotated |
| `BugDetection.Annotate` | src/tools/bug_detector.py:46-49 | the issue gets fix_suggestion = "Placeholder fix suggestion" and auto_fixable = False; no other key changes; an already annotated issue is returned unchanged |
| `BugDetection.AnnotateAll` | src/tools/bug_detector.py:44-52 | the result has the input's length and its i-th issue is the input's i-th issue annotated |
| `BugDetection.DetectedOrder` | src/tools/bug_detector.py:17-24 | the reported issues are the annotated static issues followed by the annotated UI issues |
| `BugDetection.DetectedAnnotated` | src/tools/bug_detector.py:22-26 | every reported issue carries the suggestion and is not auto-fixable |
| `BugDetection.AnnotateAllIdempotent` | src/tools/bug_detector.py:46-49 | annotating an annotated list again changes nothing |
| `BugDetection.DetectsNothing` | src/tools/bug_detector.py:31-42 | with both passes returning no issue, detect_bugs reports nothing for any code and context |
| `BugDetection.BugDetector.constructor` | src/tools/bug_detector.py:7-9 | a new detector has an empty known_issues set |
| `BugDetection.BugDetector.DetectBugs` | src/tools/bug_detector.py:11-29 | returns a new list holding the static then the UI issues, annotated; known_issues is unchanged |
| `BugDetection.BugDetector.GenerateFixSuggestions` | src/tools/bug_detector.py:44-52 | annotates every issue of the list in place and returns the same list |
| `BugDetection.BugDetector.ApplyFix` | src/tools/bug_detector.py:54-59 | returns the code unchanged, whatever the issue id |

## Left out

- The aiohttp wiring is not modelled: routes, the async handlers and their HTTP exception mapping, JSON and pydantic parsing, `run`/`start_server`, and logging. It is I/O and framework glue.
- The environment variables `DESIGN_SYSTEM` and `UI_FRAMEWORK` read by the server constructor are not modelled. Nothing in the modelled core reads them.
- `time.time()` is replaced by an integer `now` argument. Floating-point time is not modelled.
- The TODO in `validate_request` means any non-empty key is accepted. The model keeps that behaviour.
- The handlers are async, but `is_rate_limited` contains no `await`, so each call runs to completion. The model treats calls as sequential.
- `BugDetection.BugDetector.GenerateFixSuggestions`: it writes new values into the list's slots. The Python loop mutates the issue dicts themselves, so another holder of the same dicts sees the change. Aliasing between issue dicts is not modelled. A dict listed twice ends up the same either way, because annotation is idempotent.
- The `except`/re-raise in `detect_bugs` is not modelled: no modelled step raises.
- `src/tools/component_gen.py` and `src/tools/pattern_impl.py` are not modelled. They only echo fields into template strings, and their input models are not part of this model.
- The integration tests are not modelled. They need a live server, concurrent clients and resource sampling.
- Test expectations the code does not implement are not modelled: accessibility and style issues being found, an `/apply_fix` endpoint, `code` in the component response, and a 429 within 10 requests (the default budget is 60).
- The regex diagnostic rule engine: bug_detector.py contains no rule engine; none is modelled.
