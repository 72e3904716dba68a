# crontab core: interval validation, registration and the hook chain

This project models the `crontab` package of the cronservice repository in Dafny.
The package is a thin wrapper over an external Go scheduling library (gocron). All
cron parsing, next-run computation, the run loop and start/stop live in that
library. The wrapper's own logic is modelled here:

- `Scheduling` (scheduler.go). It covers the validation and unit switch of
  `EveryInterval`, the error wrapping of `Cron`, the two constructors and the
  `Elector`/`Locker` accessors. The wrapper's state is a `Scheduler` value. Its
  `handedOver` field lists every job the wrapper handed to the library, in
  order, including ones the library rejected. It is not the library's own job
  list. The value also holds the stored elector and locker handles. The library's answer to each job is opaque. It is a `Reply`
  parameter (`Accepted` or `Rejected(cause)`), so every property holds for any
  answer the library could give.
- `HookChain` (hooks.go). It covers the two ordered hook lists, `AddBeforeHook`,
  `AddAfterHook`, `RunBefore` and `RunAfter`. A hook is an opaque identifier.
  Running a list yields the trace of calls made, each a `(hook, job id)` pair.
- `Results`: the `Option` and `Result` wrappers.

Go's `uint64` interval is the newtype `Scheduling.uint64`. Go's nil-able
elector and locker interfaces are `Option` values holding opaque handles.

## Model

| member | source | states |
|---|---|---|
| `Scheduling.ValidateInterval` | pkg/crontab/scheduler.go:42-65 | A zero interval yields "interval must be > 0" for any unit string. For a positive interval the call succeeds exactly when the unit is one of the ten spellings, and then carries the caller's amount and a unit the string spells. Every other string yields `InvalidUnit` of that same string. |
| `Scheduling.Message` | pkg/crontab/scheduler.go:43-73 | A zero interval reads "interval must be > 0". An invalid unit reads "invalid unit: " followed by exactly the unit string. The library's error from an interval call is its own text, unchanged. A cron failure reads "failed to schedule cron job: " followed by exactly the library's text. |
| `Scheduling.ValidationErrorTexts` | pkg/crontab/scheduler.go:43-64 | For every unit string, a zero interval reports "interval must be > 0". For every positive interval with a misspelled unit, the report is "invalid unit: " followed by that unit. |
| `Scheduling.MessageIdentifiesCause` | pkg/crontab/scheduler.go:64-72 | Two invalid-unit texts are equal only for the same unit. Two cron-failure texts are equal only for the same library text. |
| `Scheduling.SpellingDeterminesUnit` | pkg/crontab/scheduler.go:47-62 | No string spells two different units, so the switch's case groups are disjoint. |
| `Scheduling.AcceptedSpellingsAreTheTen` | pkg/crontab/scheduler.go:47-64 | A string spells a unit exactly when it is one of the ten listed strings, and those ten are pairwise distinct. |
| `Scheduling.SingularAndPluralAgree` | pkg/crontab/scheduler.go:47-62 | For a positive interval the singular and the plural of a unit both validate to that unit with the unchanged amount. |
| `Scheduling.RejectedSpellings` | pkg/crontab/scheduler.go:43-64 | Matching is exact and case-sensitive: "Seconds", "SECOND", "sec", "" and "fortnight" are invalid units. A zero interval with an invalid unit reports the zero-interval error, because that check comes first. |
| `Scheduling.EveryInterval` | pkg/crontab/scheduler.go:42-66 | A zero interval or an invalid unit returns its error and leaves the state unchanged. An accepted call hands exactly one `Every(amount, unit)` job to the library and changes nothing else. It returns nil exactly when the library accepts; otherwise it returns the library's error unwrapped. |
| `Scheduling.RejectedCallNeverReachesLibrary` | pkg/crontab/scheduler.go:43-64 | For a rejected interval or unit, the outcome is the same whatever the library would have answered. The state is unchanged and the error is the validation error. |
| `Scheduling.Cron` | pkg/crontab/scheduler.go:69-75 | Every expression is handed to the library, with no validation of its own. The call returns nil exactly when the library accepts. Otherwise the library's error comes back wrapped as "failed to schedule cron job: ...". The elector and locker are unchanged. |
| `Scheduling.NewScheduler` | pkg/crontab/scheduler.go:19-22 | The local constructor starts with nothing handed over, and both accessors return nil. |
| `Scheduling.NewSchedulerWithDistributed` | pkg/crontab/scheduler.go:26-38 | The distributed constructor starts with nothing handed over, and the accessors return the elector and locker it was given. |
| `Scheduling.AccessorsReturnStored` | pkg/crontab/scheduler.go:93-99 | `Elector` and `Locker` return exactly the stored values. The local constructor equals the distributed one given two nils. |
| `Scheduling.PerformOne` | pkg/crontab/scheduler.go:42-75 | One registration call hands the library exactly the jobs an independent description of the request prescribes. It keeps the elector and locker. |
| `Scheduling.PerformAllHandsOverSubmitted` | pkg/crontab/scheduler.go:42-75 | Over any history of interval and cron calls, the library receives exactly the valid requests' jobs, in call order. The elector and locker never change. |
| `Scheduling.SubmittedAmountsArePositive` | pkg/crontab/scheduler.go:43-45 | No history of requests submits an interval job with a zero amount. |
| `Scheduling.ZeroIntervalNeverReachesLibrary` | pkg/crontab/scheduler.go:26-66 | Starting from either constructor, every interval job the library has received after any history of calls has a positive amount. |
| `HookChain.AddBeforeHook` | pkg/crontab/hooks.go:22-24 | The before list gains the hook at its end; the after list is unchanged. |
| `HookChain.AddAfterHook` | pkg/crontab/hooks.go:26-28 | The after list gains the hook at its end; the before list is unchanged. |
| `HookChain.Chain` | pkg/crontab/hooks.go:10-20 | Running a list calls each of its hooks once, in list order, each with the same job id. The trace is as long as the list, and an empty list gives an empty trace. |
| `HookChain.RunBefore` | pkg/crontab/hooks.go:10-14 | The loop calls every before hook once, in order, with the given job id. The hooks called are exactly the before list. |
| `HookChain.RunAfter` | pkg/crontab/hooks.go:16-20 | The loop calls every after hook once, in order, with the given job id. The hooks called are exactly the after list. |
| `HookChain.RunAfterCallsOnlyAfterHooks` | pkg/crontab/hooks.go:16-20 | Running the after list calls only hooks of that list. When the lists share no hook, it never calls a before hook. |
| `HookChain.ChainSnoc` | pkg/crontab/hooks.go:10-20 | Running a list with one hook appended gives the old trace followed by one call to the new hook. |
| `HookChain.AddBeforeThenRun` | pkg/crontab/hooks.go:10-24 | After `AddBeforeHook`, the before run is the old run plus one call to the new hook at the end, and the after run is unchanged. |
| `HookChain.AddAfterThenRun` | pkg/crontab/hooks.go:16-28 | After `AddAfterHook`, the after run is the old run plus one call to the new hook at the end, and the before run is unchanged. |
| `HookChain.RegisterAllAppends` | pkg/crontab/hooks.go:22-28 | After any interleaving of registrations, each list is its old contents followed by its own registrations in the order they were made. |
| `HookChain.ExecutionOrderIsInsertionOrder` | pkg/crontab/hooks.go:10-28 | From empty lists, running the before (after) hooks calls exactly the before (after) registrations, in insertion order. |

Running hooks never modifies either list. `Hooks` is an immutable value, and
`RunBefore`/`RunAfter` take it as input and return only a trace.

## Left out

- `StartAsync`, `Stop` and `Jobs` (pkg/crontab/scheduler.go:78-90) only forward to the external library, whose source is not part of this model.
- Everything inside the external library is left out: cron-expression parsing, next-run times, the local time zone, the run loop and the job handles. Its answer to each job is an opaque `Reply`. The model makes no assumption about what the library keeps after rejecting a job. The registry records what was handed to it.
- Wiring the elector and locker into the library is commented out in the source (pkg/crontab/scheduler.go:28-36). The model only stores and returns them.
- The job function passed to `EveryInterval`/`Cron` is never called by the wrapper, so it is not represented.
- What a hook does when called is left out. Hooks are opaque identifiers, and the source neither recovers panics nor reports hook errors.
- `RunBefore`/`RunAfter` traces assume every hook returns. In Go, a hook that panics ends the loop after the calls made so far, and the panic reaches the caller.
- Slice aliasing is not modelled. Go's `append` (pkg/crontab/hooks.go:23, 27) writes into a shared backing array when it has spare capacity. Two copies of a `Hooks` struct can then overwrite each other's appended hooks, so one copy may never call a hook added to it. The model treats every `Hooks` as an independent value, which rules this out.
- Nil receivers are not modelled. On a nil `*Scheduler`, an accepted `EveryInterval` call (pkg/crontab/scheduler.go:49-61) and every `Cron` call (line 70) panic. A zero interval or an invalid unit still returns its error first. On a nil `*Hooks`, `RunBefore` and `RunAfter` panic (pkg/crontab/hooks.go:11, 17). The model's `Scheduler` always has a library behind it.
- Go strings are bytes, but the model's strings are sequences of characters. A unit string that is not valid UTF-8 has no model value, so the text "invalid unit: %s" is not modelled for it. Matching against the ten ASCII spellings is unaffected.
- cmd/server/main.go is HTTP transport, query parsing and JSON output over the calls above. It is not part of this model.
- Concurrency: the Go types are not synchronised, and the model is sequential.
