/**
  The scheduling front end of the `crontab` package (pkg/crontab/scheduler.go).

  The package wraps an external scheduling library. Everything that library does
  (cron parsing, next-run computation, the run loop) is outside this model: the
  library is represented only by its answer to each job handed to it, a `Reply`
  supplied by the caller of the model. The `Scheduler` value records the jobs
  the wrapper handed to the library, in order, together with the stored elector
  and locker handles.
*/
module Scheduling {
  import opened Results

  /** Go's `uint64`, the type of the interval amount. */
  newtype uint64 = x: int | 0 <= x < 0x1_0000_0000_0000_0000

  /** The five interval units the wrapper understands. */
  datatype Unit = Second | Minute | Hour | Day | Week

  /** The singular spelling of a unit. */
  function Singular(u: Unit): string
  {
    match u
    case Second => "second"
    case Minute => "minute"
    case Hour => "hour"
    case Day => "day"
    case Week => "week"
  }

  /** The plural spelling of a unit: the singular with an `s` appended. */
  function Plural(u: Unit): string
  {
    Singular(u) + "s"
  }

  /** `s` is one of the two exact (case-sensitive) spellings of `u`. */
  predicate Denotes(s: string, u: Unit)
  {
    s == Singular(u) || s == Plural(u)
  }

  /** `s` is a spelling of some unit. */
  ghost predicate IsUnitSpelling(s: string)
  {
    exists u :: Denotes(s, u)
  }

  /** The ten accepted spellings, written out. */
  const AcceptedSpellings: set<string> :=
    {"second", "seconds", "minute", "minutes", "hour", "hours",
     "day", "days", "week", "weeks"}

  /** An error reported by the external scheduling library; only its text is visible. */
  datatype LibError = LibError(message: string)

  /** The library's answer to one job handed to it. */
  datatype Reply = Accepted | Rejected(cause: LibError)

  /** The errors the wrapper returns. */
  datatype Err =
    | IntervalNotPositive
    | InvalidUnit(unit: string)
    | Library(cause: LibError)       // returned unchanged by EveryInterval
    | CronFailed(cause: LibError)    // wrapped by Cron

  const InvalidUnitPrefix := "invalid unit: "
  const CronFailedPrefix := "failed to schedule cron job: "

  /**
    The text of an error, as the wrapper formats it: a fixed text for a zero
    interval, the offending unit after a fixed prefix, the library's own text
    unchanged, or the library's text after the cron prefix.
  */
  function Message(e: Err): (r: string)
    ensures e.IntervalNotPositive? ==> r == "interval must be > 0"
    ensures e.InvalidUnit? ==>
              |r| == |InvalidUnitPrefix| + |e.unit| &&
              r[..|InvalidUnitPrefix|] == InvalidUnitPrefix && r[|InvalidUnitPrefix|..] == e.unit
    ensures e.Library? ==> r == e.cause.message
    ensures e.CronFailed? ==>
              |r| == |CronFailedPrefix| + |e.cause.message| &&
              r[..|CronFailedPrefix|] == CronFailedPrefix && r[|CronFailedPrefix|..] == e.cause.message
  {
    match e
    case IntervalNotPositive => "interval must be > 0"
    case InvalidUnit(unit) => InvalidUnitPrefix + unit
    case Library(cause) => cause.message
    case CronFailed(cause) => CronFailedPrefix + cause.message
  }

  /**
    The validation and unit switch of `EveryInterval`: the zero check comes
    first, then the unit string is matched exactly against the ten spellings.
  */
  function ValidateInterval(interval: uint64, unit: string): (r: Result<(uint64, Unit), Err>)
    ensures interval == 0 ==> r == Failure(IntervalNotPositive)
    ensures interval > 0 ==> (r.Success? <==> IsUnitSpelling(unit))
    ensures interval > 0 && r.Failure? ==> r.error == InvalidUnit(unit)
    ensures r.Success? ==> r.value.0 == interval && Denotes(unit, r.value.1)
  {
    if interval == 0 then
      Failure(IntervalNotPositive)
    else
      match unit
      case "second" | "seconds" => PluralSpellings(); assert Denotes(unit, Second); Success((interval, Second))
      case "minute" | "minutes" => PluralSpellings(); assert Denotes(unit, Minute); Success((interval, Minute))
      case "hour" | "hours" => PluralSpellings(); assert Denotes(unit, Hour); Success((interval, Hour))
      case "day" | "days" => PluralSpellings(); assert Denotes(unit, Day); Success((interval, Day))
      case "week" | "weeks" => PluralSpellings(); assert Denotes(unit, Week); Success((interval, Week))
      case _ =>
        AcceptedSpellingsAreTheTen(unit);
        Failure(InvalidUnit(unit))
  }

  /** The plural spellings, written out. */
  lemma PluralSpellings()
    ensures Plural(Second) == "seconds" && Plural(Minute) == "minutes"
    ensures Plural(Hour) == "hours" && Plural(Day) == "days" && Plural(Week) == "weeks"
  {
  }

  /** No string spells two different units: the five singulars start with five different letters. */
  lemma SpellingDeterminesUnit(s: string, u: Unit, v: Unit)
    requires Denotes(s, u) && Denotes(s, v)
    ensures u == v
  {
    assert s[0] == Singular(u)[0] && s[0] == Singular(v)[0];
  }

  /** A spelling of `u` spells no other unit. */
  lemma SpellingHasOneUnit(s: string, u: Unit)
    requires Denotes(s, u)
    ensures forall v :: Denotes(s, v) ==> v == u
  {
    forall v | Denotes(s, v) ensures v == u {
      SpellingDeterminesUnit(s, u, v);
    }
  }

  /** The accepted spellings are exactly the ten listed ones. */
  lemma AcceptedSpellingsAreTheTen(s: string)
    ensures IsUnitSpelling(s) <==> s in AcceptedSpellings
    ensures |AcceptedSpellings| == 10
  {
    if s in AcceptedSpellings {
      if s == "second" || s == "seconds" { assert Denotes(s, Second); }
      else if s == "minute" || s == "minutes" { assert Denotes(s, Minute); }
      else if s == "hour" || s == "hours" { assert Denotes(s, Hour); }
      else if s == "day" || s == "days" { assert Denotes(s, Day); }
      else { assert Denotes(s, Week); }
    }
    if IsUnitSpelling(s) {
      PluralSpellings();
    }
  }

  /** For a positive interval, the singular and the plural spelling give the same unit. */
  lemma SingularAndPluralAgree(interval: uint64, u: Unit)
    requires interval > 0
    ensures ValidateInterval(interval, Singular(u)) == Success((interval, u))
    ensures ValidateInterval(interval, Plural(u)) == Success((interval, u))
  {
    var rs := ValidateInterval(interval, Singular(u));
    var rp := ValidateInterval(interval, Plural(u));
    assert Denotes(Singular(u), u) && Denotes(Plural(u), u);
    SpellingDeterminesUnit(Singular(u), u, rs.value.1);
    SpellingDeterminesUnit(Plural(u), u, rp.value.1);
  }

  /** Matching is exact and case-sensitive, and the zero check precedes the unit check. */
  lemma RejectedSpellings()
    ensures ValidateInterval(5, "Seconds") == Failure(InvalidUnit("Seconds"))
    ensures ValidateInterval(5, "SECOND") == Failure(InvalidUnit("SECOND"))
    ensures ValidateInterval(5, "fortnight") == Failure(InvalidUnit("fortnight"))
    ensures ValidateInterval(5, "sec") == Failure(InvalidUnit("sec"))
    ensures ValidateInterval(5, "") == Failure(InvalidUnit(""))
    ensures ValidateInterval(0, "fortnight") == Failure(IntervalNotPositive)
    ensures Message(ValidateInterval(0, "fortnight").error) == "interval must be > 0"
  {
  }

  /**
    The texts of the validation errors, for every input: a zero interval
    reports "interval must be > 0" whatever the unit, and a positive interval
    with a misspelled unit reports that unit after "invalid unit: ".
  */
  lemma ValidationErrorTexts(interval: uint64, unit: string)
    ensures interval == 0 ==> Message(ValidateInterval(interval, unit).error) == "interval must be > 0"
    ensures interval > 0 && !IsUnitSpelling(unit) ==>
              Message(ValidateInterval(interval, unit).error) == "invalid unit: " + unit
  {
  }

  /** The wrapper's error texts identify what they report: the unit, or the library's text. */
  lemma MessageIdentifiesCause(e1: Err, e2: Err)
    requires (e1.InvalidUnit? && e2.InvalidUnit?) || (e1.CronFailed? && e2.CronFailed?)
    requires Message(e1) == Message(e2)
    ensures e1 == e2
  {
  }

  /** An opaque elector handle, as passed to the distributed constructor. */
  type ElectorId = nat

  /** An opaque locker handle, as passed to the distributed constructor. */
  type LockerId = nat

  /** One job handed to the external library. */
  datatype Entry = Every(amount: uint64, unit: Unit) | CronJob(expr: string)

  /**
    The wrapper's state: every job it has handed to the library, in order,
    whether or not the library accepted it (this is not the library's own job
    list), and the elector and locker it stores (absent means Go's nil).
  */
  datatype Scheduler = Scheduler(handedOver: seq<Entry>, elector: Option<ElectorId>, locker: Option<LockerId>)

  /** The state after one call and the error it returns (`None` means nil). */
  datatype Outcome = Outcome(sch: Scheduler, err: Option<Err>)

  /** The local constructor: nothing handed over yet, no elector, no locker. */
  function NewScheduler(): (s: Scheduler)
    ensures s.handedOver == []
    ensures Elector(s) == None && Locker(s) == None
  {
    Scheduler([], None, None)
  }

  /** The distributed constructor: the handles are stored as given (the wiring into the library is not done). */
  function NewSchedulerWithDistributed(elector: Option<ElectorId>, locker: Option<LockerId>): (s: Scheduler)
    ensures s.handedOver == []
    ensures Elector(s) == elector && Locker(s) == locker
  {
    Scheduler([], elector, locker)
  }

  function Elector(s: Scheduler): Option<ElectorId>
  {
    s.elector
  }

  function Locker(s: Scheduler): Option<LockerId>
  {
    s.locker
  }

  /** The accessors return exactly what the distributed constructor stored; the local constructor stores nil for both. */
  lemma AccessorsReturnStored(elector: Option<ElectorId>, locker: Option<LockerId>)
    ensures Elector(NewSchedulerWithDistributed(elector, locker)) == elector
    ensures Locker(NewSchedulerWithDistributed(elector, locker)) == locker
    ensures NewScheduler() == NewSchedulerWithDistributed(None, None)
  {
  }

  /**
    `EveryInterval`: a rejected interval or unit never reaches the library; an
    accepted one hands exactly one job, with the caller's amount and the
    spelled unit, and returns the library's error unchanged.
  */
  function EveryInterval(sch: Scheduler, interval: uint64, unit: string, reply: Reply): (r: Outcome)
    ensures interval == 0 ==> r == Outcome(sch, Some(IntervalNotPositive))
    ensures interval > 0 && !IsUnitSpelling(unit) ==> r == Outcome(sch, Some(InvalidUnit(unit)))
    ensures forall u :: interval > 0 && Denotes(unit, u) ==>
              r.sch == sch.(handedOver := sch.handedOver + [Every(interval, u)])
    ensures interval > 0 && IsUnitSpelling(unit) ==>
              (reply.Accepted? ==> r.err == None) && (reply.Rejected? ==> r.err == Some(Library(reply.cause)))
    ensures r.err == None <==> interval > 0 && IsUnitSpelling(unit) && reply == Accepted
  {
    match ValidateInterval(interval, unit)
    case Failure(e) => Outcome(sch, Some(e))
    case Success((n, u)) =>
      SpellingHasOneUnit(unit, u);
      var sch' := sch.(handedOver := sch.handedOver + [Every(n, u)]);
      match reply
      case Accepted => Outcome(sch', None)
      case Rejected(cause) => Outcome(sch', Some(Library(cause)))
  }

  /** A rejected call is independent of the library's answer: the library was never consulted. */
  lemma RejectedCallNeverReachesLibrary(sch: Scheduler, interval: uint64, unit: string, reply1: Reply, reply2: Reply)
    requires ValidateInterval(interval, unit).Failure?
    ensures EveryInterval(sch, interval, unit, reply1) == EveryInterval(sch, interval, unit, reply2)
    ensures EveryInterval(sch, interval, unit, reply1).sch == sch
    ensures EveryInterval(sch, interval, unit, reply1).err == Some(ValidateInterval(interval, unit).error)
  {
  }

  /**
    `Cron`: the expression is handed to the library with no validation of its
    own; the call succeeds exactly when the library accepts, and a library
    error comes back wrapped.
  */
  function Cron(sch: Scheduler, expr: string, reply: Reply): (r: Outcome)
    ensures r.sch.handedOver == sch.handedOver + [CronJob(expr)]
    ensures r.sch.elector == sch.elector && r.sch.locker == sch.locker
    ensures r.err == None <==> reply.Accepted?
    ensures reply.Rejected? ==> r.err == Some(CronFailed(reply.cause))
    ensures reply.Rejected? ==> Message(r.err.value) == "failed to schedule cron job: " + reply.cause.message
  {
    match reply
    case Accepted => Outcome(sch.(handedOver := sch.handedOver + [CronJob(expr)]), None)
    case Rejected(cause) => Outcome(sch.(handedOver := sch.handedOver + [CronJob(expr)]), Some(CronFailed(cause)))
  }

  /** One registration call made against the wrapper, with the library's answer to it. */
  datatype Request =
    | IntervalRequest(interval: uint64, unit: string, reply: Reply)
    | CronRequest(expr: string, reply: Reply)

  /** Performs one registration call. */
  function Perform(sch: Scheduler, req: Request): Outcome
  {
    match req
    case IntervalRequest(interval, unit, reply) => EveryInterval(sch, interval, unit, reply)
    case CronRequest(expr, reply) => Cron(sch, expr, reply)
  }

  /** Performs a sequence of registration calls in order. */
  function PerformAll(sch: Scheduler, reqs: seq<Request>): Scheduler
    decreases |reqs|
  {
    if reqs == [] then sch else PerformAll(Perform(sch, reqs[0]).sch, reqs[1..])
  }

  /**
    The jobs a sequence of calls hands to the library, stated without
    reference to the wrapper: a cron request always, an interval request only
    when its amount is positive and its unit is spelled correctly.
  */
  ghost function Submitted(reqs: seq<Request>): seq<Entry>
    decreases |reqs|
  {
    if reqs == [] then []
    else
      var first :=
        match reqs[0]
        case CronRequest(expr, _) => [CronJob(expr)]
        case IntervalRequest(interval, unit, _) =>
          if interval > 0 && IsUnitSpelling(unit)
          then [Every(interval, var u :| Denotes(unit, u); u)]
          else [];
      first + Submitted(reqs[1..])
  }

  /** All interval jobs in `jobs` have a positive amount. */
  ghost predicate PositiveAmounts(jobs: seq<Entry>)
  {
    forall i :: 0 <= i < |jobs| && jobs[i].Every? ==> jobs[i].amount > 0
  }

  /** What a history submits is what its first request submits, then what the rest submits. */
  lemma SubmittedCons(reqs: seq<Request>)
    requires reqs != []
    ensures Submitted(reqs) == Submitted([reqs[0]]) + Submitted(reqs[1..])
  {
  }

  /** No history of requests submits an interval job with a zero amount. */
  lemma {:induction false} SubmittedAmountsArePositive(reqs: seq<Request>)
    ensures PositiveAmounts(Submitted(reqs))
    decreases |reqs|
  {
    if reqs != [] {
      SubmittedAmountsArePositive(reqs[1..]);
      SubmittedCons(reqs);
      assert PositiveAmounts(Submitted([reqs[0]])) by {
        assert [reqs[0]][1..] == [];
      }
    }
  }

  /** One call hands the library exactly what its request submits, and keeps the handles. */
  lemma PerformOne(sch: Scheduler, req: Request)
    ensures Perform(sch, req).sch.handedOver == sch.handedOver + Submitted([req])
    ensures Perform(sch, req).sch.elector == sch.elector
    ensures Perform(sch, req).sch.locker == sch.locker
  {
  }

  /**
    Over any history of calls, the library receives exactly the submitted
    jobs, in order, and the stored elector and locker never change.
  */
  lemma {:induction false} PerformAllHandsOverSubmitted(sch: Scheduler, reqs: seq<Request>)
    ensures PerformAll(sch, reqs).handedOver == sch.handedOver + Submitted(reqs)
    ensures Elector(PerformAll(sch, reqs)) == Elector(sch)
    ensures Locker(PerformAll(sch, reqs)) == Locker(sch)
    decreases |reqs|
  {
    if reqs != [] {
      var next := Perform(sch, reqs[0]).sch;
      PerformOne(sch, reqs[0]);
      PerformAllHandsOverSubmitted(next, reqs[1..]);
      SubmittedCons(reqs);
    }
  }

  /** Starting from either constructor, no interval job with a zero amount ever reaches the library. */
  lemma ZeroIntervalNeverReachesLibrary(elector: Option<ElectorId>, locker: Option<LockerId>, reqs: seq<Request>)
    ensures PositiveAmounts(PerformAll(NewSchedulerWithDistributed(elector, locker), reqs).handedOver)
    ensures PositiveAmounts(PerformAll(NewScheduler(), reqs).handedOver)
  {
    PerformAllHandsOverSubmitted(NewScheduler(), reqs);
    var sch := NewSchedulerWithDistributed(elector, locker);
    PerformAllHandsOverSubmitted(sch, reqs);
    SubmittedAmountsArePositive(reqs);
    assert PerformAll(sch, reqs).handedOver == Submitted(reqs);
  }
}
