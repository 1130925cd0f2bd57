/**
 * The cron job runner. A tick runs up to its first `await`, then other ticks interleave; every await point of
 * `JobRunner.register` is a phase here and every stretch of code between two awaits is one step.
 */
module JobRunner {
  import opened Common

  datatype Job = Job(name: string, enabled: Option<bool>)

  /** Where a run of a job waits. */
  datatype Phase =
    | CreatingLog       // for the log row to be created
    | HandlerRunning    // for the handler
    | SavingSuccess     // for the row to be updated after the handler returned
    | SavingFailure     // for the row to be updated in the catch block
    | Finished
    | LogNeverCreated   // the creation was rejected, outside the try block

  datatype Run = Run(name: string, phase: Phase, handlerReturned: bool)

  datatype Status = Running | Success | Failed

  /** `logs` has the row of run number r under r, if the row exists. */
  datatype State = State(scheduled: seq<Job>, activeJobs: set<string>, runs: seq<Run>, logs: map<nat, Status>)

  /** `stored` tells whether a rejected write reached the database all the same. */
  datatype Event =
    | Register(job: Job)
    | Tick(slot: nat)
    | LogCreated(run: nat)
    | LogRejected(run: nat, stored: bool)
    | HandlerReturned(run: nat)
    | HandlerThrew(run: nat, withMessage: bool)
    | SuccessSaved(run: nat)
    | SuccessRejected(run: nat, stored: bool, withMessage: bool)
    | FailureSaved(run: nat)
    | FailureRejected(run: nat, stored: bool)

  const START := State([], {}, [], map[])

  /** The phase in which an event about a run can happen. */
  function Awaits(e: Event): Phase
    requires !e.Register? && !e.Tick?
  {
    match e
    case LogCreated(_) => CreatingLog
    case LogRejected(_, _) => CreatingLog
    case HandlerReturned(_) => HandlerRunning
    case HandlerThrew(_, _) => HandlerRunning
    case SuccessSaved(_) => SavingSuccess
    case SuccessRejected(_, _, _) => SavingSuccess
    case FailureSaved(_) => SavingFailure
    case FailureRejected(_, _) => SavingFailure
  }

  predicate Enabled(s: State, e: Event) {
    match e
    case Register(_) => true
    case Tick(j) => j < |s.scheduled|
    case _ => e.run < |s.runs| && s.runs[e.run].phase == Awaits(e)
  }

  /** The run number r moves to another phase. */
  function Move(s: State, r: nat, phase: Phase): State
    requires r < |s.runs|
  {
    s.(runs := s.runs[r := s.runs[r].(phase := phase)])
  }

  /** The `finally` block: the name is free again. */
  function Finish(s: State, r: nat): State
    requires r < |s.runs|
  {
    Move(s, r, Finished).(activeJobs := s.activeJobs - {s.runs[r].name})
  }

  function Write(s: State, r: nat, status: Status): State {
    s.(logs := s.logs[r := status])
  }

  function Step(s: State, e: Event): State
    requires Enabled(s, e)
  {
    match e
    case Register(job) =>
      if job.enabled == Some(false) then s else s.(scheduled := s.scheduled + [job])
    case Tick(j) =>
      var name := s.scheduled[j].name;
      if name in s.activeJobs then s
      else s.(activeJobs := s.activeJobs + {name}, runs := s.runs + [Run(name, CreatingLog, false)])
    case LogCreated(r) => Move(Write(s, r, Running), r, HandlerRunning)
    case LogRejected(r, stored) => Move(if stored then Write(s, r, Running) else s, r, LogNeverCreated)
    case HandlerReturned(r) => s.(runs := s.runs[r := s.runs[r].(phase := SavingSuccess, handlerReturned := true)])
    case HandlerThrew(r, withMessage) => if withMessage then Move(s, r, SavingFailure) else Finish(s, r)
    case SuccessSaved(r) => Finish(Write(s, r, Success), r)
    case SuccessRejected(r, stored, withMessage) =>
      var w := if stored then Write(s, r, Success) else s;
      if withMessage then Move(w, r, SavingFailure) else Finish(w, r)
    case FailureSaved(r) => Finish(Write(s, r, Failed), r)
    case FailureRejected(r, stored) => Finish(if stored then Write(s, r, Failed) else s, r)
  }

  /** The module-level variables of the runner and the steps that change them. */
  class Runner {
    var scheduled: seq<Job>
    var activeJobs: set<string>
    var runs: seq<Run>
    var logs: map<nat, Status>

    function Current(): State
      reads this
    {
      State(scheduled, activeJobs, runs, logs)
    }

    ghost predicate Valid()
      reads this
    {
      Invariant(Current())
    }

    constructor ()
      ensures Valid() && Current() == START
    {
      scheduled, activeJobs, runs, logs := [], {}, [], map[];
    }

    method Register(job: Job)
      requires Valid()
      modifies this
      ensures Valid()
      ensures Current() == Step(old(Current()), Event.Register(job))
    {
      StepKeepsInvariant(Current(), Event.Register(job));
      if job.enabled == Some(false) { return; }
      scheduled := scheduled + [job];
    }

    /** The cron callback up to `BackgroundJobLog.create`. */
    method Tick(slot: nat)
      requires Valid()
      requires Enabled(Current(), Event.Tick(slot))
      modifies this
      ensures Valid()
      ensures Current() == Step(old(Current()), Event.Tick(slot))
    {
      StepKeepsInvariant(Current(), Event.Tick(slot));
      var name := scheduled[slot].name;
      if name in activeJobs { return; }
      activeJobs := activeJobs + {name};
      runs := runs + [Run(name, CreatingLog, false)];
    }

    /** What the settled `create` promise leads to. */
    method LogSettled(r: nat, created: bool, stored: bool)
      requires Valid()
      requires r < |runs| && runs[r].phase == CreatingLog
      modifies this
      ensures Valid()
      ensures Current() == Step(old(Current()), if created then LogCreated(r) else LogRejected(r, stored))
    {
      StepKeepsInvariant(Current(), if created then LogCreated(r) else LogRejected(r, stored));
      if created || stored { logs := logs[r := Running]; }
      runs := runs[r := runs[r].(phase := if created then HandlerRunning else LogNeverCreated)];
    }

    /** What the settled handler promise leads to. */
    method HandlerSettled(r: nat, returned: bool, withMessage: bool)
      requires Valid()
      requires r < |runs| && runs[r].phase == HandlerRunning
      modifies this
      ensures Valid()
      ensures Current() == Step(old(Current()), if returned then HandlerReturned(r) else HandlerThrew(r, withMessage))
    {
      StepKeepsInvariant(Current(), if returned then HandlerReturned(r) else HandlerThrew(r, withMessage));
      if returned {
        runs := runs[r := runs[r].(phase := SavingSuccess, handlerReturned := true)];
      } else if withMessage {
        runs := runs[r := runs[r].(phase := SavingFailure)];
      } else {
        Release(r);
      }
    }

    /** What the settled update to success leads to. */
    method SuccessSettled(r: nat, saved: bool, stored: bool, withMessage: bool)
      requires Valid()
      requires r < |runs| && runs[r].phase == SavingSuccess
      modifies this
      ensures Valid()
      ensures Current() == Step(old(Current()),
                                if saved then SuccessSaved(r) else SuccessRejected(r, stored, withMessage))
    {
      StepKeepsInvariant(Current(), if saved then SuccessSaved(r) else SuccessRejected(r, stored, withMessage));
      if saved || stored { logs := logs[r := Success]; }
      if saved || !withMessage {
        Release(r);
      } else {
        runs := runs[r := runs[r].(phase := SavingFailure)];
      }
    }

    /** What the settled update to failed leads to. */
    method FailureSettled(r: nat, saved: bool, stored: bool)
      requires Valid()
      requires r < |runs| && runs[r].phase == SavingFailure
      modifies this
      ensures Valid()
      ensures Current() == Step(old(Current()), if saved then FailureSaved(r) else FailureRejected(r, stored))
    {
      StepKeepsInvariant(Current(), if saved then FailureSaved(r) else FailureRejected(r, stored));
      if saved || stored { logs := logs[r := Failed]; }
      Release(r);
    }

    /** The `finally` block. */
    method Release(r: nat)
      requires r < |runs|
      modifies this
      ensures Current() == Finish(old(Current()), r)
    {
      activeJobs := activeJobs - {runs[r].name};
      runs := runs[r := runs[r].(phase := Finished)];
    }
  }

  // ---------------------------------------------------------------- every interleaving

  /** The events happen one after another from state `s`. */
  ghost predicate Possible(s: State, events: seq<Event>)
    decreases |events|
  {
    events == [] || (Enabled(s, events[0]) && Possible(Step(s, events[0]), events[1..]))
  }

  ghost function After(s: State, events: seq<Event>): State
    requires Possible(s, events)
    decreases |events|
  {
    if events == [] then s else After(Step(s, events[0]), events[1..])
  }

  /** Run number r has not given its name back. */
  predicate Holds(s: State, r: int) {
    0 <= r < |s.runs| && s.runs[r].phase != Finished
  }

  /** The names held by runs are the active ones, and no two runs hold the same name. */
  ghost predicate NamesAreHeld(s: State) {
    && (forall r :: Holds(s, r) ==> s.runs[r].name in s.activeJobs)
    && (forall name :: name in s.activeJobs ==> exists r :: Holds(s, r) && s.runs[r].name == name)
    && (forall q, r :: Holds(s, q) && Holds(s, r) && q != r ==> s.runs[q].name != s.runs[r].name)
  }

  /** Rows belong to runs past creation, and a row or a save of success needs a handler that returned. */
  ghost predicate RowsAreHonest(s: State) {
    && (forall r :: r in s.logs ==> r < |s.runs| && s.runs[r].phase != CreatingLog)
    && (forall r :: r in s.logs && s.logs[r] == Success ==> s.runs[r].handlerReturned)
    && (forall r :: 0 <= r < |s.runs| && s.runs[r].phase == SavingSuccess ==> s.runs[r].handlerReturned)
    && (forall r :: 0 <= r < |s.runs| && s.runs[r].phase in {HandlerRunning, SavingSuccess, SavingFailure} ==>
        r in s.logs)
  }

  ghost predicate Invariant(s: State) {
    NamesAreHeld(s) && RowsAreHonest(s)
  }

  /** What a run's own step may do to the run and its row. */
  predicate HonestMove(s: State, r: nat, run: Run, logs: map<nat, Status>)
    requires r < |s.runs|
  {
    && run.phase != CreatingLog
    && (logs == s.logs || (r in logs && logs == s.logs[r := logs[r]]))
    && (r in logs && logs[r] == Success ==> run.handlerReturned)
    && (run.phase == SavingSuccess ==> run.handlerReturned)
    && (run.phase in {HandlerRunning, SavingSuccess, SavingFailure} ==> r in logs)
  }

  lemma HonestMoveKeepsRows(s: State, t: State, r: nat)
    requires RowsAreHonest(s) && r < |s.runs| && |t.runs| == |s.runs|
    requires t.runs == s.runs[r := t.runs[r]] && HonestMove(s, r, t.runs[r], t.logs)
    ensures RowsAreHonest(t)
  {
  }

  lemma StepKeepsRowsHonest(s: State, e: Event)
    requires RowsAreHonest(s) && Enabled(s, e)
    ensures RowsAreHonest(Step(s, e))
  {
    if !e.Register? && !e.Tick? {
      var r, t := e.run, Step(s, e);
      assert HonestMove(s, r, t.runs[r], t.logs);
      HonestMoveKeepsRows(s, t, r);
    }
  }

  /** A step of a run that still holds its name leaves it in the set or, at the end, takes out just this name. */
  lemma RunStepKeepsNames(s: State, t: State, r: nat)
    requires NamesAreHeld(s) && Holds(s, r) && |t.runs| == |s.runs|
    requires t.runs == s.runs[r := t.runs[r]] && t.runs[r].name == s.runs[r].name
    requires t.activeJobs == if t.runs[r].phase == Finished then s.activeJobs - {s.runs[r].name} else s.activeJobs
    ensures NamesAreHeld(t)
  {
    forall name | name in t.activeJobs
      ensures exists q :: Holds(t, q) && t.runs[q].name == name
    {
      var q :| Holds(s, q) && s.runs[q].name == name;
      assert Holds(t, q) && t.runs[q].name == name;
    }
  }

  lemma NewRunKeepsNames(s: State, t: State, name: string)
    requires NamesAreHeld(s) && name !in s.activeJobs
    requires t.runs == s.runs + [Run(name, CreatingLog, false)] && t.activeJobs == s.activeJobs + {name}
    ensures NamesAreHeld(t)
  {
    assert Holds(t, |s.runs|);
    forall other | other in s.activeJobs
      ensures exists q :: Holds(t, q) && t.runs[q].name == other
    {
      var q :| Holds(s, q) && s.runs[q].name == other;
      assert Holds(t, q) && t.runs[q].name == other;
    }
    assert forall q :: Holds(t, q) && q != |s.runs| ==> Holds(s, q);
  }

  lemma StepKeepsNamesHeld(s: State, e: Event)
    requires NamesAreHeld(s) && Enabled(s, e)
    ensures NamesAreHeld(Step(s, e))
  {
    var t := Step(s, e);
    if e.Tick? {
      if s.scheduled[e.slot].name !in s.activeJobs { NewRunKeepsNames(s, t, s.scheduled[e.slot].name); }
    } else if !e.Register? {
      hide NamesAreHeld;
      RunStepKeepsNames(s, t, e.run);
    } else {
      assert t.runs == s.runs && t.activeJobs == s.activeJobs;
    }
  }

  lemma StepKeepsInvariant(s: State, e: Event)
    requires Invariant(s) && Enabled(s, e)
    ensures Invariant(Step(s, e))
  {
    StepKeepsNamesHeld(s, e);
    StepKeepsRowsHonest(s, e);
  }

  /** The invariant holds in every state that any interleaving of steps reaches from a state where it holds. */
  lemma {:induction false} InvariantAlways(s: State, events: seq<Event>)
    requires Invariant(s) && Possible(s, events)
    ensures Invariant(After(s, events))
    decreases |events|
  {
    if events == [] {
    } else {
      StepKeepsInvariant(s, events[0]);
      InvariantAlways(Step(s, events[0]), events[1..]);
    }
  }

  /** A run between its tick and its end, with or without a log row. */
  predicate InFlight(run: Run) {
    run.phase in {CreatingLog, HandlerRunning, SavingSuccess, SavingFailure}
  }

  /** A name is active exactly while one run of it is in flight or has lost its log creation, and there is only one. */
  lemma ActiveMeansOneRun(events: seq<Event>, name: string)
    requires Possible(START, events)
    ensures var s := After(START, events);
            && (name in s.activeJobs <==>
                exists r :: 0 <= r < |s.runs| && s.runs[r].name == name
                         && (InFlight(s.runs[r]) || s.runs[r].phase == LogNeverCreated))
            && forall q, r | 0 <= q < |s.runs| && 0 <= r < |s.runs| && q != r && InFlight(s.runs[q])
                             && s.runs[q].name == name && s.runs[r].name == name :: s.runs[r].phase == Finished
  {
    InvariantAlways(START, events);
    var s := After(START, events);
    forall r
      ensures Holds(s, r) <==> 0 <= r < |s.runs| && (InFlight(s.runs[r]) || s.runs[r].phase == LogNeverCreated)
    {
    }
    if name in s.activeJobs {
      var r :| Holds(s, r) && s.runs[r].name == name;
      assert InFlight(s.runs[r]) || s.runs[r].phase == LogNeverCreated;
    }
  }

  /** Ending a run frees its name, and a tick of a free name starts a run. */
  lemma EndFreesTheName(events: seq<Event>, e: Event, r: nat)
    requires Possible(START, events) && Enabled(After(START, events), e)
    requires r < |After(START, events).runs| && After(START, events).runs[r].phase != Finished
    requires Step(After(START, events), e).runs[r].phase == Finished
    ensures var t := Step(After(START, events), e);
            && t.runs[r].name !in t.activeJobs
            && forall j :: 0 <= j < |t.scheduled| && t.scheduled[j].name == t.runs[r].name
                           ==> Step(t, Tick(j)).runs == t.runs + [Run(t.runs[r].name, CreatingLog, false)]
  {
    hide After, Possible, RowsAreHonest;
    InvariantAlways(START, events);
    EndingStep(After(START, events), e, r);
  }

  lemma EndingStep(s: State, e: Event, r: nat)
    requires NamesAreHeld(s) && Enabled(s, e) && Holds(s, r)
    requires Step(s, e).runs[r].phase == Finished
    ensures Step(s, e).runs[r].name !in Step(s, e).activeJobs
  {
    hide NamesAreHeld;
    assert !e.Register? && !e.Tick? && e.run == r;
  }

  /** A log row says success only if its run's handler returned. */
  lemma SuccessMeansReturned(events: seq<Event>, r: nat)
    requires Possible(START, events)
    ensures var s := After(START, events);
            r in s.logs && s.logs[r] == Success ==> r < |s.runs| && s.runs[r].handlerReturned
  {
    InvariantAlways(START, events);
  }

  /** One step past a rejected log creation: the run stays as it is, its name stays active, no run of it starts. */
  lemma RejectedLogBlocks(s: State, e: Event, r: nat)
    requires NamesAreHeld(s) && Enabled(s, e) && r < |s.runs| && s.runs[r].phase == LogNeverCreated
    ensures var t := Step(s, e);
            && r < |t.runs| && t.runs[r] == s.runs[r] && |s.runs| <= |t.runs|
            && forall q :: |s.runs| <= q < |t.runs| ==> t.runs[q].name != s.runs[r].name
  {
    assert Holds(s, r);
    hide NamesAreHeld;
  }

  /** Once a log creation is rejected, the name never runs again in this process. */
  lemma {:induction false} RejectedLogBlocksForever(s: State, events: seq<Event>, r: nat)
    requires Invariant(s) && Possible(s, events)
    requires r < |s.runs| && s.runs[r].phase == LogNeverCreated
    ensures var t := After(s, events);
            && r < |t.runs| && t.runs[r] == s.runs[r] && t.runs[r].name in t.activeJobs
            && |s.runs| <= |t.runs|
            && forall q :: |s.runs| <= q < |t.runs| ==> t.runs[q].name != s.runs[r].name
    decreases |events|
  {
    if events == [] {
      assert Holds(s, r);
    } else {
      hide NamesAreHeld, RowsAreHonest, Step, Enabled;
      var mid, t := Step(s, events[0]), After(s, events);
      StepKeepsNamesHeld(s, events[0]);
      StepKeepsRowsHonest(s, events[0]);
      RejectedLogBlocks(s, events[0], r);
      RejectedLogBlocksForever(mid, events[1..], r);
      forall q | |s.runs| <= q < |t.runs|
        ensures t.runs[q].name != s.runs[r].name
      {
        if q < |mid.runs| { NamesStay(mid, events[1..], q); }
      }
    }
  }

  /** Run numbers and their names never change. */
  lemma {:induction false} NamesStay(s: State, events: seq<Event>, q: nat)
    requires Possible(s, events) && q < |s.runs|
    ensures q < |After(s, events).runs| && After(s, events).runs[q].name == s.runs[q].name
    decreases |events|
  {
    if events == [] {
    } else {
      NamesStay(Step(s, events[0]), events[1..], q);
    }
  }

  // ---------------------------------------------------------------- a run is what happened to it

  predicate IsAbout(e: Event, r: nat) {
    !e.Register? && !e.Tick? && e.run == r
  }

  /** The last thing that happened to a run. */
  function LastOf(past: seq<Event>, r: nat): Option<Event> {
    if past == [] then None
    else if IsAbout(past[|past| - 1], r) then Some(past[|past| - 1])
    else LastOf(past[..|past| - 1], r)
  }

  /** The status an event leaves in the run's row, if it writes one. */
  function Written(e: Event): Option<Status> {
    match e
    case LogCreated(_) => Some(Running)
    case LogRejected(_, stored) => if stored then Some(Running) else None
    case SuccessSaved(_) => Some(Success)
    case SuccessRejected(_, stored, _) => if stored then Some(Success) else None
    case FailureSaved(_) => Some(Failed)
    case FailureRejected(_, stored) => if stored then Some(Failed) else None
    case _ => None
  }

  /** What was written last of a run. */
  function LastWritten(past: seq<Event>, r: nat): Option<Status> {
    if past == [] then None
    else if IsAbout(past[|past| - 1], r) && Written(past[|past| - 1]).Some? then Written(past[|past| - 1])
    else LastWritten(past[..|past| - 1], r)
  }

  /** A run waits for what its last event leads to: a rejection or a throw whose message can be read is to be saved. */
  predicate LeadsTo(last: Option<Event>, phase: Phase) {
    match phase
    case CreatingLog => last.None?
    case HandlerRunning => last.Some? && last.value.LogCreated?
    case LogNeverCreated => last.Some? && last.value.LogRejected?
    case SavingSuccess => last.Some? && last.value.HandlerReturned?
    case SavingFailure =>
      last.Some? && (last.value.HandlerThrew? || last.value.SuccessRejected?) && last.value.withMessage
    case Finished =>
      last.Some? && (last.value.SuccessSaved? || last.value.FailureSaved? || last.value.FailureRejected?
                     || ((last.value.HandlerThrew? || last.value.SuccessRejected?) && !last.value.withMessage))
  }

  ghost predicate PhaseIsTold(s: State, past: seq<Event>, r: nat) {
    && (r < |s.runs| ==> LeadsTo(LastOf(past, r), s.runs[r].phase)
                         && (s.runs[r].handlerReturned <==> HandlerReturned(r) in past))
    && (|s.runs| <= r ==> forall e :: e in past ==> !IsAbout(e, r))
  }

  ghost predicate RowIsTold(s: State, past: seq<Event>, r: nat) {
    (if r in s.logs then Some(s.logs[r]) else None) == LastWritten(past, r)
  }

  /** The run's phase and its row are those that its events tell. */
  ghost predicate IsTold(s: State, past: seq<Event>, r: nat) {
    PhaseIsTold(s, past, r) && RowIsTold(s, past, r)
  }

  lemma {:induction false} NothingAbout(past: seq<Event>, r: nat)
    requires forall e :: e in past ==> !IsAbout(e, r)
    ensures LastOf(past, r).None? && HandlerReturned(r) !in past
  {
    if past == [] {
    } else {
      NothingAbout(past[..|past| - 1], r);
      assert past[|past| - 1] in past;
    }
  }

  lemma StepTellsPhase(s: State, past: seq<Event>, e: Event, r: nat)
    requires Enabled(s, e) && PhaseIsTold(s, past, r)
    ensures PhaseIsTold(Step(s, e), past + [e], r)
  {
    var now := past + [e];
    assert now[..|now| - 1] == past && now[|now| - 1] == e;
    if |s.runs| <= r { NothingAbout(past, r); }
  }

  lemma StepTellsRow(s: State, past: seq<Event>, e: Event, r: nat)
    requires Enabled(s, e) && RowIsTold(s, past, r)
    ensures RowIsTold(Step(s, e), past + [e], r)
  {
    var now := past + [e];
    assert now[..|now| - 1] == past && now[|now| - 1] == e;
  }

  lemma StepIsTold(s: State, past: seq<Event>, e: Event, r: nat)
    requires Enabled(s, e) && IsTold(s, past, r)
    ensures IsTold(Step(s, e), past + [e], r)
  {
    hide Step, Enabled, PhaseIsTold, RowIsTold;
    StepTellsPhase(s, past, e, r);
    StepTellsRow(s, past, e, r);
  }

  lemma {:induction false} RunIsTold(s: State, past: seq<Event>, events: seq<Event>, r: nat)
    requires Possible(s, events) && IsTold(s, past, r)
    ensures IsTold(After(s, events), past + events, r)
    decreases |events|
  {
    hide IsTold, Step, Enabled;
    if events == [] {
      assert past + events == past;
    } else {
      StepIsTold(s, past, events[0], r);
      RunIsTold(Step(s, events[0]), past + [events[0]], events[1..], r);
      assert past + [events[0]] + events[1..] == past + events;
    }
  }

  /** In every history a run waits for what its last event leads to, and its row has what was written last. */
  lemma RunTells(events: seq<Event>, r: nat)
    requires Possible(START, events)
    ensures var s := After(START, events);
            && (r < |s.runs| ==> LeadsTo(LastOf(events, r), s.runs[r].phase)
                                 && (s.runs[r].handlerReturned <==> HandlerReturned(r) in events))
            && (r in s.logs <==> LastWritten(events, r).Some?)
            && (r in s.logs ==> Some(s.logs[r]) == LastWritten(events, r))
  {
    assert IsTold(START, [], r);
    RunIsTold(START, [], events, r);
    assert [] + events == events;
  }

  lemma LastPhase(s: State, past: seq<Event>, r: nat)
    requires IsTold(s, past, r) && past != [] && IsAbout(past[|past| - 1], r)
    ensures var last := past[|past| - 1];
            && r < |s.runs|
            && (last.LogCreated? ==> s.runs[r].phase == HandlerRunning)
            && (last.HandlerReturned? ==> s.runs[r].phase == SavingSuccess)
            && (last.SuccessSaved? || last.FailureSaved? || last.FailureRejected? ==> s.runs[r].phase == Finished)
  {
    hide LastWritten;
    assert past[|past| - 1] in past;
    assert LastOf(past, r) == Some(past[|past| - 1]);
    hide LastOf;
  }

  lemma LastRow(s: State, past: seq<Event>, r: nat)
    requires IsTold(s, past, r) && past != [] && IsAbout(past[|past| - 1], r) && Written(past[|past| - 1]).Some?
    ensures r in s.logs && Some(s.logs[r]) == Written(past[|past| - 1])
  {
    hide LastOf, LeadsTo, Written, IsAbout;
  }

  /** Right after a save the row reads what was saved; after a rejection too, if the update got through. */
  lemma SaveTells(events: seq<Event>, r: nat)
    requires Possible(START, events) && events != [] && IsAbout(events[|events| - 1], r)
    ensures var (s, last) := (After(START, events), events[|events| - 1]);
            && r < |s.runs|
            && (last.LogCreated? ==> r in s.logs && s.logs[r] == Running && s.runs[r].phase == HandlerRunning)
            && (last.HandlerReturned? ==> s.runs[r].phase == SavingSuccess)
            && (last.SuccessSaved? ==> r in s.logs && s.logs[r] == Success && s.runs[r].phase == Finished)
            && (last.FailureSaved? ==> r in s.logs && s.logs[r] == Failed && s.runs[r].phase == Finished)
            && (last.SuccessRejected? && last.stored ==> r in s.logs && s.logs[r] == Success)
            && (last.FailureRejected? ==> s.runs[r].phase == Finished)
            && (last.FailureRejected? && last.stored ==> r in s.logs && s.logs[r] == Failed)
  {
    assert IsTold(START, [], r);
    RunIsTold(START, [], events, r);
    assert [] + events == events;
    WrittenIs(events[|events| - 1]);
    hide *;
    LastPhase(After(START, events), events, r);
    if Written(events[|events| - 1]).Some? { LastRow(After(START, events), events, r); }
  }

  lemma WrittenIs(e: Event)
    ensures e.LogCreated? ==> Written(e) == Some(Running)
    ensures e.SuccessSaved? || (e.SuccessRejected? && e.stored) ==> Written(e) == Some(Success)
    ensures e.FailureSaved? || (e.FailureRejected? && e.stored) ==> Written(e) == Some(Failed)
  {
  }

  /** No write about the run is rejected, and what it throws has a message. */
  predicate Undisturbed(e: Event, r: nat) {
    IsAbout(e, r) ==> match e
                      case LogRejected(_, _) => false
                      case HandlerThrew(_, withMessage) => withMessage
                      case SuccessRejected(_, _, _) => false
                      case FailureRejected(_, _) => false
                      case _ => true
  }

  /** Success is only saved of a run that returned, and failure only of one that did not. */
  ghost predicate ReturnsInOrder(s: State, r: nat) {
    r < |s.runs| ==>
      match s.runs[r].phase
      case SavingSuccess => s.runs[r].handlerReturned
      case Finished => r in s.logs && s.logs[r] == if s.runs[r].handlerReturned then Success else Failed
      case _ => !s.runs[r].handlerReturned
  }

  lemma StepReturnsInOrder(s: State, e: Event, r: nat)
    requires Enabled(s, e) && ReturnsInOrder(s, r) && Undisturbed(e, r)
    ensures ReturnsInOrder(Step(s, e), r)
  {
  }

  /** The row of a finished run says success if the handler returned and failed if not, unless something else failed. */
  lemma {:induction false} FinishedRowTells(s: State, events: seq<Event>, r: nat)
    requires Possible(s, events) && ReturnsInOrder(s, r) && forall e :: e in events ==> Undisturbed(e, r)
    ensures ReturnsInOrder(After(s, events), r)
    decreases |events|
  {
    hide Step, Enabled, ReturnsInOrder, Undisturbed;
    if events == [] {
    } else {
      StepReturnsInOrder(s, events[0], r);
      FinishedRowTells(Step(s, events[0]), events[1..], r);
    }
  }

  lemma FinishedRowIsTrue(events: seq<Event>, r: nat)
    requires Possible(START, events) && forall e :: e in events ==> Undisturbed(e, r)
    ensures var s := After(START, events);
            r < |s.runs| && s.runs[r].phase == Finished ==>
              r in s.logs && s.logs[r] == if s.runs[r].handlerReturned then Success else Failed
  {
    FinishedRowTells(START, events, r);
  }

  // ---------------------------------------------------------------- what is scheduled, and which runs there are

  /** The jobs registered and not disabled. */
  function Scheduled(past: seq<Event>): seq<Job> {
    if past == [] then []
    else
      var last := past[|past| - 1];
      Scheduled(past[..|past| - 1])
      + if last.Register? && last.job.enabled != Some(false) then [last.job] else []
  }

  lemma {:induction false} ScheduledInTurn(s: State, past: seq<Event>, events: seq<Event>)
    requires Possible(s, events) && s.scheduled == Scheduled(past)
    ensures After(s, events).scheduled == Scheduled(past + events)
    decreases |events|
  {
    hide Enabled;
    if events == [] {
      assert past + events == past;
    } else {
      var now := past + [events[0]];
      assert now[..|now| - 1] == past && now[|now| - 1] == events[0];
      ScheduledInTurn(Step(s, events[0]), now, events[1..]);
      assert now + events[1..] == past + events;
    }
  }

  /** What is scheduled is what was registered and not disabled, in order. */
  lemma ScheduledAreRegistered(events: seq<Event>)
    requires Possible(START, events)
    ensures After(START, events).scheduled == Scheduled(events)
  {
    ScheduledInTurn(START, [], events);
    assert [] + events == events;
  }

  /** A tick starts a run of its job exactly when no run holds the name. */
  lemma TickStarts(events: seq<Event>, j: nat)
    requires Possible(START, events) && j < |After(START, events).scheduled|
    ensures var s := After(START, events);
            var name, t := s.scheduled[j].name, Step(s, Tick(j));
            if exists r :: 0 <= r < |s.runs| && s.runs[r].name == name && s.runs[r].phase != Finished
            then t == s
            else t.runs == s.runs + [Run(name, CreatingLog, false)] && name in t.activeJobs && t.logs == s.logs
  {
    hide RowsAreHonest, After, Possible;
    InvariantAlways(START, events);
    var s := After(START, events);
    assert forall r :: 0 <= r < |s.runs| && s.runs[r].phase != Finished ==> Holds(s, r);
  }
}
