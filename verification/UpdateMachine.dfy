/** Any number of calls to ota_api_update(), on any tasks and from inside each other's callbacks,
    interleaved with ota_api_abort() and ota_api_is_running(). Each critical section of
    src/ota-api-state.c is one step, and so is every call into ESP-IDF or the application.
    A run is a log of steps; the theorems are about logs. */
module UpdateMachine {
  import opened Esp
  import opened UpdateCall
  import Runs

  /** s_running and s_abort_requested */
  datatype Slot = Slot(running: bool, abortRequested: bool)

  const FREE: Slot := Slot(false, false)

  datatype Call = Call(req: Request, hist: History, at: Local)
  {
    function After(e: Label): Call
      requires Next(req, at, e).Some?
    {
      Call(req, Then(hist, e), Next(req, at, e).value)
    }
  }

  /** boot names the call whose image the device starts next, if any call committed one. */
  datatype System = System(calls: map<nat, Call>, slot: Slot, boot: Option<nat>)

  datatype Step =
    | Enter(c: nat, req: Request)
    | Do(c: nat, e: Label)
    | Abort(accepted: bool)
    | IsRunning(answer: bool)

  const INITIAL: System := System(map[], FREE, None)

  /** The answers a critical section may give in a slot state. */
  predicate Agrees(slot: Slot, e: Label) {
    match e
    case Claim(granted) => granted == !slot.running
    case CheckAbort(requested) => requested == slot.abortRequested
    case _ => true
  }

  function SlotAfter(slot: Slot, e: Label): Slot {
    match e
    case Claim(true) => Slot(true, false)
    case Release => FREE
    case _ => slot
  }

  function Take(s: System, step: Step): Option<System> {
    match step
    case Enter(c, req) =>
      if c in s.calls then None else Some(s.(calls := s.calls[c := Call(req, [], Start(req))]))
    case Do(c, e) =>
      if c !in s.calls || !Agrees(s.slot, e) || Next(s.calls[c].req, s.calls[c].at, e).None? then None
      else Some(System(s.calls[c := s.calls[c].After(e)], SlotAfter(s.slot, e),
                       if e == Finish(Ok) then Some(c) else s.boot))
    case Abort(accepted) =>
      if accepted != s.slot.running then None
      else Some(if accepted then s.(slot := s.slot.(abortRequested := true)) else s)
    case IsRunning(answer) =>
      if answer != s.slot.running then None else Some(s)
  }

  type Log = seq<Step>

  function Exec(log: Log): Option<System> {
    Runs.Fold(Take, INITIAL, log)
  }

  lemma ExecAt(log: Log, n: nat) returns (s: System)
    requires n < |log| && Exec(log).Some?
    ensures Exec(log[..n]) == Some(s)
    ensures Exec(log[..n + 1]).Some? && Exec(log[..n + 1]) == Take(s, log[n])
  {
    s := Runs.At(Take, INITIAL, log, n);
  }

  /** What one call did, read off the log. */
  function Projection(log: Log, c: nat): History {
    if log == [] then []
    else
      var last := log[|log| - 1];
      Projection(log[..|log| - 1], c) + if last.Do? && last.c == c then [last.e] else []
  }

  // --- The invariant of every reachable state ---

  predicate InSlot(s: System, c: nat) {
    c in s.calls && HoldsSlot(s.calls[c].at.pc)
  }

  ghost predicate Consistent(s: System) {
    && (forall c :: c in s.calls ==> Run(s.calls[c].req, s.calls[c].hist) == Some(s.calls[c].at))
    && (forall c, d :: InSlot(s, c) && InSlot(s, d) ==> c == d)
    && (s.slot.running <==> exists c :: InSlot(s, c))
    && (s.slot.abortRequested ==> s.slot.running)
    && (s.boot.Some? ==> s.boot.value in s.calls && Finish(Ok) in s.calls[s.boot.value].hist)
  }

  /** What a step of call c does to the question who is in the slot. */
  lemma SlotMoves(s: System, c: nat, e: Label)
    requires Take(s, Do(c, e)).Some?
    ensures var t := Take(s, Do(c, e)).value;
            && (forall d :: d != c ==> (InSlot(t, d) <==> InSlot(s, d)))
            && (InSlot(t, c) <==> !e.Release? && (e == Claim(true) || InSlot(s, c)))
            && (e.Release? ==> InSlot(s, c))
  {
    SlotStep(s.calls[c].req, s.calls[c].at, e);
  }

  lemma SlotStaysExclusive(s: System, c: nat, e: Label)
    requires Consistent(s) && Take(s, Do(c, e)).Some?
    ensures var t := Take(s, Do(c, e)).value;
            && (forall a, b :: InSlot(t, a) && InSlot(t, b) ==> a == b)
            && (t.slot.running <==> exists d :: InSlot(t, d))
            && (t.slot.abortRequested ==> t.slot.running)
  {
    SlotMoves(s, c, e);
    var t := Take(s, Do(c, e)).value;
    if e == Claim(true) {
      assert InSlot(t, c);
    } else if e == Release {
      assert InSlot(s, c);
    } else if s.slot.running {
      var d :| InSlot(s, d);
      assert InSlot(t, d);
    }
  }

  lemma CallSteps(s: System, c: nat, e: Label)
    requires Consistent(s) && Take(s, Do(c, e)).Some?
    ensures Consistent(Take(s, Do(c, e)).value)
  {
    SlotStaysExclusive(s, c, e);
    var t := Take(s, Do(c, e)).value;
    var call := s.calls[c];
    RunThen(call.req, call.hist, e);
    assert forall x :: x in call.hist ==> x in Then(call.hist, e);
    assert e in Then(call.hist, e) by {
      assert Then(call.hist, e)[|call.hist|] == e;
    }
  }

  lemma Preserved(s: System, step: Step)
    requires Consistent(s) && Take(s, step).Some?
    ensures Consistent(Take(s, step).value)
  {
    var t := Take(s, step).value;
    match step
    case Do(c, e) => CallSteps(s, c, e);
    case Enter(c, req) =>
      assert forall d :: InSlot(t, d) <==> InSlot(s, d);
    case Abort(accepted) =>
      assert forall d :: InSlot(t, d) <==> InSlot(s, d);
    case IsRunning(answer) =>
  }

  lemma {:induction false} AlwaysConsistent(log: Log)
    requires Exec(log).Some?
    ensures Consistent(Exec(log).value)
  {
    if log != [] {
      AlwaysConsistent(log[..|log| - 1]);
      Preserved(Exec(log[..|log| - 1]).value, log[|log| - 1]);
    }
  }

  /** A call's own view of an interleaved run is a sequential behaviour, so every theorem about
      one call holds of each of them. */
  lemma {:induction false} EveryCallIsSequential(log: Log, c: nat)
    requires Exec(log).Some? && c in Exec(log).value.calls
    ensures var call := Exec(log).value.calls[c];
            call.hist == Projection(log, c) && Run(call.req, Projection(log, c)) == Some(call.at)
  {
    AlwaysConsistent(log);
    ProjectionIsHistory(log, c);
  }

  lemma {:induction false} ProjectionIsHistory(log: Log, c: nat)
    requires Exec(log).Some?
    ensures c in Exec(log).value.calls ==> Exec(log).value.calls[c].hist == Projection(log, c)
    ensures c !in Exec(log).value.calls ==> Projection(log, c) == []
  {
    if log != [] {
      ProjectionIsHistory(log[..|log| - 1], c);
    }
  }

  /** A step of anybody but call c. */
  predicate Foreign(step: Step, c: nat) {
    !(step.Do? && step.c == c)
  }

  /** What nobody but c itself can do to c. */
  lemma OthersLeaveAlone(log: Log, later: Log, c: nat)
    requires Exec(log).Some? && Exec(later).Some? && log <= later && c in Exec(log).value.calls
    requires forall i :: |log| <= i < |later| ==> Foreign(later[i], c)
    ensures c in Exec(later).value.calls && Exec(later).value.calls[c] == Exec(log).value.calls[c]
  {
    var call := Exec(log).value.calls[c];
    Runs.Stays(Take, INITIAL, log, later, (step: Step) => Foreign(step, c),
               (s: System) => c in s.calls && s.calls[c] == call);
  }

  // --- Mutual exclusion ---

  /** A call is between its granted claim and its release. */
  predicate Owns(log: Log, c: nat) {
    Holding(Projection(log, c))
  }

  lemma OwnsIffInSlot(log: Log, c: nat)
    requires Exec(log).Some?
    ensures Owns(log, c) <==> InSlot(Exec(log).value, c)
  {
    ProjectionIsHistory(log, c);
    if c in Exec(log).value.calls {
      EveryCallIsSequential(log, c);
      SlotDiscipline(Exec(log).value.calls[c].req, Projection(log, c));
    }
  }

  /** At most one call is between claim and release, and the flag says whether one is. */
  lemma MutualExclusion(log: Log)
    requires Exec(log).Some?
    ensures forall c, d :: Owns(log, c) && Owns(log, d) ==> c == d
    ensures Exec(log).value.slot.running <==> exists c :: Owns(log, c)
  {
    AlwaysConsistent(log);
    var s := Exec(log).value;
    forall c ensures Owns(log, c) <==> InSlot(s, c) {
      OwnsIffInSlot(log, c);
    }
    if s.slot.running {
      var c :| InSlot(s, c);
      assert Owns(log, c);
    }
  }

  /** Whoever asks is told the truth: an update is running, and an abort is accepted, exactly while
      some call is between its claim and its release. */
  lemma AnswersAreTrue(log: Log, n: nat)
    requires Exec(log).Some? && n < |log|
    ensures log[n].IsRunning? ==> (log[n].answer <==> exists c :: Owns(log[..n], c))
    ensures log[n].Abort? ==> (log[n].accepted <==> exists c :: Owns(log[..n], c))
    ensures log[n].Do? && log[n].e.Claim? ==> (log[n].e.granted <==> !exists c :: Owns(log[..n], c))
  {
    var s := ExecAt(log, n);
    MutualExclusion(log[..n]);
  }

  /** Never are two esp_https_ota sessions open at once. */
  lemma OneSessionAtATime(log: Log, c: nat, d: nat)
    requires Exec(log).Some? && c in Exec(log).value.calls && d in Exec(log).value.calls
    requires HandlesCreated(Projection(log, c)) > HandlesFreed(Projection(log, c))
    requires HandlesCreated(Projection(log, d)) > HandlesFreed(Projection(log, d))
    ensures c == d
  {
    EveryCallIsSequential(log, c);
    EveryCallIsSequential(log, d);
    HandleBalance(Exec(log).value.calls[c].req, Projection(log, c));
    HandleBalance(Exec(log).value.calls[d].req, Projection(log, d));
    MutualExclusion(log);
    assert Owns(log, c) && Owns(log, d);
  }

  /** Only the claimant releases the slot, talks to esp_https_ota, or commits. */
  lemma OnlyTheOwnerActs(log: Log, n: nat)
    requires Exec(log).Some? && n < |log| && log[n].Do?
    requires match log[n].e
             case Release | Begin(_) | Perform(_) | Finish(_) | AbortHandle | CheckAbort(_) => true
             case _ => false
    ensures Owns(log[..n], log[n].c)
  {
    var s := ExecAt(log, n);
    OwnsIffInSlot(log[..n], log[n].c);
  }

  /** A refused claim changes nothing but the caller, who is done: the owner, the slot with any
      pending abort, the boot partition and all other calls are untouched. */
  lemma RefusalDisturbsNobody(log: Log, n: nat)
    requires Exec(log).Some? && n < |log| && log[n].Do? && log[n].e == Claim(false)
    ensures var c := log[n].c;
            && Exec(log[..n]).Some? && Exec(log[..n + 1]).Some?
            && var s, t := Exec(log[..n]).value, Exec(log[..n + 1]).value;
            && t.slot == s.slot && t.boot == s.boot && t.calls - {c} == s.calls - {c}
            && (exists d :: d != c && Owns(log[..n], d))
            && Projection(log, c) == [Claim(false)]
            && (c in Exec(log).value.calls && Exec(log).value.calls[c].at.pc == Returned(InvalidState))
  {
    var c := log[n].c;
    var s := ExecAt(log, n);
    RefusalStep(s, c);
    AlwaysConsistent(log[..n]);
    SomeoneOwns(log[..n], c);
    StaysRefused(log, c, n + 1);
  }

  lemma RefusalStep(s: System, c: nat)
    requires Take(s, Do(c, Claim(false))).Some?
    ensures var t := Take(s, Do(c, Claim(false))).value;
            t.slot == s.slot && t.boot == s.boot && t.calls - {c} == s.calls - {c}
    ensures s.slot.running && c in s.calls && !InSlot(s, c)
  {
  }

  lemma SomeoneOwns(log: Log, c: nat)
    requires Exec(log).Some? && Exec(log).value.slot.running && !InSlot(Exec(log).value, c)
    ensures exists d :: d != c && Owns(log, d)
  {
    MutualExclusion(log);
    var d :| Owns(log, d);
    OwnsIffInSlot(log, c);
  }

  lemma {:induction false} StaysRefused(log: Log, c: nat, n: nat)
    requires Exec(log).Some? && 1 <= n <= |log| && log[n - 1] == Do(c, Claim(false))
    ensures c in Exec(log).value.calls && Projection(log, c) == [Claim(false)]
    ensures Exec(log).value.calls[c].at.pc == Returned(InvalidState)
    decreases |log|
  {
    if n < |log| {
      StaysRefused(log[..|log| - 1], c, n);
      FinishedCallStays(Exec(log[..|log| - 1]).value, c, log[|log| - 1]);
    } else {
      RefusedNow(log, c);
    }
  }

  lemma FinishedCallStays(s: System, c: nat, step: Step)
    requires Take(s, step).Some? && c in s.calls && s.calls[c].at.pc.Returned?
    ensures !(step.Do? && step.c == c)
    ensures c in Take(s, step).value.calls && Take(s, step).value.calls[c] == s.calls[c]
  {
    if step.Do? && step.c == c {
      NeverClaimingAgain(s.calls[c].req, s.calls[c].at, step.e);
    }
  }

  lemma RefusedNow(log: Log, c: nat)
    requires Exec(log).Some? && log != [] && log[|log| - 1] == Do(c, Claim(false))
    ensures c in Exec(log).value.calls && Projection(log, c) == [Claim(false)]
    ensures Exec(log).value.calls[c].at.pc == Returned(InvalidState)
  {
    EveryCallIsSequential(log, c);
    var h := Projection(log, c);
    assert h[|h| - 1] == Claim(false);
    ClaimComesFirst(Exec(log).value.calls[c].req, h);
    assert h == [Claim(false)];
  }

  // --- Abort ---

  /** Step i is an accepted ota_api_abort() made while c owns the slot. */
  predicate AcceptedAbort(log: Log, i: nat, c: nat) {
    i < |log| && log[i] == Abort(true) && Owns(log[..i], c)
  }

  ghost predicate SomeAbort(log: Log, c: nat) {
    exists i: nat :: AcceptedAbort(log, i, c)
  }

  lemma SomeAbortGrows(log: Log, c: nat)
    requires log != []
    ensures var p := log[..|log| - 1];
            SomeAbort(log, c) <==> SomeAbort(p, c) || (log[|log| - 1] == Abort(true) && Owns(p, c))
  {
    var p := log[..|log| - 1];
    assert log[..|p|] == p;
    forall i: nat | i < |p| ensures AcceptedAbort(log, i, c) <==> AcceptedAbort(p, i, c) {
      assert log[..i] == p[..i];
    }
    if SomeAbort(log, c) {
      var i: nat :| AcceptedAbort(log, i, c);
      assert i == |p| || AcceptedAbort(p, i, c);
    }
    if SomeAbort(p, c) {
      var i: nat :| AcceptedAbort(p, i, c);
      assert AcceptedAbort(log, i, c);
    }
    if log[|p|] == Abort(true) && Owns(p, c) {
      assert AcceptedAbort(log, |p|, c);
    }
  }

  lemma FlagStep(s: System, c: nat, step: Step)
    requires Consistent(s) && Take(s, step).Some? && InSlot(Take(s, step).value, c)
    ensures InSlot(s, c) || (step == Do(c, Claim(true)) && !Take(s, step).value.slot.abortRequested)
    ensures InSlot(s, c) ==>
              (Take(s, step).value.slot.abortRequested <==> s.slot.abortRequested || step == Abort(true))
  {
    if step.Do? {
      SlotMoves(s, step.c, step.e);
      if step.c != c {
        OtherCallsKeepSlot(s, c, step);
      }
    }
  }

  /** While c owns the slot, the flag it polls is up exactly when an abort was accepted since
      its own claim. */
  lemma {:induction false} FlagMeansAbort(log: Log, c: nat)
    requires Exec(log).Some? && Owns(log, c)
    ensures Exec(log).value.slot.abortRequested <==> SomeAbort(log, c)
  {
    var p := log[..|log| - 1];
    var s := Exec(p).value;
    OwnsIffInSlot(log, c);
    OwnsIffInSlot(p, c);
    AlwaysConsistent(p);
    FlagStep(s, c, log[|log| - 1]);
    SomeAbortGrows(log, c);
    if Owns(p, c) {
      FlagMeansAbort(p, c);
    } else {
      NeverAbortedBeforeClaim(p, c);
    }
  }

  lemma OtherCallsKeepSlot(s: System, c: nat, step: Step)
    requires Consistent(s) && InSlot(s, c) && step.Do? && step.c != c && Take(s, step).Some?
    ensures Take(s, step).value.slot == s.slot
  {
    assert s.slot.running;
    SlotMoves(s, step.c, step.e);
  }

  lemma NeverAbortedBeforeClaim(p: Log, c: nat)
    requires Exec(p).Some? && c in Exec(p).value.calls && Exec(p).value.calls[c].at.pc == Claiming
    ensures !SomeAbort(p, c)
  {
    EveryCallIsSequential(p, c);
    if Projection(p, c) != [] {
      ClaimComesFirst(Exec(p).value.calls[c].req, Projection(p, c));
    }
    forall i: nat | i < |p| ensures !AcceptedAbort(p, i, c) {
      ProjectionGrows(p, c, i);
    }
  }

  lemma {:induction false} ProjectionGrows(log: Log, c: nat, i: nat)
    requires i <= |log|
    ensures |Projection(log[..i], c)| <= |Projection(log, c)|
    decreases |log|
  {
    if i < |log| {
      ProjectionGrows(log[..|log| - 1], c, i);
      assert log[..|log| - 1][..i] == log[..i];
    } else {
      assert log[..i] == log;
    }
  }

  lemma AbortsBefore(log: Log, n: nat, c: nat)
    requires n <= |log|
    ensures SomeAbort(log[..n], c) <==> exists i: nat :: i < n && AcceptedAbort(log, i, c)
  {
    forall i: nat | i < n ensures AcceptedAbort(log[..n], i, c) <==> AcceptedAbort(log, i, c) {
      assert log[..n][..i] == log[..i];
    }
    if SomeAbort(log[..n], c) {
      var i: nat :| AcceptedAbort(log[..n], i, c);
      assert i < n && AcceptedAbort(log, i, c);
    }
    if exists i: nat :: i < n && AcceptedAbort(log, i, c) {
      var i: nat :| i < n && AcceptedAbort(log, i, c);
      assert AcceptedAbort(log[..n], i, c);
    }
  }

  /** An abort is confined to its own update: the poll in the download loop of c is answered
      yes exactly when some ota_api_abort() was accepted between c's claim and the poll. */
  lemma AbortConfined(log: Log, n: nat)
    requires Exec(log).Some? && n < |log| && log[n].Do? && log[n].e.CheckAbort?
    ensures log[n].e.requested <==> exists i: nat :: i < n && AcceptedAbort(log, i, log[n].c)
  {
    var c := log[n].c;
    var s := ExecAt(log, n);
    OnlyTheOwnerActs(log, n);
    FlagMeansAbort(log[..n], c);
    AbortsBefore(log, n, c);
  }

  /** The loop cannot reach another esp_https_ota_perform() any more. */
  predicate PastLoop(pc: Pc) {
    match pc
    case Verifying | Committing => true
    case Measuring(forced) => forced
    case Emitting(event, forced) => event.Terminal() || (event.Downloaded? && forced)
    case Calling(event, forced) => event.Terminal() || (event.Downloaded? && forced)
    case Aborting(_) | Releasing(_) | Returned(_) => true
    case _ => false
  }

  predicate NoMorePerforms(s: System, c: nat) {
    c in s.calls && (PastLoop(s.calls[c].at.pc) || (s.calls[c].at.pc == CheckingAbort && s.slot.abortRequested))
  }

  predicate UnforcedCall(pc: Pc) {
    pc.Calling? && pc.event.Downloaded? && !pc.forced
  }

  predicate NoMoreReports(s: System, c: nat) {
    || NoMorePerforms(s, c)
    || (c in s.calls && s.slot.abortRequested
        && (s.calls[c].at.pc.Performing? || UnforcedCall(s.calls[c].at.pc)))
  }

  /** The owner's own next step. */
  lemma OwnStepQuiet(req: Request, l: Local, e: Label, abortRequested: bool)
    requires Next(req, l, e).Some? && (e.CheckAbort? ==> e.requested == abortRequested)
    ensures PastLoop(l.pc) ==> PastLoop(Next(req, l, e).value.pc) && !e.Perform? && !UnforcedReport(e)
    ensures l.pc == CheckingAbort && abortRequested ==> PastLoop(Next(req, l, e).value.pc)
  {
  }

  lemma OwnStepUnreported(req: Request, l: Local, e: Label)
    requires Next(req, l, e).Some? && (l.pc.Performing? || UnforcedCall(l.pc))
    ensures !e.Emit? && !e.Claim? && !e.Release?
    ensures var pc := Next(req, l, e).value.pc;
            PastLoop(pc) || pc == CheckingAbort || pc.Performing? || UnforcedCall(pc)
  {
  }

  lemma PerformsStay(s: System, c: nat, step: Step)
    requires Consistent(s) && Take(s, step).Some? && NoMorePerforms(s, c)
    ensures NoMorePerforms(Take(s, step).value, c) && !(step.Do? && step.c == c && step.e.Perform?)
  {
    if step.Do? {
      if step.c == c {
        OwnStepQuiet(s.calls[c].req, s.calls[c].at, step.e, s.slot.abortRequested);
      } else if InSlot(s, c) {
        OtherCallsKeepSlot(s, c, step);
      }
    }
  }

  lemma ReportsStay(s: System, c: nat, step: Step)
    requires Consistent(s) && Take(s, step).Some? && NoMoreReports(s, c)
    ensures NoMoreReports(Take(s, step).value, c) && !(step.Do? && step.c == c && UnforcedReport(step.e))
  {
    if NoMorePerforms(s, c) {
      PerformsStay(s, c, step);
      if step.Do? && step.c == c {
        OwnStepQuiet(s.calls[c].req, s.calls[c].at, step.e, s.slot.abortRequested);
      }
    } else if step.Do? {
      if step.c == c {
        OwnStepUnreported(s.calls[c].req, s.calls[c].at, step.e);
      } else {
        OtherCallsKeepSlot(s, c, step);
      }
    }
  }

  lemma {:induction false} NoMorePerformsEver(log: Log, c: nat, j: nat, k: nat, s: System)
    requires Exec(log).Some? && j <= k < |log| && Exec(log[..j]) == Some(s) && NoMorePerforms(s, c)
    ensures !(log[k].Do? && log[k].c == c && log[k].e.Perform?)
    decreases k - j
  {
    var same := ExecAt(log, j);
    AlwaysConsistent(log[..j]);
    PerformsStay(s, c, log[j]);
    if j < k {
      NoMorePerformsEver(log, c, j + 1, k, Take(s, log[j]).value);
    }
  }

  lemma {:induction false} NoMoreReportsEver(log: Log, c: nat, j: nat, k: nat, s: System)
    requires Exec(log).Some? && j <= k < |log| && Exec(log[..j]) == Some(s) && NoMoreReports(s, c)
    ensures !(log[k].Do? && log[k].c == c && UnforcedReport(log[k].e))
    decreases k - j
  {
    var same := ExecAt(log, j);
    AlwaysConsistent(log[..j]);
    ReportsStay(s, c, log[j]);
    if j < k {
      NoMoreReportsEver(log, c, j + 1, k, Take(s, log[j]).value);
    }
  }

  /** When the hit update takes another chunk or begins another report, the flag is up. */
  lemma FlagUpAt(log: Log, c: nat, i: nat, j: nat) returns (s: System)
    requires Exec(log).Some? && AcceptedAbort(log, i, c) && i < j < |log|
    requires log[j].Do? && log[j].c == c && (log[j].e.Perform? || UnforcedReport(log[j].e))
    ensures s.slot.abortRequested && Take(s, log[j]).Some? && Exec(log[..j + 1]) == Take(s, log[j])
  {
    s := ExecAt(log, j);
    OwnsIffInSlot(log[..j], c);
    FlagMeansAbort(log[..j], c);
    assert log[..j][..i] == log[..i];
    assert AcceptedAbort(log[..j], i, c);
  }

  lemma ChunkUnderAbort(s: System, c: nat, step: Step)
    requires Take(s, step).Some? && s.slot.abortRequested && step.Do? && step.c == c && step.e.Perform?
    ensures NoMorePerforms(Take(s, step).value, c)
  {
  }

  lemma ReportUnderAbort(s: System, c: nat, step: Step)
    requires Take(s, step).Some? && s.slot.abortRequested && step.Do? && step.c == c && UnforcedReport(step.e)
    ensures NoMoreReports(Take(s, step).value, c)
  {
  }

  /** Once an abort is accepted, the update it hit fetches at most one more chunk. */
  lemma AbortLatency(log: Log, c: nat, i: nat, j: nat, k: nat)
    requires Exec(log).Some? && AcceptedAbort(log, i, c) && i < j < k < |log|
    requires log[j].Do? && log[j].c == c && log[j].e.Perform?
    ensures !(log[k].Do? && log[k].c == c && log[k].e.Perform?)
  {
    var s := FlagUpAt(log, c, i, j);
    ChunkUnderAbort(s, c, log[j]);
    NoMorePerformsEver(log, c, j + 1, k, Take(s, log[j]).value);
  }

  /** Once an abort is accepted, the update it hit begins at most one more throttled report. */
  lemma AbortSilence(log: Log, c: nat, i: nat, j: nat, k: nat)
    requires Exec(log).Some? && AcceptedAbort(log, i, c) && i < j < k < |log|
    requires log[j].Do? && log[j].c == c && UnforcedReport(log[j].e)
    ensures !(log[k].Do? && log[k].c == c && UnforcedReport(log[k].e))
  {
    var s := FlagUpAt(log, c, i, j);
    ReportUnderAbort(s, c, log[j]);
    NoMoreReportsEver(log, c, j + 1, k, Take(s, log[j]).value);
  }

  lemma {:induction false} StillAboutToPoll(log: Log, c: nat, j: nat, k: nat)
    requires Exec(log).Some? && j < k <= |log| && log[j] == Do(c, Perform(InProgress))
    requires forall m :: j < m < k ==> !(log[m].Do? && log[m].c == c)
    ensures Exec(log[..k]).Some? && c in Exec(log[..k]).value.calls
    ensures Exec(log[..k]).value.calls[c].at.pc == CheckingAbort
    decreases k
  {
    var s := ExecAt(log, k - 1);
    if j < k - 1 {
      StillAboutToPoll(log, c, j, k - 1);
    }
  }

  /** The one chunk still fetched after an accepted abort is followed by the stop branch, unless
      it was the last: whatever the others do meanwhile, the call's next step is a poll that is
      answered yes. */
  lemma AbortStopsNext(log: Log, c: nat, i: nat, j: nat, k: nat)
    requires Exec(log).Some? && AcceptedAbort(log, i, c) && i < j < k < |log|
    requires log[j] == Do(c, Perform(InProgress)) && log[k].Do? && log[k].c == c
    requires forall m :: j < m < k ==> !(log[m].Do? && log[m].c == c)
    ensures log[k].e == CheckAbort(true)
  {
    var s := ExecAt(log, k);
    StillAboutToPoll(log, c, j, k);
    OnlyPolls(s.calls[c].req, s.calls[c].at, log[k].e);
    AbortConfined(log, k);
  }

  lemma OnlyPolls(req: Request, l: Local, e: Label)
    requires l.pc == CheckingAbort && Next(req, l, e).Some?
    ensures e.CheckAbort?
  {
  }

  /** Any poll after an accepted abort sees it, and the update then unwinds with
      ESP_ERR_NOT_FINISHED. */
  lemma AbortIsNoticed(log: Log, c: nat, i: nat, k: nat)
    requires Exec(log).Some? && AcceptedAbort(log, i, c) && i < k < |log|
    requires log[k].Do? && log[k].c == c && log[k].e.CheckAbort?
    ensures log[k].e.requested
    ensures c in Exec(log).value.calls && Unwinding(Exec(log).value.calls[c].at.pc, NotFinished)
  {
    AbortConfined(log, k);
    FailureDecides(log, c, k, NotFinished);
  }

  lemma FailureUnwinds(req: Request, l: Local, e: Label, err: Err)
    requires Next(req, l, e).Some? && Failure(e) == Some(err)
    ensures err != Ok && Unwinding(Next(req, l, e).value.pc, err)
  {
  }

  /** A call that failed at step k only unwinds with that error from there on. */
  lemma {:induction false} FailureDecides(log: Log, c: nat, k: nat, err: Err)
    requires Exec(log).Some? && k < |log| && log[k].Do? && log[k].c == c && Failure(log[k].e) == Some(err)
    ensures c in Exec(log).value.calls && Unwinding(Exec(log).value.calls[c].at.pc, err) && err != Ok
    decreases |log|
  {
    var p := log[..|log| - 1];
    var last := log[|log| - 1];
    if k < |log| - 1 {
      FailureDecides(p, c, k, err);
    }
    if last.Do? && last.c == c {
      var call := Exec(p).value.calls[c];
      if k < |log| - 1 {
        UnwindStep(call.req, call.at, last.e, err);
      } else {
        FailureUnwinds(call.req, call.at, last.e, err);
      }
    }
  }

  /** Inside the download loop. */
  predicate Looping(pc: Pc) {
    InLoop(pc) || pc == Measuring(false)
  }

  predicate LeavesLoop(e: Label) {
    || e == CheckAbort(true)
    || (e.Perform? && e.err != InProgress)
    || (e.Verdict? && e.err != Ok && !e.event.Terminal())
  }

  lemma LoopStep(req: Request, l: Local, e: Label)
    requires Next(req, l, e).Some? && Looping(l.pc)
    ensures LeavesLoop(e) || Looping(Next(req, l, e).value.pc)
  {
  }

  /** How call c got out of the loop it was in before step i. */
  lemma {:induction false} WayOut(log: Log, c: nat, i: nat, s: System) returns (k: nat)
    requires Exec(log).Some? && i <= |log| && Exec(log[..i]) == Some(s)
    requires c in s.calls && Looping(s.calls[c].at.pc)
    requires c in Exec(log).value.calls ==> !Looping(Exec(log).value.calls[c].at.pc)
    ensures i <= k < |log| && log[k].Do? && log[k].c == c && LeavesLoop(log[k].e)
    decreases |log|
  {
    assert log[..|log|] == log;
    var p, last := log[..|log| - 1], log[|log| - 1];
    assert p[..i] == log[..i];
    var t := Exec(p).value;
    if c in t.calls && Looping(t.calls[c].at.pc) {
      k := |log| - 1;
      LoopStep(t.calls[c].req, t.calls[c].at, last.e);
    } else {
      k := WayOut(p, c, i, s);
    }
  }

  /** An update that an accepted abort finds in its download loop gets out of it in one of three
      ways only: the stop branch, esp_https_ota_perform() ending the transfer, or a verdict of the
      application; and the error that took it out is the one it returns. It is never told to go
      on again. */
  lemma AbortWaysOut(log: Log, c: nat, i: nat, s: System) returns (k: nat)
    requires Exec(log).Some? && AcceptedAbort(log, i, c) && Exec(log[..i]) == Some(s)
    requires c in s.calls && Looping(s.calls[c].at.pc)
    requires c in Exec(log).value.calls && Exec(log).value.calls[c].at.pc.Returned?
    ensures i < k < |log| && log[k].Do? && log[k].c == c && LeavesLoop(log[k].e)
    ensures var err := Exec(log).value.calls[c].at.pc.err;
            match log[k].e
            case CheckAbort(_) => err == NotFinished
            case Perform(answer) => answer == Ok || err == answer
            case Verdict(_, verdict) => err == verdict
            case _ => false
    ensures forall m :: i < m < |log| && log[m].Do? && log[m].c == c ==> log[m].e != CheckAbort(false)
  {
    k := WayOut(log, c, i, s);
    if Failure(log[k].e).Some? {
      FailureDecides(log, c, k, Failure(log[k].e).value);
    }
    forall m | i < m < |log| && log[m].Do? && log[m].c == c ensures log[m].e != CheckAbort(false) {
      if log[m].e.CheckAbort? {
        AbortConfined(log, m);
      }
    }
  }

  // --- The boot partition ---

  /** What anybody's step does to the boot partition while c owns the slot. */
  lemma BootStep(s: System, c: nat, step: Step)
    requires Consistent(s) && Take(s, step).Some? && InSlot(s, c)
    ensures InSlot(Take(s, step).value, c) || step == Do(c, Release)
    ensures Take(s, step).value.boot == if step == Do(c, Finish(Ok)) then Some(c) else s.boot
    ensures Finish(Ok) in Take(s, step).value.calls[c].hist
            <==> Finish(Ok) in s.calls[c].hist || step == Do(c, Finish(Ok))
  {
    if step.Do? {
      SlotMoves(s, step.c, step.e);
    }
  }

  lemma BootAtClaim(s: System, c: nat)
    requires Consistent(s) && Take(s, Do(c, Claim(true))).Some?
    ensures var t := Take(s, Do(c, Claim(true))).value;
            InSlot(t, c) && t.boot == s.boot && s.boot != Some(c) && Finish(Ok) !in t.calls[c].hist
  {
    var call := s.calls[c];
    if call.hist != [] {
      ClaimComesFirst(call.req, call.hist);
    }
  }

  /** Between its claim and its release an update, in whatever company, moves the boot partition
      by its own successful finish or not at all. */
  lemma {:induction false} BootWhileOwned(log: Log, c: nat, n: nat, s: System)
    requires Exec(log).Some? && n < |log| && log[n] == Do(c, Claim(true)) && Exec(log[..n]) == Some(s)
    requires forall m :: n < m < |log| ==> log[m] != Do(c, Release)
    ensures InSlot(Exec(log).value, c) && s.boot != Some(c)
    ensures Exec(log).value.boot
            == if Finish(Ok) in Exec(log).value.calls[c].hist then Some(c) else s.boot
    decreases |log|
  {
    var p := log[..|log| - 1];
    AlwaysConsistent(p);
    assert p[..n] == log[..n];
    if n < |log| - 1 {
      BootWhileOwned(p, c, n, s);
      BootStep(Exec(p).value, c, log[|log| - 1]);
    } else {
      BootAtClaim(s, c);
    }
  }

  /** Announcing the outcome, or done. */
  predicate Announcing(pc: Pc, err: Err) {
    || pc == Returned(err)
    || pc == Emitting(Announcement(err), false) || pc == Calling(Announcement(err), false)
  }

  lemma AnnounceStep(req: Request, l: Local, e: Label, err: Err)
    requires Next(req, l, e).Some?
    ensures e.Release? && l.pc == Releasing(err) ==> Announcing(Next(req, l, e).value.pc, err)
    ensures Announcing(l.pc, err) ==> !e.Release? && Announcing(Next(req, l, e).value.pc, err)
  {
  }

  lemma {:induction false} ReleasedForGood(log: Log, c: nat, r: nat, s: System)
    requires Exec(log).Some? && r < |log| && log[r] == Do(c, Release) && Exec(log[..r]) == Some(s)
    ensures c in s.calls && s.calls[c].at.pc.Releasing? && c in Exec(log).value.calls
    ensures Announcing(Exec(log).value.calls[c].at.pc, s.calls[c].at.pc.err)
    decreases |log|
  {
    var p, last := log[..|log| - 1], log[|log| - 1];
    var t := Exec(p).value;
    if r < |log| - 1 {
      assert p[..r] == log[..r];
      ReleasedForGood(p, c, r, s);
    }
    if last.Do? && last.c == c {
      AnnounceStep(t.calls[c].req, t.calls[c].at, last.e, s.calls[c].at.pc.err);
    }
  }

  /** Nobody releases twice. */
  lemma ReleasedOnce(log: Log, c: nat, m: nat, r: nat)
    requires Exec(log).Some? && m < r < |log| && log[m] == Do(c, Release)
    ensures log[r] != Do(c, Release)
  {
    var s := ExecAt(log, m);
    var t := ExecAt(log, r);
    assert log[..r][..m] == log[..m];
    ReleasedForGood(log[..r], c, m, s);
  }

  /** The one irreversible transition: an update that returned anything but ESP_OK had the same
      boot partition at its release as at its claim, whatever it wrote and whoever else was
      about; one that returned ESP_OK moved it to its own image. */
  lemma OnlySuccessMovesBoot(log: Log, c: nat, n: nat, r: nat)
    requires Exec(log).Some? && n < r < |log| && log[n] == Do(c, Claim(true)) && log[r] == Do(c, Release)
    requires c in Exec(log).value.calls && Exec(log).value.calls[c].at.pc.Returned?
    ensures Exec(log[..n]).Some? && Exec(log[..r + 1]).Some?
    ensures var err := Exec(log).value.calls[c].at.pc.err;
            var before, after := Exec(log[..n]).value.boot, Exec(log[..r + 1]).value.boot;
            && after == (if err == Ok then Some(c) else before)
            && (after != before <==> err == Ok)
  {
    var s := ExecAt(log, n);
    var t := ExecAt(log, r);
    forall m | n < m < r ensures log[..r][m] != Do(c, Release) {
      if log[m] == Do(c, Release) {
        ReleasedOnce(log, c, m, r);
      }
    }
    assert log[..r][..n] == log[..n];
    BootWhileOwned(log[..r], c, n, s);
    ReleasedForGood(log, c, r, t);
    AlwaysConsistent(log[..r]);
    CommittedIffFinished(t.calls[c].req, t.calls[c].hist);
  }

  /** Every attempt to commit, successful or not, is made by the slot's owner after a complete
      transfer nobody objected to. */
  lemma CommitsAreClean(log: Log, n: nat)
    requires Exec(log).Some? && n < |log| && log[n].Do? && log[n].e.Finish?
    ensures Owns(log[..n], log[n].c) && ReadyToCommit(Projection(log[..n], log[n].c))
  {
    var s := ExecAt(log, n);
    CommitStep(log[..n], log[n].c, log[n].e);
  }

  lemma CommitStep(p: Log, c: nat, e: Label)
    requires Exec(p).Some? && Take(Exec(p).value, Do(c, e)).Some? && e.Finish?
    ensures Owns(p, c) && ReadyToCommit(Projection(p, c))
  {
    OwnsIffInSlot(p, c);
    EveryCallIsSequential(p, c);
    ReadyAtCommitting(Exec(p).value.calls[c].req, Projection(p, c));
  }

  /** A call that returned, in whatever company, left the slot and the handle behind, and
      returned ESP_OK exactly when it committed. */
  lemma ReturnedCalls(log: Log, c: nat)
    requires Exec(log).Some? && c in Exec(log).value.calls && Exec(log).value.calls[c].at.pc.Returned?
    ensures var h := Projection(log, c);
            var err := Exec(log).value.calls[c].at.pc.err;
            && !Owns(log, c)
            && HandlesCreated(h) == HandlesFreed(h) <= 1
            && (err == Ok <==> Finish(Ok) in h)
  {
    EveryCallIsSequential(log, c);
    var call := Exec(log).value.calls[c];
    ReturnLeavesNothing(call.req, call.hist);
    HandleBalance(call.req, call.hist);
    CommittedIffFinished(call.req, call.hist);
  }
}
