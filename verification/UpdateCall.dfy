/** One call to ota_api_update(), seen as the sequence of things it does to the world outside it.
    The automaton follows src/ota-api.c and src/ota-api-report.c statement by statement; the
    theorems are about whole histories and do not mention its states. */
module UpdateCall {
  import opened Esp
  import opened Report
  import Runs

  /** What the caller passed: a NULL config, or a config whose url may be NULL. */
  datatype Request =
    | NullConfig
    | Request(url: Option<string>, hasCallback: bool, intervalMs: uint32)
  {
    predicate Accepted() {
      Request? && url.Some?
    }
  }

  datatype AppDesc = AppDesc(project: string, version: string)

  datatype Event =
    | Started
    | ImageDesc(desc: AppDesc)
    | Downloaded(progress: Progress)
    | Succeeded
    | Failed(err: Err)
  {
    /** Dispatched after the slot is released, when no verdict can change anything. */
    predicate Terminal() {
      Succeeded? || Failed?
    }
  }

  /** An observable action together with the answer the call got. */
  datatype Label =
    | Claim(granted: bool)
    | Configure(err: Err)
    | Begin(err: Err)
    | Emit(event: Event, forced: bool)
    | Verdict(event: Event, err: Err)
    | GetDesc(err: Err, desc: AppDesc)
    | GetSize(total: int32)
    | Perform(err: Err)
    | CheckAbort(requested: bool)
    | Clock(nowUs: int)
    | LenRead(bytes: int32)
    | Complete(all: bool)
    | AbortHandle
    | Finish(err: Err)
    | Release

  datatype Pc =
    | Claiming
    | Configuring
    | Connecting
    | ReadingDesc
    | Sizing
    | Performing
    | CheckingAbort
    | Throttling
    | Measuring(forced: bool)
    | Verifying
    | Emitting(event: Event, forced: bool)
    | Calling(event: Event, forced: bool)
    | Aborting(err: Err)
    | Committing
    | Releasing(err: Err)
    | Returned(err: Err)

  datatype Local = Local(pc: Pc, total: int32, lastUs: int)

  function Start(req: Request): Local {
    Local(if req.Accepted() then Claiming else Returned(InvalidArg), 0, 0)
  }

  /** The event that announces an outcome. */
  function Announcement(err: Err): Event {
    if err == Ok then Succeeded else Failed(err)
  }

  /** Where an answered event leads. */
  function AfterEvent(event: Event, forced: bool, verdict: Err): Pc {
    match event
    case Succeeded => Returned(Ok)
    case Failed(err) => Returned(err)
    case _ =>
      if verdict != Ok then Aborting(verdict)
      else if event.Started? then ReadingDesc
      else if event.ImageDesc? then Sizing
      else if forced then Committing
      else Performing
  }

  /** ota_api_dispatch_event: without a callback the answer is ESP_OK on the spot. */
  function Dispatch(req: Request, event: Event, forced: bool): Pc {
    if req.Request? && req.hasCallback then Emitting(event, forced) else AfterEvent(event, forced, Ok)
  }

  /** The only way on from a local state, given what the world answered. */
  function Next(req: Request, l: Local, e: Label): Option<Local> {
    match e
    case Claim(granted) =>
      if l.pc != Claiming then None
      else Some(l.(pc := if granted then Configuring else Returned(InvalidState)))
    case Configure(err) =>
      if l.pc != Configuring then None
      else Some(l.(pc := if err == Ok then Connecting else Releasing(err)))
    case Begin(err) =>
      if l.pc != Connecting then None
      else Some(l.(pc := if err == Ok then Dispatch(req, Started, false) else Releasing(err)))
    case GetDesc(err, desc) =>
      if l.pc != ReadingDesc then None
      else Some(l.(pc := if err == Ok then Dispatch(req, ImageDesc(desc), false) else Aborting(err)))
    case GetSize(total) =>
      if l.pc != Sizing then None
      else Some(Local(Performing, total, 0))
    case Perform(err) =>
      if l.pc != Performing then None
      else Some(l.(pc := if err == InProgress then CheckingAbort
                         else if err == Ok then Verifying else Aborting(err)))
    case CheckAbort(requested) =>
      if l.pc != CheckingAbort then None
      else Some(l.(pc := if requested then Aborting(NotFinished)
                         else if req.Request? && req.intervalMs != 0 then Throttling
                         else Measuring(false)))
    case Clock(now) =>
      if l.pc != Throttling then None
      else if req.Request? && now - l.lastUs < req.intervalMs * 1000 then Some(l.(pc := Performing))
      else Some(l.(pc := Measuring(false), lastUs := now))
    case LenRead(bytes) =>
      if !l.pc.Measuring? then None
      else if bytes < 0 then Some(l.(pc := if l.pc.forced then Committing else Performing))
      else Some(l.(pc := Dispatch(req, Downloaded(Snapshot(bytes, l.total)), l.pc.forced)))
    case Complete(all) =>
      if l.pc != Verifying then None
      else Some(l.(pc := if all then Measuring(true) else Aborting(ValidateFailed)))
    case Emit(event, forced) =>
      if l.pc != Emitting(event, forced) then None else Some(l.(pc := Calling(event, forced)))
    case Verdict(event, err) =>
      if !l.pc.Calling? || l.pc.event != event then None
      else Some(l.(pc := AfterEvent(event, l.pc.forced, err)))
    case AbortHandle =>
      if !l.pc.Aborting? then None else Some(l.(pc := Releasing(l.pc.err)))
    case Finish(err) =>
      if l.pc != Committing then None else Some(l.(pc := Releasing(err)))
    case Release =>
      if !l.pc.Releasing? then None else Some(l.(pc := Dispatch(req, Announcement(l.pc.err), false)))
  }

  type History = seq<Label>

  /** The call a request makes. */
  function CallFor(req: Request): (Local, Label) -> Option<Local> {
    (l, e) => Next(req, l, e)
  }

  /** The state a history leads to, or None when no call behaves like that. */
  function Run(req: Request, h: History): Option<Local> {
    Runs.Fold(CallFor(req), Start(req), h)
  }

  function Then(h: History, e: Label): History { h + [e] }

  lemma RunThen(req: Request, h: History, e: Label)
    ensures Run(req, Then(h, e)) == (match Run(req, h) case None => None case Some(l) => Next(req, l, e))
  {
    Runs.Then(CallFor(req), Start(req), h, e);
  }

  /** The step taken at position i of a behaviour. */
  lemma RunStep(req: Request, h: History, i: nat)
    requires Run(req, h).Some? && i < |h|
    ensures Run(req, h[..i]).Some? && Next(req, Run(req, h[..i]).value, h[i]).Some?
    ensures Run(req, h[..i + 1]) == Next(req, Run(req, h[..i]).value, h[i])
  {
    var l := Runs.At(CallFor(req), Start(req), h, i);
  }

  // --- Reading a history without the automaton ---

  /** The events the application saw, in order. */
  function Events(h: History): seq<Event> {
    if h == [] then []
    else Events(h[..|h| - 1]) + if h[|h| - 1].Emit? then [h[|h| - 1].event] else []
  }

  /** The answers esp_https_ota_perform() gave, in order. */
  function Performs(h: History): seq<Err> {
    if h == [] then []
    else Performs(h[..|h| - 1]) + if h[|h| - 1].Perform? then [h[|h| - 1].err] else []
  }

  /** The error an action reports, if it is one that must stop the update. */
  function Failure(e: Label): Option<Err> {
    match e
    case Claim(false) => Some(InvalidState)
    case Configure(err) => if err == Ok then None else Some(err)
    case Begin(err) => if err == Ok then None else Some(err)
    case GetDesc(err, _) => if err == Ok then None else Some(err)
    case Verdict(event, err) => if err == Ok || event.Terminal() then None else Some(err)
    case Perform(err) => if err == Ok || err == InProgress then None else Some(err)
    case CheckAbort(true) => Some(NotFinished)
    case Complete(false) => Some(ValidateFailed)
    case Finish(err) => if err == Ok then None else Some(err)
    case _ => None
  }

  /** Every failure of a history, in order. */
  function Failures(h: History): seq<Err> {
    if h == [] then []
    else Failures(h[..|h| - 1])
         + match Failure(h[|h| - 1]) case None => [] case Some(err) => [err]
  }

  function HandlesCreated(h: History): nat {
    if h == [] then 0
    else HandlesCreated(h[..|h| - 1]) + if h[|h| - 1] == Begin(Ok) then 1 else 0
  }

  function HandlesFreed(h: History): nat {
    if h == [] then 0
    else HandlesFreed(h[..|h| - 1]) + if h[|h| - 1].AbortHandle? || h[|h| - 1].Finish? then 1 else 0
  }

  /** A report made inside the download loop, which the throttle may suppress. */
  predicate UnforcedReport(e: Label) {
    e.Emit? && e.event.Downloaded? && !e.forced
  }

  /** The latest reading of the clock. */
  function LastClock(h: History): int {
    if h == [] then 0
    else if h[|h| - 1].Clock? then h[|h| - 1].nowUs else LastClock(h[..|h| - 1])
  }

  /** When each unforced PROGRESS report was let through. */
  function ReportTimes(h: History): seq<int> {
    if h == [] then []
    else ReportTimes(h[..|h| - 1])
         + if UnforcedReport(h[|h| - 1]) then [LastClock(h[..|h| - 1])] else []
  }

  /** STARTED, IMAGE_DESC, then any number of PROGRESS, cut anywhere. */
  predicate Opening(es: seq<Event>) {
    && (|es| >= 1 ==> es[0] == Started)
    && (|es| >= 2 ==> es[1].ImageDesc?)
    && forall i :: 2 <= i < |es| ==> es[i].Downloaded?
  }

  /** Nothing but chunks, then the end of the transfer. */
  predicate CleanPerforms(ps: seq<Err>) {
    && |ps| > 0 && ps[|ps| - 1] == Ok
    && forall i :: 0 <= i < |ps| - 1 ==> ps[i] == InProgress
  }

  /** The update slot is held between a granted claim and the release. */
  function Holding(h: History): bool {
    h != [] && !h[|h| - 1].Release? && (h[|h| - 1] == Claim(true) || Holding(h[..|h| - 1]))
  }

  predicate HoldsSlot(pc: Pc) {
    match pc
    case Claiming | Returned(_) => false
    case Emitting(event, _) => !event.Terminal()
    case Calling(event, _) => !event.Terminal()
    case _ => true
  }

  // --- Slot and handle ---

  predicate HoldsHandle(pc: Pc) {
    HoldsSlot(pc) && !pc.Configuring? && !pc.Connecting? && !pc.Releasing?
  }

  predicate BeforeConnection(pc: Pc) {
    pc.Claiming? || pc.Configuring? || pc.Connecting?
  }

  lemma SlotStep(req: Request, l: Local, e: Label)
    requires Next(req, l, e).Some?
    ensures HoldsSlot(Next(req, l, e).value.pc) <==> !e.Release? && (e == Claim(true) || HoldsSlot(l.pc))
  {
  }

  lemma {:induction false} SlotDiscipline(req: Request, h: History)
    requires Run(req, h).Some?
    ensures Holding(h) <==> HoldsSlot(Run(req, h).value.pc)
  {
    if h != [] {
      SlotDiscipline(req, h[..|h| - 1]);
      SlotStep(req, Run(req, h[..|h| - 1]).value, h[|h| - 1]);
    }
  }

  /** What a longer history contains. */
  lemma LastOrEarlier(h: History, e: Label)
    requires h != []
    ensures e in h <==> e in h[..|h| - 1] || e == h[|h| - 1]
  {
    assert h == h[..|h| - 1] + [h[|h| - 1]];
  }

  lemma {:induction false} ClaimComesFirst(req: Request, h: History)
    requires Run(req, h).Some? && h != []
    ensures Run(req, h).value.pc != Claiming && h[0].Claim? && req.Accepted()
    ensures forall i :: 1 <= i < |h| ==> !h[i].Claim?
    ensures h[0] == Claim(false) ==> |h| == 1 && Run(req, h).value.pc == Returned(InvalidState)
  {
    var p := h[..|h| - 1];
    NeverClaimingAgain(req, Run(req, p).value, h[|h| - 1]);
    if p != [] {
      ClaimComesFirst(req, p);
    } else {
      assert h == [h[0]];
    }
  }

  lemma NeverClaimingAgain(req: Request, l: Local, e: Label)
    requires Next(req, l, e).Some?
    ensures Next(req, l, e).value.pc != Claiming
    ensures e.Claim? <==> l.pc == Claiming
    ensures e == Claim(false) ==> Next(req, l, e).value.pc == Returned(InvalidState)
    ensures !l.pc.Returned?
  {
  }

  /** Without a configuration, or without a URL in it, a call does nothing and returns
      ESP_ERR_INVALID_ARG; any other call is let through to the claim. */
  lemma BadArguments(req: Request, h: History)
    requires Run(req, h).Some?
    ensures req.NullConfig? || req.url.None? ==> h == [] && Run(req, h).value.pc == Returned(InvalidArg)
    ensures req.Request? && req.url.Some? ==>
              Run(req, [Claim(true)]).Some? && Run(req, [Claim(false)]).Some? && (h == [] ==> !Run(req, h).value.pc.Returned?)
  {
    if h != [] {
      ClaimComesFirst(req, h);
    }
    RunThen(req, [], Claim(true));
    RunThen(req, [], Claim(false));
    assert Then([], Claim(true)) == [Claim(true)] && Then([], Claim(false)) == [Claim(false)];
  }

  /** At most one handle is ever created, and it is released exactly once: at every point the
      handles created and not yet released are those of a call still in its transfer. */
  lemma {:induction false} HandleBalance(req: Request, h: History)
    requires Run(req, h).Some?
    ensures HandlesAt(Run(req, h).value.pc, HandlesCreated(h), HandlesFreed(h))
    ensures HandlesCreated(h) > HandlesFreed(h) ==> Holding(h)
  {
    SlotDiscipline(req, h);
    if h != [] {
      var p := h[..|h| - 1];
      HandleBalance(req, p);
      HandleStep(req, Run(req, p).value, h[|h| - 1], HandlesCreated(p), HandlesFreed(p));
    }
  }

  predicate HandlesAt(pc: Pc, created: nat, freed: nat) {
    && freed <= created <= 1
    && (created - freed == 1 <==> HoldsHandle(pc))
    && (BeforeConnection(pc) ==> created == 0)
  }

  lemma HandleStep(req: Request, l: Local, e: Label, created: nat, freed: nat)
    requires Next(req, l, e).Some? && HandlesAt(l.pc, created, freed)
    ensures HandlesAt(Next(req, l, e).value.pc, created + (if e == Begin(Ok) then 1 else 0),
                      freed + if e.AbortHandle? || e.Finish? then 1 else 0)
  {
  }

  /** A call that has returned leaves nothing behind. */
  lemma ReturnLeavesNothing(req: Request, h: History)
    requires Run(req, h).Some? && Run(req, h).value.pc.Returned?
    ensures !Holding(h) && HandlesCreated(h) == HandlesFreed(h)
  {
    SlotDiscipline(req, h);
    HandleBalance(req, h);
  }

  // --- Events ---

  predicate EventsAt(pc: Pc, hasCallback: bool, begun: bool, es: seq<Event>) {
    if !hasCallback then es == [] && !pc.Emitting? && !pc.Calling?
    else match pc
      case Claiming | Configuring | Connecting => es == [] && !begun
      case ReadingDesc => es == [Started] && begun
      case Sizing | Performing | CheckingAbort | Throttling | Measuring(_) | Verifying | Committing =>
        |es| >= 2 && Opening(es) && begun
      case Aborting(err) => |es| >= 1 && Opening(es) && begun && err != Ok
      case Releasing(err) => Opening(es) && (es == [] <==> !begun) && (err == Ok ==> |es| >= 2)
      case Emitting(event, _) =>
        && Opening(es)
        && (event.Started? ==> es == [] && begun)
        && (event.ImageDesc? ==> es == [Started] && begun)
        && (event.Downloaded? ==> |es| >= 2 && begun)
        && (event.Succeeded? ==> |es| >= 2)
        && (event.Failed? ==> event.err != Ok)
        && (es == [] <==> !begun || event.Started?)
      case Calling(event, _) =>
        && |es| >= 1 && es[|es| - 1] == event && Opening(es[..|es| - 1])
        && (event.Started? ==> es == [Started] && begun)
        && (event.ImageDesc? ==> |es| == 2 && es[0] == Started && begun)
        && (event.Downloaded? ==> |es| >= 3 && begun)
        && (event.Succeeded? ==> |es| >= 3)
        && (event.Failed? ==> event.err != Ok)
        && (|es| == 1 <==> !begun || event.Started?)
      case Returned(err) =>
        || es == []
        || (&& es[|es| - 1] == Announcement(err) && Opening(es[..|es| - 1])
            && (err == Ok ==> |es| >= 3)
            && (|es| == 1 <==> !begun))
  }

  lemma OpeningThen(es: seq<Event>, event: Event)
    requires Opening(es)
    requires if es == [] then event == Started else if |es| == 1 then event.ImageDesc? else event.Downloaded?
    ensures Opening(es + [event])
  {
  }

  lemma EmitStep(req: Request, l: Local, e: Label, begun: bool, es: seq<Event>)
    requires req.Accepted() && e.Emit? && Next(req, l, e).Some?
    requires EventsAt(l.pc, req.hasCallback, begun, es)
    ensures EventsAt(Next(req, l, e).value.pc, req.hasCallback, begun, es + [e.event])
  {
    assert (es + [e.event])[..|es|] == es;
  }

  lemma VerdictStep(req: Request, l: Local, e: Label, begun: bool, es: seq<Event>)
    requires req.Accepted() && e.Verdict? && Next(req, l, e).Some?
    requires EventsAt(l.pc, req.hasCallback, begun, es)
    ensures EventsAt(Next(req, l, e).value.pc, req.hasCallback, begun, es)
  {
    assert es == es[..|es| - 1] + [e.event];
    if !e.event.Terminal() {
      OpeningThen(es[..|es| - 1], e.event);
    }
  }

  lemma QuietStep(req: Request, l: Local, e: Label, begun: bool, es: seq<Event>)
    requires req.Accepted() && !e.Emit? && !e.Verdict? && Next(req, l, e).Some?
    requires EventsAt(l.pc, req.hasCallback, begun, es)
    ensures EventsAt(Next(req, l, e).value.pc, req.hasCallback, begun || e == Begin(Ok), es)
  {
  }

  lemma {:induction false} EventsFollowPc(req: Request, h: History)
    requires req.Accepted() && Run(req, h).Some?
    ensures EventsAt(Run(req, h).value.pc, req.hasCallback, Begin(Ok) in h, Events(h))
  {
    if h != [] {
      var p, e := h[..|h| - 1], h[|h| - 1];
      EventsFollowPc(req, p);
      LastOrEarlier(h, Begin(Ok));
      var l, begun := Run(req, p).value, Begin(Ok) in p;
      if e.Emit? {
        EmitStep(req, l, e, begun, Events(p));
      } else if e.Verdict? {
        VerdictStep(req, l, e, begun, Events(p));
      } else {
        QuietStep(req, l, e, begun, Events(p));
      }
      assert Events(p) + [] == Events(p);
    }
  }

  /** A call that never got the slot says nothing; any other says something when it ends. */
  lemma {:induction false} SilentIffRefused(req: Request, h: History)
    requires Run(req, h).Some? && Run(req, h).value.pc.Returned?
    requires req.Accepted() && req.hasCallback
    ensures Events(h) == [] <==> h == [Claim(false)]
  {
    ClaimComesFirst(req, h);
    if h[0] == Claim(true) {
      SpeaksBeforeReturning(req, h);
    } else {
      assert h == [Claim(false)];
      assert Events(h) == Events([]);
    }
  }

  lemma {:induction false} SpeaksBeforeReturning(req: Request, h: History)
    requires Run(req, h).Some? && h != [] && h[0] == Claim(true)
    requires req.Accepted() && req.hasCallback
    ensures Run(req, h).value.pc.Returned? || (Run(req, h).value.pc.Calling? && Run(req, h).value.pc.event.Terminal())
            ==> Events(h) != []
  {
    var p := h[..|h| - 1];
    if p != [] {
      SpeaksBeforeReturning(req, p);
      ClaimComesFirst(req, h);
    } else {
      assert Run(req, p) == Some(Start(req));
    }
  }

  /** The event language. A call answered by the callback reports nothing at all (refused
      before the slot), FAILED alone (nothing was opened), or an opening of the transfer closed
      by exactly one announcement of the value it returns. */
  lemma EventLanguage(req: Request, h: History)
    requires Run(req, h).Some? && Run(req, h).value.pc.Returned? && req.Accepted()
    ensures var err := Run(req, h).value.pc.err;
            var es := Events(h);
            && (!req.hasCallback ==> es == [])
            && (req.hasCallback ==>
                  && (es == [] <==> h == [Claim(false)])
                  && (es != [] ==>
                        && Opening(es[..|es| - 1])
                        && es[|es| - 1] == Announcement(err)
                        && (err == Ok ==> |es| >= 3)
                        && (|es| == 1 <==> Begin(Ok) !in h)))
  {
    EventsFollowPc(req, h);
    if req.hasCallback {
      SilentIffRefused(req, h);
    }
  }

  /** While the call holds the slot, what it has said so far opens a transfer. */
  lemma OpeningWhileHolding(req: Request, h: History)
    requires Run(req, h).Some? && Holding(h)
    ensures Opening(Events(h))
  {
    SlotDiscipline(req, h);
    ClaimComesFirst(req, h);
    EventsFollowPc(req, h);
  }

  lemma {:induction false} ReleasedOrNot(req: Request, h: History)
    requires Run(req, h).Some?
    ensures Holding(h) ==> Release !in h
    ensures h != [] && h[0] == Claim(true) && !Holding(h) ==> Release in h
  {
    if h != [] {
      var p, e := h[..|h| - 1], h[|h| - 1];
      ReleasedOrNot(req, p);
      SlotDiscipline(req, p);
      LastOrEarlier(h, Release);
      ClaimComesFirst(req, h);
      SlotStep(req, Run(req, p).value, e);
    }
  }

  /** Every event of the transfer is dispatched while the slot is held; the announcement comes
      after the release, when another update may already have started. */
  lemma AnnouncedAfterRelease(req: Request, h: History, i: nat)
    requires Run(req, h).Some? && i < |h| && h[i].Emit?
    ensures h[i].event.Terminal() <==> Release in h[..i]
    ensures h[i].event.Terminal() <==> !Holding(h[..i])
  {
    RunStep(req, h, i);
    var p := h[..i];
    SlotDiscipline(req, p);
    ClaimComesFirst(req, p);
    ReleasedOrNot(req, p);
    RefusedSaysNothing(req, p, h[i]);
  }

  lemma RefusedSaysNothing(req: Request, p: History, e: Label)
    requires Run(req, p).Some? && Next(req, Run(req, p).value, e).Some? && e.Emit?
    ensures p != [] && p[0] == Claim(true)
  {
    ClaimComesFirst(req, p);
  }

  predicate KnowsSize(pc: Pc) {
    match pc
    case Performing | CheckingAbort | Throttling | Measuring(_) | Verifying => true
    case _ => false
  }

  lemma SizeStep(req: Request, l: Local, e: Label)
    requires Next(req, l, e).Some? && KnowsSize(Next(req, l, e).value.pc)
    ensures e == GetSize(Next(req, l, e).value.total)
            || (Next(req, l, e).value.total == l.total
                && (KnowsSize(l.pc) || (l.pc.Calling? && l.pc.event.Downloaded?)))
  {
  }

  lemma {:induction false} SizeWasAsked(req: Request, h: History, l: Local)
    requires Run(req, h) == Some(l)
    ensures KnowsSize(l.pc) || ((l.pc.Emitting? || l.pc.Calling?) && l.pc.event.Downloaded?) ==> GetSize(l.total) in h
  {
    if h != [] {
      var p, e := h[..|h| - 1], h[|h| - 1];
      SizeWasAsked(req, p, Run(req, p).value);
      LastOrEarlier(h, GetSize(l.total));
      if KnowsSize(l.pc) {
        SizeStep(req, Run(req, p).value, e);
      }
    }
  }

  /** What a PROGRESS event carries: the length just read, against the image size the server
      announced at the start. */
  lemma ProgressPayload(req: Request, h: History, i: nat)
    requires Run(req, h).Some? && i < |h| && h[i].Emit? && h[i].event.Downloaded?
    ensures i >= 1 && h[i - 1].LenRead? && h[i - 1].bytes >= 0
    ensures exists total: int32 :: GetSize(total) in h[..i] && h[i].event.progress == Snapshot(h[i - 1].bytes, total)
  {
    RunStep(req, h, i);
    var p := h[..i];
    var l := Run(req, p).value;
    SizeWasAsked(req, p, l);
    ProgressComesFrom(req, p, l);
    assert GetSize(l.total) in p;
  }

  lemma ProgressComesFrom(req: Request, p: History, l: Local)
    requires Run(req, p) == Some(l) && l.pc.Emitting? && l.pc.event.Downloaded?
    ensures p != [] && p[|p| - 1].LenRead? && p[|p| - 1].bytes >= 0
    ensures l.pc.event.progress == Snapshot(p[|p| - 1].bytes, l.total)
  {
  }

  // --- The two ends of a history ---

  /** What one dispatched event adds to a call's history. */
  function Told(req: Request, event: Event, forced: bool, answer: Err): History {
    if req.Request? && req.hasCallback then [Emit(event, forced), Verdict(event, answer)] else []
  }

  /** Everything a call does before its first chunk, when nothing fails. */
  function Preamble(req: Request, desc: AppDesc, total: int32): History {
    [Claim(true), Configure(Ok), Begin(Ok)] + Told(req, Started, false, Ok)
    + [GetDesc(Ok, desc)] + Told(req, ImageDesc(desc), false, Ok) + [GetSize(total)]
  }

  lemma CalledAfterEmit(req: Request, h: History)
    requires Run(req, h).Some? && Run(req, h).value.pc.Calling?
    ensures var pc := Run(req, h).value.pc;
            && h != [] && h[|h| - 1] == Emit(pc.event, pc.forced)
            && Run(req, h[..|h| - 1]).Some?
            && Run(req, h[..|h| - 1]).value.pc == Emitting(pc.event, pc.forced)
  {
  }

  lemma EmittedAfter(req: Request, h: History)
    requires Run(req, h).Some? && Run(req, h).value.pc.Emitting?
    ensures req.Request? && req.hasCallback && h != [] && Run(req, h[..|h| - 1]).Some?
    ensures var pc, before, e := Run(req, h).value.pc, Run(req, h[..|h| - 1]).value.pc, h[|h| - 1];
            match pc.event
            case Started => e == Begin(Ok) && before == Connecting && !pc.forced
            case ImageDesc(desc) => e == GetDesc(Ok, desc) && before == ReadingDesc && !pc.forced
            case Downloaded(_) => e.LenRead? && before == Measuring(pc.forced)
            case Succeeded => e == Release && before == Releasing(Ok) && !pc.forced
            case Failed(err) => e == Release && before == Releasing(err) && err != Ok && !pc.forced
  {
  }

  /** The descriptor the application is asked about is the one that was just read. */
  lemma DescPayload(req: Request, h: History, i: nat)
    requires Run(req, h).Some? && i < |h| && h[i].Emit? && h[i].event.ImageDesc?
    ensures i >= 1 && h[i - 1] == GetDesc(Ok, h[i].event.desc)
  {
    RunStep(req, h, i);
    EmittedAfter(req, h[..i]);
  }

  /** An answer is an answer to the event just dispatched. */
  lemma VerdictAnswers(req: Request, h: History, i: nat)
    requires Run(req, h).Some? && i < |h| && h[i].Verdict?
    ensures i >= 1 && h[i - 1].Emit? && h[i - 1].event == h[i].event
  {
    RunStep(req, h, i);
    CalledAfterEmit(req, h[..i]);
  }

  lemma HistoryAtConnecting(req: Request, h: History)
    requires Run(req, h).Some?
    ensures Run(req, h).value.pc == Configuring ==> h == [Claim(true)]
    ensures Run(req, h).value.pc == Connecting ==> h == [Claim(true), Configure(Ok)]
  {
    if h != [] && (Run(req, h).value.pc == Configuring || Run(req, h).value.pc == Connecting) {
      var p := h[..|h| - 1];
      if Run(req, h).value.pc == Connecting {
        HistoryAtConnecting(req, p);
      } else {
        NotClaimedYet(req, p);
      }
      assert h == p + [h[|h| - 1]];
    }
  }

  lemma NotClaimedYet(req: Request, h: History)
    requires Run(req, h).Some? && Run(req, h).value.pc == Claiming
    ensures h == []
  {
    if h != [] {
      ClaimComesFirst(req, h);
    }
  }

  /** How a state right after an agreed event was reached. */
  lemma AfterTold(req: Request, h: History, event: Event) returns (p: History)
    requires Run(req, h).Some? && h != []
    requires match Run(req, h).value.pc
             case ReadingDesc => event == Started
             case Sizing => event.ImageDesc? && (h[|h| - 1].Verdict? ==> h[|h| - 1].event == event)
                            && (h[|h| - 1].GetDesc? ==> h[|h| - 1].desc == event.desc)
             case _ => false
    ensures h == p + Told(req, event, false, Ok) && p != [] && Run(req, p).Some?
    ensures Run(req, p).value.pc == Dispatch(req, event, false)
    ensures p[|p| - 1] == if event.Started? then Begin(Ok) else GetDesc(Ok, event.desc)
    ensures Run(req, p[..|p| - 1]).Some?
    ensures Run(req, p[..|p| - 1]).value.pc == if event.Started? then Connecting else ReadingDesc
  {
    var q := h[..|h| - 1];
    if h[|h| - 1].Verdict? {
      CalledAfterEmit(req, q);
      p := q[..|q| - 1];
      EmittedAfter(req, p);
      assert h == p + [q[|q| - 1], h[|h| - 1]];
    } else {
      p := h;
      assert h == p + [];
    }
  }

  lemma HistoryAtReading(req: Request, h: History)
    requires Run(req, h).Some? && Run(req, h).value.pc == ReadingDesc
    ensures h == [Claim(true), Configure(Ok), Begin(Ok)] + Told(req, Started, false, Ok)
  {
    assert h != [];
    var p := AfterTold(req, h, Started);
    HistoryAtConnecting(req, p[..|p| - 1]);
    assert p == p[..|p| - 1] + [Begin(Ok)] == [Claim(true), Configure(Ok), Begin(Ok)];
  }

  lemma HistoryAtSizing(req: Request, h: History) returns (desc: AppDesc)
    requires Run(req, h).Some? && Run(req, h).value.pc == Sizing
    ensures h == [Claim(true), Configure(Ok), Begin(Ok)] + Told(req, Started, false, Ok)
                 + [GetDesc(Ok, desc)] + Told(req, ImageDesc(desc), false, Ok)
  {
    desc := OfferedDesc(req, h);
    var p := AfterTold(req, h, ImageDesc(desc));
    HistoryAtReading(req, p[..|p| - 1]);
    assert p == p[..|p| - 1] + [GetDesc(Ok, desc)];
  }

  lemma OfferedDesc(req: Request, h: History) returns (desc: AppDesc)
    requires Run(req, h).Some? && Run(req, h).value.pc == Sizing
    ensures h != [] && (h[|h| - 1] == Verdict(ImageDesc(desc), Ok) || h[|h| - 1] == GetDesc(Ok, desc))
  {
    var e := h[|h| - 1];
    desc := if e.Verdict? then e.event.desc else e.desc;
  }

  /** The sizing of a transfer under way. */
  lemma {:induction false} SizedAt(req: Request, h: History, l: Local) returns (j: nat)
    requires Run(req, h) == Some(l)
    requires KnowsSize(l.pc) || ((l.pc.Emitting? || l.pc.Calling?) && l.pc.event.Downloaded?)
    ensures j < |h| && h[j].GetSize? && Run(req, h[..j]).Some? && Run(req, h[..j]).value.pc == Sizing
    decreases |h|
  {
    assert h != [];
    var p := h[..|h| - 1];
    if h[|h| - 1].GetSize? {
      j := |h| - 1;
    } else {
      j := SizedAt(req, p, Run(req, p).value);
      assert h[..j] == p[..j];
    }
  }

  /** Every chunk is preceded by exactly this: the slot, the configuration, the connection, STARTED,
      the descriptor, IMAGE_DESC with that descriptor, and the size, each answered ESP_OK. */
  lemma TransferPreamble(req: Request, h: History, i: nat) returns (desc: AppDesc, total: int32)
    requires Run(req, h).Some? && i < |h| && h[i].Perform?
    ensures Preamble(req, desc, total) <= h[..i]
  {
    RunStep(req, h, i);
    var j := SizedAt(req, h[..i], Run(req, h[..i]).value);
    assert h[..i][..j] == h[..j];
    desc := HistoryAtSizing(req, h[..j]);
    total := h[j].total;
    assert h[..i] == h[..j] + [h[j]] + h[j + 1..i];
  }

  /** How the slot of a call came to be released with this error. */
  predicate Settles(h: History, err: Err) {
    && h != []
    && match h[|h| - 1]
       case Finish(answer) => answer == err
       case Configure(answer) => answer == err != Ok
       case Begin(answer) => answer == err != Ok
       case AbortHandle => |h| >= 2 && Failure(h[|h| - 2]) == Some(err)
       case _ => false
  }

  /** Every call that got the slot ends in exactly one way: its finish answers, or its first
      failure is followed at once by the handle's abort if one is open; then the release; then,
      when somebody listens, the announcement of that very outcome, whatever is answered to it. */
  lemma EndingExact(req: Request, h: History) returns (before: History, ignored: Err)
    requires Run(req, h).Some? && Run(req, h).value.pc.Returned? && h != [] && h[0] == Claim(true)
    ensures var err := Run(req, h).value.pc.err;
            && h == before + [Release] + Told(req, Announcement(err), false, ignored)
            && Settles(before, err)
  {
    ClaimComesFirst(req, h);
    var last, q, err := h[|h| - 1], h[..|h| - 1], Run(req, h).value.pc.err;
    var released := h;
    ignored := Ok;
    if last.Verdict? {
      ignored := last.err;
      CalledAfterEmit(req, q);
      released := q[..|q| - 1];
      EmittedAfter(req, released);
      assert h == released + [q[|q| - 1], last];
    } else {
      assert last == Release by { ReturnsHow(req, Run(req, q).value, last); }
      assert h == released + [];
    }
    before := released[..|released| - 1];
    assert released == before + [Release];
    HowSettled(req, before);
  }

  lemma ReturnsHow(req: Request, l: Local, e: Label)
    requires Next(req, l, e).Some? && Next(req, l, e).value.pc.Returned? && !e.Verdict?
    ensures e == Release || e == Claim(false)
  {
  }

  lemma HowSettled(req: Request, h: History)
    requires Run(req, h).Some? && Run(req, h).value.pc.Releasing?
    ensures Settles(h, Run(req, h).value.pc.err)
  {
    assert h != [];
    var p := h[..|h| - 1];
    if h[|h| - 1] == AbortHandle {
      WhyAborting(req, p);
    }
  }

  lemma WhyAborting(req: Request, h: History)
    requires Run(req, h).Some? && Run(req, h).value.pc.Aborting?
    ensures h != [] && Failure(h[|h| - 1]) == Some(Run(req, h).value.pc.err)
  {
  }

  // --- Outcome ---

  predicate FailuresAt(pc: Pc, fs: seq<Err>) {
    match pc
    case Aborting(err) => fs == [err] && err != Ok
    case Releasing(err) => fs == (if err == Ok then [] else [err])
    case Returned(err) => fs == (if err == Ok then [] else [err])
    case Emitting(event, _) => fs == if event.Failed? then [event.err] else []
    case Calling(event, _) => fs == if event.Failed? then [event.err] else []
    case _ => fs == []
  }

  predicate FailedIsNotOk(pc: Pc) {
    (pc.Emitting? || pc.Calling?) && pc.event.Failed? ==> pc.event.err != Ok
  }

  lemma FailureStep(req: Request, l: Local, e: Label, fs: seq<Err>)
    requires Next(req, l, e).Some? && FailuresAt(l.pc, fs) && FailedIsNotOk(l.pc)
    ensures FailuresAt(Next(req, l, e).value.pc, fs + match Failure(e) case None => [] case Some(err) => [err])
    ensures FailedIsNotOk(Next(req, l, e).value.pc)
  {
    assert fs + [] == fs;
  }

  lemma {:induction false} FailuresFollowPc(req: Request, h: History, l: Local)
    requires req.Accepted() && Run(req, h) == Some(l)
    ensures FailuresAt(l.pc, Failures(h)) && FailedIsNotOk(l.pc)
  {
    if h != [] {
      var p := h[..|h| - 1];
      FailuresFollowPc(req, p, Run(req, p).value);
      FailureStep(req, Run(req, p).value, h[|h| - 1], Failures(p));
    }
  }

  /** The first failure is the last: it ends the update and is what the caller gets back. No
      failure at all is what ESP_OK means. */
  lemma FirstFailureDecides(req: Request, h: History)
    requires Run(req, h).Some? && Run(req, h).value.pc.Returned? && req.Accepted()
    ensures Failures(h) == (if Run(req, h).value.pc.err == Ok then [] else [Run(req, h).value.pc.err])
  {
    FailuresFollowPc(req, h, Run(req, h).value);
  }

  lemma {:induction false} FailureIndex(h: History, i: nat)
    requires i < |h| && Failure(h[i]).Some?
    ensures Failure(h[i]).value in Failures(h) && |Failures(h)| >= 1
    decreases |h|
  {
    if i < |h| - 1 {
      FailureIndex(h[..|h| - 1], i);
    }
  }

  lemma {:induction false} NoFailureMeansClean(h: History, i: nat)
    requires Failures(h) == [] && i < |h|
    ensures Failure(h[i]).None?
  {
    if Failure(h[i]).Some? {
      FailureIndex(h, i);
    }
  }

  /** The first non-OK verdict given during a transfer is the value returned, and, being the
      only failure, the payload of the FAILED event; verdicts on the announcement do nothing. */
  lemma VerdictIsFinal(req: Request, h: History, i: nat)
    requires Run(req, h).Some? && Run(req, h).value.pc.Returned?
    requires i < |h| && h[i].Verdict? && !h[i].event.Terminal() && h[i].err != Ok
    ensures Run(req, h).value.pc.err == h[i].err
    ensures Events(h) != [] && Events(h)[|Events(h)| - 1] == Failed(h[i].err)
    ensures forall j :: i < j < |h| ==> UnwindingStep(h[j], h[i].err)
  {
    ClaimComesFirst(req, h);
    FirstFailureDecides(req, h);
    FailureIndex(h, i);
    CallbackExists(req, h, i);
    EventLanguage(req, h);
    forall j | i < j < |h| ensures UnwindingStep(h[j], h[i].err) {
      OnlyUnwindingAfter(req, h, i, j);
    }
  }

  lemma OnlyUnwindingAfter(req: Request, h: History, i: nat, j: nat)
    requires Run(req, h).Some? && i < j < |h|
    requires h[i].Verdict? && !h[i].event.Terminal() && h[i].err != Ok
    ensures UnwindingStep(h[j], h[i].err)
  {
    RunStep(req, h, j);
    VerdictThenUnwind(req, h[..j], i, Run(req, h[..j]).value);
    UnwindStep(req, Run(req, h[..j]).value, h[j], h[i].err);
  }

  lemma {:induction false} CallbackExists(req: Request, h: History, i: nat)
    requires Run(req, h).Some? && i < |h| && h[i].Verdict?
    ensures req.Request? && req.hasCallback
  {
    RunStep(req, h, i);
    ClaimComesFirst(req, h);
    EventsFollowPc(req, h[..i]);
  }

  predicate Unwinding(pc: Pc, err: Err) {
    || pc == Aborting(err) || pc == Releasing(err) || pc == Returned(err)
    || pc == Emitting(Failed(err), false) || pc == Calling(Failed(err), false)
  }

  lemma {:induction false} VerdictThenUnwind(req: Request, h: History, i: nat, l: Local)
    requires Run(req, h) == Some(l)
    requires i < |h| && h[i].Verdict? && !h[i].event.Terminal() && h[i].err != Ok
    ensures Unwinding(l.pc, h[i].err)
    decreases |h|
  {
    var p := h[..|h| - 1];
    if i < |h| - 1 {
      VerdictThenUnwind(req, p, i, Run(req, p).value);
      UnwindStep(req, Run(req, p).value, h[|h| - 1], h[i].err);
    } else {
      RefusalUnwinds(req, Run(req, p).value, h[i]);
    }
  }

  /** All that is left to do once an error has been decided. */
  predicate UnwindingStep(e: Label, err: Err) {
    e.AbortHandle? || e.Release? || e == Emit(Failed(err), false) || (e.Verdict? && e.event == Failed(err))
  }

  lemma RefusalUnwinds(req: Request, l: Local, e: Label)
    requires Next(req, l, e).Some? && e.Verdict? && !e.event.Terminal() && e.err != Ok
    ensures Next(req, l, e).value.pc == Aborting(e.err)
  {
  }

  lemma UnwindStep(req: Request, l: Local, e: Label, err: Err)
    requires Next(req, l, e).Some? && Unwinding(l.pc, err) && err != Ok
    ensures Unwinding(Next(req, l, e).value.pc, err)
    ensures UnwindingStep(e, err)
  {
  }

  // --- Commit ---

  predicate PerformsAt(pc: Pc, ps: seq<Err>, complete: bool) {
    match pc
    case Verifying => CleanPerforms(ps)
    case Measuring(true) => CleanPerforms(ps) && complete
    case Committing => CleanPerforms(ps) && complete
    case Aborting(_) => true
    case Releasing(_) => true
    case Returned(_) => true
    case Emitting(event, forced) =>
      if forced then event.Downloaded? && CleanPerforms(ps) && complete
      else event.Terminal() || forall i :: 0 <= i < |ps| ==> ps[i] == InProgress
    case Calling(event, forced) =>
      if forced then event.Downloaded? && CleanPerforms(ps) && complete
      else event.Terminal() || forall i :: 0 <= i < |ps| ==> ps[i] == InProgress
    case _ => forall i :: 0 <= i < |ps| ==> ps[i] == InProgress
  }

  lemma PerformsStep(req: Request, l: Local, e: Label, ps: seq<Err>, complete: bool)
    requires Next(req, l, e).Some? && PerformsAt(l.pc, ps, complete)
    ensures PerformsAt(Next(req, l, e).value.pc, if e.Perform? then ps + [e.err] else ps, complete || e == Complete(true))
  {
  }

  lemma {:induction false} PerformsFollowPc(req: Request, h: History)
    requires Run(req, h).Some?
    ensures PerformsAt(Run(req, h).value.pc, Performs(h), Complete(true) in h)
  {
    if h != [] {
      var p, e := h[..|h| - 1], h[|h| - 1];
      PerformsFollowPc(req, p);
      LastOrEarlier(h, Complete(true));
      PerformsStep(req, Run(req, p).value, e, Performs(p), Complete(true) in p);
      assert Performs(p) + [] == Performs(p);
    }
  }

  /** What must have happened before esp_https_ota_finish() may run. */
  predicate ReadyToCommit(h: History) {
    && CleanPerforms(Performs(h))
    && Complete(true) in h
    && HandlesCreated(h) == 1 && HandlesFreed(h) == 0
    && CheckAbort(true) !in h
    && (forall i :: 0 <= i < |h| && h[i].Verdict? ==> h[i].err == Ok && !h[i].event.Terminal())
  }

  lemma {:induction false} TerminalMeansReleased(req: Request, h: History, i: nat)
    requires Run(req, h).Some? && i < |h| && h[i].Verdict? && h[i].event.Terminal()
    ensures Run(req, h).value.pc.Returned? && i == |h| - 1
    decreases |h|
  {
    if i < |h| - 1 {
      TerminalMeansReleased(req, h[..|h| - 1], i);
    }
  }

  /** esp_https_ota_finish() is reached only by a transfer nobody objected to, whose data all
      arrived, while the handle is still held. */
  lemma CommitSafety(req: Request, h: History, i: nat)
    requires Run(req, h).Some? && i < |h| && h[i].Finish?
    ensures ReadyToCommit(h[..i]) && Holding(h[..i])
  {
    RunStep(req, h, i);
    ReadyAtCommitting(req, h[..i]);
  }

  lemma ReadyAtCommitting(req: Request, p: History)
    requires Run(req, p).Some? && Run(req, p).value.pc == Committing
    ensures ReadyToCommit(p) && Holding(p)
  {
    ClaimComesFirst(req, p);
    PerformsFollowPc(req, p);
    HandleBalance(req, p);
    FailuresFollowPc(req, p, Run(req, p).value);
    SlotDiscipline(req, p);
    forall j | 0 <= j < |p| ensures Failure(p[j]).None? {
      NoFailureMeansClean(p, j);
    }
    VerdictsAgreed(req, p);
  }

  lemma VerdictsAgreed(req: Request, p: History)
    requires Run(req, p).Some? && !Run(req, p).value.pc.Returned?
    requires forall j :: 0 <= j < |p| ==> Failure(p[j]).None?
    ensures forall j :: 0 <= j < |p| && p[j].Verdict? ==> p[j].err == Ok && !p[j].event.Terminal()
  {
    forall j | 0 <= j < |p| && p[j].Verdict? ensures p[j].err == Ok && !p[j].event.Terminal() {
      if p[j].event.Terminal() {
        TerminalMeansReleased(req, p, j);
      }
    }
  }

  predicate Committed(pc: Pc) {
    || pc == Releasing(Ok) || pc == Returned(Ok)
    || ((pc.Emitting? || pc.Calling?) && pc.event.Succeeded?)
  }

  lemma CommittedStep(req: Request, l: Local, e: Label, fs: seq<Err>)
    requires Next(req, l, e).Some? && FailuresAt(l.pc, fs)
    requires FailedIsNotOk(l.pc)
    ensures Committed(Next(req, l, e).value.pc) <==> Committed(l.pc) || e == Finish(Ok)
  {
  }

  /** A successful commit is what makes the outcome a success, and nothing else does. */
  lemma {:induction false} CommittedIffFinished(req: Request, h: History)
    requires Run(req, h).Some?
    ensures Finish(Ok) in h <==> Committed(Run(req, h).value.pc)
  {
    if h != [] {
      var p := h[..|h| - 1];
      CommittedIffFinished(req, p);
      LastOrEarlier(h, Finish(Ok));
      ClaimComesFirst(req, h);
      FailuresFollowPc(req, p, Run(req, p).value);
      CommittedStep(req, Run(req, p).value, h[|h| - 1], Failures(p));
    }
  }

  // --- Throttle ---

  predicate Spaced(ts: seq<int>, gap: int) {
    forall i, j :: 0 <= i < j < |ts| ==> ts[j] - ts[i] >= (j - i) * gap
  }

  predicate TimesAt(l: Local, ts: seq<int>, gap: int, last: int) {
    && Spaced(ts, gap)
    && (|ts| > 0 ==> ts[|ts| - 1] <= l.lastUs)
    && match l.pc
       case Claiming | Configuring | Connecting | ReadingDesc | Sizing => ts == []
       case Emitting(event, forced) =>
         && (event.Started? || event.ImageDesc? ==> ts == [])
         && (event.Downloaded? && !forced ==>
               l.lastUs == last && (|ts| > 0 ==> l.lastUs - ts[|ts| - 1] >= gap))
       case Calling(event, forced) => (event.Started? || event.ImageDesc? ==> ts == [])
       case Measuring(false) => l.lastUs == last && (|ts| > 0 ==> l.lastUs - ts[|ts| - 1] >= gap)
       case _ => true
  }

  lemma SpacedThen(ts: seq<int>, t: int, gap: nat)
    requires Spaced(ts, gap) && (|ts| > 0 ==> t - ts[|ts| - 1] >= gap)
    ensures Spaced(ts + [t], gap)
  {
    var us := ts + [t];
    forall i, j | 0 <= i < j < |us| ensures us[j] - us[i] >= (j - i) * gap {
      if j == |ts| && i < |ts| - 1 {
        assert ts[|ts| - 1] - ts[i] >= (|ts| - 1 - i) * gap;
        assert (|ts| - 1 - i) * gap + gap == (|ts| - i) * gap;
      }
    }
  }

  lemma TimesStep(req: Request, l: Local, e: Label, ts: seq<int>, last: int)
    requires req.Accepted() && req.intervalMs > 0 && Next(req, l, e).Some?
    requires TimesAt(l, ts, req.intervalMs * 1000, last) && !UnforcedReport(e)
    ensures TimesAt(Next(req, l, e).value, ts, req.intervalMs * 1000, if e.Clock? then e.nowUs else last)
  {
  }

  lemma ReportStep(req: Request, l: Local, e: Label, ts: seq<int>, last: int)
    requires req.Accepted() && req.intervalMs > 0 && Next(req, l, e).Some?
    requires TimesAt(l, ts, req.intervalMs * 1000, last) && UnforcedReport(e)
    ensures TimesAt(Next(req, l, e).value, ts + [last], req.intervalMs * 1000, last)
  {
    SpacedThen(ts, last, req.intervalMs * 1000);
  }

  lemma {:induction false} TimesFollowLocal(req: Request, h: History, l: Local)
    requires req.Accepted() && req.intervalMs > 0 && Run(req, h) == Some(l)
    ensures TimesAt(l, ReportTimes(h), req.intervalMs * 1000, LastClock(h))
  {
    if h != [] {
      var p, e := h[..|h| - 1], h[|h| - 1];
      var ts, m := ReportTimes(p), Run(req, p).value;
      TimesFollowLocal(req, p, m);
      if UnforcedReport(e) {
        ReportStep(req, m, e, ts, LastClock(p));
      } else {
        TimesStep(req, m, e, ts, LastClock(p));
        assert ts + [] == ts;
      }
    }
  }

  /** With an interval set, the n-th report after another one comes at least n intervals later,
      whatever the clock, the network and the callback do. */
  lemma ThrottleBound(req: Request, h: History, i: nat, j: nat)
    requires req.Accepted() && req.intervalMs > 0 && Run(req, h).Some?
    requires i < j < |ReportTimes(h)|
    ensures ReportTimes(h)[j] - ReportTimes(h)[i] >= (j - i) * (req.intervalMs * 1000)
  {
    TimesFollowLocal(req, h, Run(req, h).value);
  }

  /** When the latest report of the loop was let through: the reading of the clock that a length
      was measured right after. */
  function LastPassed(h: History): int {
    if |h| < 2 then 0
    else if h[|h| - 1].LenRead? && h[|h| - 2].Clock? then h[|h| - 2].nowUs
    else LastPassed(h[..|h| - 1])
  }

  predicate InLoop(pc: Pc) {
    match pc
    case Performing | CheckingAbort | Throttling => true
    case Emitting(event, forced) => event.Downloaded? && !forced
    case Calling(event, forced) => event.Downloaded? && !forced
    case _ => false
  }

  predicate BeforeSize(pc: Pc) {
    || BeforeConnection(pc) || pc.ReadingDesc? || pc.Sizing?
    || ((pc.Emitting? || pc.Calling?) && (pc.event.Started? || pc.event.ImageDesc?))
  }

  predicate PassedAt(l: Local, h: History) {
    && (BeforeSize(l.pc) ==> LastPassed(h) == 0)
    && (InLoop(l.pc) ==> l.lastUs == LastPassed(h))
    && (l.pc == Measuring(false) ==> h != [] && h[|h| - 1] == Clock(l.lastUs))
  }

  lemma PassedStep(req: Request, l: Local, e: Label, p: History)
    requires req.Accepted() && req.intervalMs > 0 && Next(req, l, e).Some? && PassedAt(l, p)
    ensures PassedAt(Next(req, l, e).value, Then(p, e))
  {
    assert Then(p, e)[..|p|] == p;
  }

  lemma {:induction false} PassedFollowsLocal(req: Request, h: History, l: Local)
    requires req.Accepted() && req.intervalMs > 0 && Run(req, h) == Some(l)
    ensures PassedAt(l, h)
  {
    if h != [] {
      var p := h[..|h| - 1];
      PassedFollowsLocal(req, p, Run(req, p).value);
      PassedStep(req, Run(req, p).value, h[|h| - 1], p);
      assert Then(p, h[|h| - 1]) == h;
    }
  }

  /** The throttle is exact: a tick is suppressed, and the next chunk fetched without a word, iff
      less than the interval has passed since the last report let through (or since the clock's
      zero); otherwise the length is read. */
  lemma ThrottleExact(req: Request, h: History, i: nat)
    requires req.Accepted() && req.intervalMs > 0 && Run(req, h).Some?
    requires i + 1 < |h| && h[i].Clock?
    ensures if h[i].nowUs - LastPassed(h[..i]) < req.intervalMs * 1000 then h[i + 1].Perform? else h[i + 1].LenRead?
  {
    RunStep(req, h, i);
    RunStep(req, h, i + 1);
    var l := Run(req, h[..i]).value;
    PassedFollowsLocal(req, h[..i], l);
    AfterClock(req, l, h[i], h[i + 1]);
  }

  lemma AfterClock(req: Request, l: Local, e: Label, f: Label)
    requires req.Accepted() && e.Clock? && Next(req, l, e).Some? && Next(req, Next(req, l, e).value, f).Some?
    ensures l.pc == Throttling
    ensures if e.nowUs - l.lastUs < req.intervalMs * 1000 then f.Perform? else f.LenRead?
  {
  }

  /** Without an interval every chunk that the update survives is measured; and every measured
      length is reported before anything else happens, when somebody listens. */
  lemma EveryLengthReported(req: Request, h: History, i: nat)
    requires Run(req, h).Some? && i + 1 < |h| && req.Request? && req.hasCallback
    ensures h[i] == CheckAbort(false) ==> if req.intervalMs == 0 then h[i + 1].LenRead? else h[i + 1].Clock?
    ensures h[i].LenRead? && h[i].bytes >= 0 ==> h[i + 1].Emit? && h[i + 1].event.Downloaded?
    ensures h[i].LenRead? && h[i].bytes < 0 ==> h[i + 1].Perform? || h[i + 1].Finish?
  {
    RunStep(req, h, i);
    RunStep(req, h, i + 1);
    AfterPollOrLength(req, Run(req, h[..i]).value, h[i], h[i + 1]);
  }

  lemma AfterPollOrLength(req: Request, l: Local, e: Label, f: Label)
    requires req.Request? && req.hasCallback && Next(req, l, e).Some? && Next(req, Next(req, l, e).value, f).Some?
    ensures e == CheckAbort(false) ==> if req.intervalMs == 0 then f.LenRead? else f.Clock?
    ensures e.LenRead? && e.bytes >= 0 ==> f.Emit? && f.event.Downloaded?
    ensures e.LenRead? && e.bytes < 0 ==> f.Perform? || f.Finish?
  {
  }

  /** Chunks fetched without the update being stopped. */
  function Survived(h: History): nat {
    if h == [] then 0 else Survived(h[..|h| - 1]) + if h[|h| - 1] == CheckAbort(false) then 1 else 0
  }

  /** The tick e comes too early after a history p. */
  predicate TooEarly(req: Request, p: History, e: Label) {
    req.Request? && e.Clock? && e.nowUs - LastPassed(p) < req.intervalMs * 1000
  }

  /** Ticks the throttle held back. */
  function HeldBack(req: Request, h: History): nat {
    if h == [] then 0
    else HeldBack(req, h[..|h| - 1]) + if TooEarly(req, h[..|h| - 1], h[|h| - 1]) then 1 else 0
  }

  /** A length that could not be read, other than the final one. */
  predicate Unreadable(p: History, e: Label) {
    e.LenRead? && e.bytes < 0 && (p == [] || p[|p| - 1] != Complete(true))
  }

  function Unreported(h: History): nat {
    if h == [] then 0
    else Unreported(h[..|h| - 1]) + if Unreadable(h[..|h| - 1], h[|h| - 1]) then 1 else 0
  }

  /** Between the poll and the report it leads to. */
  predicate ReportDue(pc: Pc) {
    || pc.Throttling? || pc == Measuring(false)
    || (pc.Emitting? && pc.event.Downloaded? && !pc.forced)
  }

  predicate LengthKind(l: Local, p: History) {
    && (l.pc == Measuring(true) ==> p != [] && p[|p| - 1] == Complete(true))
    && (l.pc == Measuring(false) ==> p == [] || p[|p| - 1] != Complete(true))
  }

  lemma {:induction false} LengthKinds(req: Request, h: History)
    requires Run(req, h).Some?
    ensures LengthKind(Run(req, h).value, h)
  {
  }

  lemma AccountStep(req: Request, l: Local, e: Label, p: History)
    requires req.Accepted() && req.hasCallback && Next(req, l, e).Some? && LengthKind(l, p)
    requires req.intervalMs > 0 ==> PassedAt(l, p)
    requires req.intervalMs == 0 ==> !l.pc.Throttling?
    ensures var due := if ReportDue(l.pc) then 1 else 0;
            var later := if ReportDue(Next(req, l, e).value.pc) then 1 else 0;
            due + (if e == CheckAbort(false) then 1 else 0)
            == later + (if UnforcedReport(e) then 1 else 0) + (if Unreadable(p, e) then 1 else 0)
               + if TooEarly(req, p, e) then 1 else 0
    ensures req.intervalMs == 0 ==> !Next(req, l, e).value.pc.Throttling? && !TooEarly(req, p, e)
  {
  }

  /** Every chunk the update survived is accounted for: it was reported, held back by the
      throttle, or its length could not be read, unless its report is still due. Without an
      interval nothing is held back, so everything measurable was reported. */
  lemma {:induction false} EveryChunkAccounted(req: Request, h: History)
    requires Run(req, h).Some? && req.Accepted() && req.hasCallback
    ensures Survived(h) == |ReportTimes(h)| + HeldBack(req, h) + Unreported(h)
                           + if ReportDue(Run(req, h).value.pc) then 1 else 0
    ensures req.intervalMs == 0 ==> HeldBack(req, h) == 0 && !Run(req, h).value.pc.Throttling?
  {
    if h != [] {
      var p, e := h[..|h| - 1], h[|h| - 1];
      var l := Run(req, p).value;
      EveryChunkAccounted(req, p);
      LengthKinds(req, p);
      if req.intervalMs > 0 {
        PassedFollowsLocal(req, p, l);
      }
      AccountStep(req, l, e, p);
    }
  }

  /** A history that ends with the data complete, its length read, and either no length to
      report or a forced report the application agreed to. */
  ghost predicate EndsReported(h: History) {
    exists n: int32, total: int32 :: EndsWithReport(h, n, total)
  }

  predicate EndsWithReport(h: History, n: int32, total: int32) {
    var event := Downloaded(Snapshot(if n < 0 then 0 else n, total));
    var tail := [Complete(true), LenRead(n)] + if n < 0 then [] else [Emit(event, true), Verdict(event, Ok)];
    |h| >= |tail| && h[|h| - |tail|..] == tail
  }

  /** The final report ignores the throttle: by the time of the commit it has been made and
      accepted, unless no length was available. */
  lemma FinalReportAlwaysMade(req: Request, h: History, i: nat)
    requires Run(req, h).Some? && i < |h| && h[i].Finish?
    requires req.Request? && req.hasCallback
    ensures EndsReported(h[..i])
  {
    RunStep(req, h, i);
    LastReport(req, h[..i], Run(req, h[..i]).value);
  }

  lemma LastReport(req: Request, p: History, l: Local)
    requires Run(req, p) == Some(l) && l.pc == Committing
    requires req.Request? && req.hasCallback
    ensures EndsReported(p)
  {
    var q := p[..|p| - 1];
    var e := p[|p| - 1];
    IntoCommitting(req, Run(req, q).value, e);
    if e.LenRead? {
      AfterComplete(req, q);
      SilentEnding(p);
    } else {
      var total := ForcedReportBefore(req, q, e.event);
      SpokenEnding(p, total);
    }
  }

  lemma IntoCommitting(req: Request, l: Local, e: Label)
    requires req.Request? && req.hasCallback
    requires Next(req, l, e).Some? && Next(req, l, e).value.pc == Committing
    ensures || (e.LenRead? && e.bytes < 0 && l.pc == Measuring(true))
            || (e.Verdict? && e.err == Ok && l.pc == Calling(e.event, true))
  {
  }

  lemma ForcedReportBefore(req: Request, q: History, event: Event) returns (total: int32)
    requires Run(req, q).Some? && Run(req, q).value.pc == Calling(event, true)
    ensures |q| >= 3 && q[|q| - 1] == Emit(event, true) && q[|q| - 3] == Complete(true)
    ensures q[|q| - 2].LenRead? && q[|q| - 2].bytes >= 0
    ensures event == Downloaded(Snapshot(q[|q| - 2].bytes, total))
  {
    ForcedCall(req, q);
    var r := q[..|q| - 1];
    var n: int32;
    n, total := ForcedEvent(req, r);
    AfterComplete(req, r[..|r| - 1]);
  }

  lemma SilentEnding(p: History)
    requires |p| >= 2 && p[|p| - 1].LenRead? && p[|p| - 1].bytes < 0 && p[|p| - 2] == Complete(true)
    ensures EndsReported(p)
  {
    assert EndsWithReport(p, p[|p| - 1].bytes, 0);
  }

  lemma SpokenEnding(p: History, total: int32)
    requires |p| >= 4 && p[|p| - 4] == Complete(true) && p[|p| - 3].LenRead? && p[|p| - 3].bytes >= 0
    requires p[|p| - 2].Emit? && p[|p| - 2].forced && p[|p| - 1] == Verdict(p[|p| - 2].event, Ok)
    requires p[|p| - 2].event == Downloaded(Snapshot(p[|p| - 3].bytes, total))
    ensures EndsReported(p)
  {
    assert EndsWithReport(p, p[|p| - 3].bytes, total);
  }

  lemma AfterComplete(req: Request, q: History)
    requires Run(req, q).Some? && Run(req, q).value.pc == Measuring(true)
    ensures q != [] && q[|q| - 1] == Complete(true)
  {
  }

  lemma ForcedCall(req: Request, q: History)
    requires Run(req, q).Some? && Run(req, q).value.pc.Calling? && Run(req, q).value.pc.forced
    ensures q != [] && Run(req, q[..|q| - 1]).Some?
    ensures Run(req, q[..|q| - 1]).value.pc == Emitting(Run(req, q).value.pc.event, true)
    ensures q[|q| - 1] == Emit(Run(req, q).value.pc.event, true)
  {
  }

  lemma ForcedEvent(req: Request, r: History) returns (n: int32, total: int32)
    requires Run(req, r).Some? && Run(req, r).value.pc.Emitting? && Run(req, r).value.pc.forced
    ensures r != [] && Run(req, r[..|r| - 1]).Some? && Run(req, r[..|r| - 1]).value.pc == Measuring(true)
    ensures r[|r| - 1] == LenRead(n) && n >= 0
    ensures Run(req, r).value.pc.event == Downloaded(Snapshot(n, total))
  {
    n, total := r[|r| - 1].bytes, Run(req, r[..|r| - 1]).value.total;
  }
}
