/** The on-demand example: the console task posts update requests through a URL buffer, a flag and
    a binary semaphore to one worker task, which runs the component as modelled in UpdateMachine. */
module OnDemandApp {
  import opened Esp
  import opened UpdateCall
  import Machine = UpdateMachine
  import Runs

  const OTA_URL_SIZE: nat := 256

  /** Where cmd_ota is. */
  datatype Console = Prompt | Testing(url: string) | Free(url: string) | Written(url: string) | Raised(url: string)

  /** Where ota_worker_task is: blocked on the semaphore, about to call ota_api_update(), inside
      call c, back with an error, or back with success. */
  datatype Worker = Waiting | Starting | Running(c: nat) | Lowering | Leaving

  datatype App = App(sys: Machine.System, url: string, flag: bool, posted: bool,
                     console: Console, worker: Worker, down: bool)

  datatype Step =
    | Type(url: string)
    | ReadFlag(answer: bool)
    | WriteUrl
    | RaiseFlag
    | Give(ok: bool)
    | TakeRequest
    | Call(c: nat)
    | Do(c: nat, e: Label)
    | Back(err: Err)
    | LowerFlag
    | Reset

  const INITIAL: App := App(Machine.INITIAL, [], false, false, Prompt, Waiting, false)

  /** The configuration the worker passes: no callback, the shared buffer as its URL. */
  function WorkerRequest(url: string): Request {
    Request(Some(url), false, 0)
  }

  function Take(a: App, step: Step): Option<App> {
    if a.down then None
    else match step
      case Type(url) => if a.console != Prompt then None else Some(a.(console := Testing(url)))
      case ReadFlag(answer) =>
        if !a.console.Testing? || answer != a.flag then None
        else Some(a.(console := if answer || |a.console.url| >= OTA_URL_SIZE then Prompt else Free(a.console.url)))
      case WriteUrl =>
        if !a.console.Free? then None else Some(a.(url := a.console.url, console := Written(a.console.url)))
      case RaiseFlag =>
        if !a.console.Written? then None else Some(a.(flag := true, console := Raised(a.console.url)))
      case Give(ok) =>
        if !a.console.Raised? || ok != !a.posted then None else Some(a.(posted := true, console := Prompt))
      case TakeRequest =>
        if a.worker != Waiting || !a.posted then None else Some(a.(posted := false, worker := Starting))
      case Call(c) =>
        if a.worker != Starting || c in a.sys.calls then None
        else Some(a.(worker := Running(c), sys := Machine.Take(a.sys, Machine.Enter(c, WorkerRequest(a.url))).value))
      case Do(c, e) =>
        if a.worker != Running(c) || Machine.Take(a.sys, Machine.Do(c, e)).None? then None
        else Some(a.(sys := Machine.Take(a.sys, Machine.Do(c, e)).value))
      case Back(err) =>
        if !a.worker.Running? || a.worker.c !in a.sys.calls
           || a.sys.calls[a.worker.c].at.pc != Returned(err) then None
        else Some(a.(worker := if err == Ok then Leaving else Lowering))
      case LowerFlag =>
        if a.worker != Lowering then None else Some(a.(flag := false, worker := Waiting))
      case Reset => Some(a.(down := true))
  }

  type Log = seq<Step>

  function Exec(log: Log): Option<App> {
    Runs.Fold(Take, INITIAL, log)
  }

  /** The URLs of the commands that were accepted, in the order they were posted. */
  function Accepted(log: Log): seq<string> {
    if log == [] || Exec(log[..|log| - 1]).None? then []
    else
      var p := log[..|log| - 1];
      var a := Exec(p).value;
      Accepted(p) + if log[|log| - 1].Give? && a.console.Raised? then [a.console.url] else []
  }

  /** What the buffer held each time the worker called ota_api_update(). */
  function Begun(log: Log): seq<string> {
    if log == [] || Exec(log[..|log| - 1]).None? then []
    else
      var p := log[..|log| - 1];
      Begun(p) + if log[|log| - 1].Call? then [Exec(p).value.url] else []
  }

  /** Requests whose failure the worker has reported back. */
  function Finished(log: Log): nat {
    if log == [] then 0 else Finished(log[..|log| - 1]) + if log[|log| - 1].LowerFlag? then 1 else 0
  }

  // --- The invariant ---

  /** A request that is posted or in the worker's hands. */
  predicate InFlight(a: App) {
    a.posted || a.worker != Waiting
  }

  ghost predicate Sound(a: App) {
    && Machine.Consistent(a.sys)
    && !(a.posted && a.worker != Waiting)
    && (a.flag <==> a.console.Raised? || InFlight(a))
    && (a.console.Raised? || a.console.Free? || a.console.Written? ==> !InFlight(a))
    && (a.console.Written? || a.console.Raised? ==> a.url == a.console.url)
    && (a.console.Free? ==> |a.console.url| < OTA_URL_SIZE)
    && (forall c :: Machine.InSlot(a.sys, c) ==> a.worker == Running(c))
    && (a.worker.Running? ==> a.worker.c in a.sys.calls && a.sys.calls[a.worker.c].req == WorkerRequest(a.url))
  }

  /** Nobody else calls the component, so a claim of the worker is always granted. */
  lemma ClaimFree(a: App, c: nat)
    requires Sound(a) && a.worker == Running(c) && a.sys.calls[c].at.pc == Claiming
    ensures !a.sys.slot.running
  {
    assert forall d :: Machine.InSlot(a.sys, d) ==> d == c;
    assert !Machine.InSlot(a.sys, c);
  }

  lemma CallSound(a: App, c: nat)
    requires Sound(a) && Take(a, Call(c)).Some?
    ensures Sound(Take(a, Call(c)).value)
  {
    Machine.Preserved(a.sys, Machine.Enter(c, WorkerRequest(a.url)));
    var b := Take(a, Call(c)).value;
    assert forall d :: Machine.InSlot(b.sys, d) <==> Machine.InSlot(a.sys, d);
  }

  lemma DoSound(a: App, c: nat, e: Label)
    requires Sound(a) && Take(a, Do(c, e)).Some?
    ensures Sound(Take(a, Do(c, e)).value)
  {
    Machine.Preserved(a.sys, Machine.Do(c, e));
    OnlyTheWorker(a, c, e);
  }

  lemma OnlyTheWorker(a: App, c: nat, e: Label)
    requires Sound(a) && Take(a, Do(c, e)).Some?
    ensures var b := Take(a, Do(c, e)).value;
            forall d :: Machine.InSlot(b.sys, d) ==> a.worker == Running(d)
  {
    Machine.SlotMoves(a.sys, c, e);
  }

  lemma StepSound(a: App, step: Step)
    requires Sound(a) && Take(a, step).Some?
    ensures Sound(Take(a, step).value)
  {
    match step
    case Call(c) => CallSound(a, c);
    case Do(c, e) => DoSound(a, c, e);
    case _ =>
  }

  lemma {:induction false} AlwaysSound(log: Log)
    requires Exec(log).Some?
    ensures Sound(Exec(log).value)
  {
    if log != [] {
      var p := log[..|log| - 1];
      AlwaysSound(p);
      StepSound(Exec(p).value, log[|log| - 1]);
    }
  }

  // --- What the protocol promises ---

  lemma ExecAt(log: Log, n: nat) returns (a: App)
    requires n < |log| && Exec(log).Some?
    ensures Exec(log[..n]) == Some(a) && Sound(a) && Take(a, log[n]).Some?
  {
    a := Runs.At(Take, INITIAL, log, n);
    AlwaysSound(log[..n]);
  }

  /** The request that was posted and has not reached ota_api_update() yet. */
  function OnItsWay(a: App): seq<string> {
    if a.posted || a.worker.Starting? then [a.url] else []
  }

  lemma OrderStep(a: App, step: Step, accepted: seq<string>, begun: seq<string>)
    requires Sound(a) && Take(a, step).Some? && accepted == begun + OnItsWay(a)
    ensures accepted + (if step.Give? then [a.console.url] else [])
            == begun + (if step.Call? then [a.url] else []) + OnItsWay(Take(a, step).value)
  {
  }

  /** No accepted request is lost, merged, reordered or served with another request's URL: the
      updates begun so far used exactly the accepted URLs in order, but for the one on its way. */
  lemma {:induction false} NothingLostOrMixed(log: Log)
    requires Exec(log).Some?
    ensures Accepted(log) == Begun(log) + OnItsWay(Exec(log).value)
  {
    if log != [] {
      var p := log[..|log| - 1];
      NothingLostOrMixed(p);
      AlwaysSound(p);
      OrderStep(Exec(p).value, log[|log| - 1], Accepted(p), Begun(p));
    }
  }

  lemma CountStep(a: App, step: Step)
    requires Sound(a) && Take(a, step).Some?
    ensures (if InFlight(a) then 1 else 0) + (if step.Give? then 1 else 0)
            == (if step.LowerFlag? then 1 else 0) + if InFlight(Take(a, step).value) then 1 else 0
  {
  }

  /** Accepted requests are those finished plus the one in flight. */
  lemma {:induction false} RequestsConserved(log: Log)
    requires Exec(log).Some?
    ensures |Accepted(log)| == Finished(log) + if InFlight(Exec(log).value) then 1 else 0
  {
    if log != [] {
      var p := log[..|log| - 1];
      RequestsConserved(p);
      AlwaysSound(p);
      CountStep(Exec(p).value, log[|log| - 1]);
    }
  }

  /** The semaphore is empty at every give, so a give never merges two requests. */
  lemma GiveFindsItEmpty(log: Log, n: nat)
    requires Exec(log).Some? && n < |log| && log[n].Give?
    ensures log[n].ok
  {
    var a := ExecAt(log, n);
  }

  /** The flag is up exactly while a request is being posted, waits in the semaphore, or is in
      the worker's hands, the time before the reboot included. */
  lemma FlagMeansRequest(log: Log)
    requires Exec(log).Some?
    ensures var a := Exec(log).value;
            && (a.flag <==> a.console.Raised? || a.posted || a.worker != Waiting)
            && !(a.posted && a.worker != Waiting)
  {
    AlwaysSound(log);
  }

  lemma RunningStep(a: App, step: Step)
    requires Sound(a) && Take(a, step).Some? && a.worker.Running?
    ensures a.worker.c in a.sys.calls && a.sys.calls[a.worker.c].req == WorkerRequest(a.url)
    ensures step != WriteUrl && Take(a, step).value.url == a.url
    ensures step.Do? && step.e.Claim? ==> step.e.granted
  {
    if step.Do? && step.e.Claim? {
      NeverClaimingAgain(a.sys.calls[step.c].req, a.sys.calls[step.c].at, step.e);
      ClaimFree(a, step.c);
    }
  }

  /** While the worker's call is in progress, the buffer it reads holds the URL of the last
      accepted command, which is the one it was called with; nothing rewrites it, and its claim
      is not refused. */
  lemma BufferStable(log: Log, n: nat)
    requires Exec(log).Some? && n < |log|
    requires Exec(log[..n]).Some? && Exec(log[..n]).value.worker.Running?
    ensures var a := Exec(log[..n]).value;
            a.worker.c in a.sys.calls && a.sys.calls[a.worker.c].req == Request(Some(a.url), false, 0)
    ensures Begun(log[..n]) == Accepted(log[..n]) && log[n] != WriteUrl
    ensures log[n].Do? && log[n].e.Claim? ==> log[n].e.granted
  {
    var a := ExecAt(log, n);
    RunningStep(a, log[n]);
    NothingLostOrMixed(log[..n]);
    assert OnItsWay(a) == [];
  }

  /** The calls of the component the worker made, in order. */
  function Entered(log: Log): seq<nat> {
    if log == [] then []
    else Entered(log[..|log| - 1]) + if log[|log| - 1].Call? then [log[|log| - 1].c] else []
  }

  /** Call number k of these carried URL number k, no callback and no interval. */
  ghost predicate Carried(a: App, ids: seq<nat>, urls: seq<string>) {
    && |ids| == |urls|
    && (forall k :: 0 <= k < |ids| ==> ids[k] in a.sys.calls && a.sys.calls[ids[k]].req == Request(Some(urls[k]), false, 0))
    && (forall c :: c in a.sys.calls ==> c in ids)
  }

  lemma CarriedByCall(a: App, c: nat, ids: seq<nat>, urls: seq<string>)
    requires Carried(a, ids, urls) && Take(a, Call(c)).Some?
    ensures Carried(Take(a, Call(c)).value, ids + [c], urls + [a.url])
  {
  }

  lemma CarriedByRest(a: App, step: Step, ids: seq<nat>, urls: seq<string>)
    requires Carried(a, ids, urls) && Take(a, step).Some? && !step.Call?
    ensures Carried(Take(a, step).value, ids, urls)
  {
  }

  lemma {:induction false} CallsCarryBuffer(log: Log)
    requires Exec(log).Some?
    ensures Carried(Exec(log).value, Entered(log), Begun(log))
  {
    if log != [] {
      var p, step := log[..|log| - 1], log[|log| - 1];
      CallsCarryBuffer(p);
      var a := Exec(p).value;
      if step.Call? {
        CarriedByCall(a, step.c, Entered(p), Begun(p));
      } else {
        CarriedByRest(a, step, Entered(p), Begun(p));
        assert Entered(log) == Entered(p) && Begun(log) == Begun(p);
      }
    }
  }

  /** The updates that were really started are those of the accepted commands: read off the
      requests the component was called with, their URLs are the accepted ones, in order, but for
      the one still on its way; none has a callback or an interval; and there is no other call. */
  lemma UpdatesUseAcceptedUrls(log: Log)
    requires Exec(log).Some?
    ensures var a, ids, urls := Exec(log).value, Entered(log), Accepted(log);
            && |urls| == |ids| + (if a.posted || a.worker.Starting? then 1 else 0)
            && (forall k :: 0 <= k < |ids| ==>
                  && ids[k] in a.sys.calls
                  && a.sys.calls[ids[k]].req == Request(Some(urls[k]), false, 0))
            && (forall c :: c in a.sys.calls ==> c in ids)
  {
    CallsCarryBuffer(log);
    NothingLostOrMixed(log);
    assert |OnItsWay(Exec(log).value)| <= 1;
  }

  function UrlOf(c: Console): string {
    match c
    case Prompt => []
    case Testing(url) => url
    case Free(url) => url
    case Written(url) => url
    case Raised(url) => url
  }

  lemma {:induction false} CommandTyped(log: Log) returns (k: nat)
    requires Exec(log).Some? && !Exec(log).value.console.Prompt?
    ensures k < |log| && log[k] == Type(UrlOf(Exec(log).value.console))
    ensures forall m :: k < m < |log| ==> !log[m].Type?
  {
    var last := log[|log| - 1];
    if last.Type? {
      k := |log| - 1;
    } else {
      k := CommandTyped(log[..|log| - 1]);
    }
  }

  /** What a give adds to the accepted URLs is the URL that was typed last. */
  lemma AcceptedAsTyped(log: Log, n: nat) returns (k: nat)
    requires Exec(log).Some? && n < |log| && log[n].Give?
    ensures k < n && log[k].Type? && forall m :: k < m < n ==> !log[m].Type?
    ensures Accepted(log[..n + 1]) == Accepted(log[..n]) + [log[k].url] && |log[k].url| < 256
  {
    var a := ExecAt(log, n);
    k := CommandTyped(log[..n]);
    assert log[..n + 1][..n] == log[..n];
    FitsOnceTested(log[..n]);
  }

  lemma {:induction false} FitsOnceTested(log: Log)
    requires Exec(log).Some?
    ensures var c := Exec(log).value.console; c.Free? || c.Written? || c.Raised? ==> |UrlOf(c)| < 256
  {
    if log != [] {
      FitsOnceTested(log[..|log| - 1]);
    }
  }

  /** What the worker does with an answer: it leaves for the reboot exactly if its update
      committed an image, and otherwise goes on to lower the flag. */
  lemma RebootIffCommitted(log: Log, n: nat)
    requires Exec(log).Some? && n < |log| && log[n].Back?
    ensures Exec(log[..n]).Some? && Exec(log[..n + 1]).Some?
    ensures var a, b := Exec(log[..n]).value, Exec(log[..n + 1]).value;
            && a.worker.Running? && a.worker.c in a.sys.calls
            && (b.worker == Leaving <==> Finish(Ok) in a.sys.calls[a.worker.c].hist)
            && (b.worker == Lowering <==> Finish(Ok) !in a.sys.calls[a.worker.c].hist)
            && b.flag && b.url == a.url
  {
    var a := ExecAt(log, n);
    Runs.Prefix(Take, INITIAL, log, n + 1);
    assert log[..n + 1][..n] == log[..n];
    var call := a.sys.calls[a.worker.c];
    CommittedIffFinished(call.req, call.hist);
  }
}
