/** cmd_ota and ota_worker_task of the on-demand example, run while the other of the two tasks
    acts between any two of their steps. Each takes only steps of the machine in OnDemandApp. */
module OnDemandCode {
  import opened Esp
  import opened UpdateCall
  import opened OnDemandApp
  import Machine = UpdateMachine
  import Runs

  /** The log leads to this state, with these URLs accepted and so many requests finished. Said
      of its longest prefix, so that a proof has to ask before the definitions are unfolded. */
  ghost predicate LeadsTo(log: Log, app: App, accepted: seq<string>, finished: nat) {
    forall n: nat :: n == |log| ==>
      Exec(log[..n]) == Some(app) && Accepted(log[..n]) == accepted && Finished(log[..n]) == finished
  }

  lemma LeadsToIsExec(log: Log, app: App, accepted: seq<string>, finished: nat)
    ensures LeadsTo(log, app, accepted, finished)
            <==> Exec(log) == Some(app) && Accepted(log) == accepted && Finished(log) == finished
  {
    assert log[..|log|] == log;
  }

  lemma LeadsOn(log: Log, app: App, accepted: seq<string>, finished: nat, step: Step)
    requires LeadsTo(log, app, accepted, finished) && Take(app, step).Some?
    ensures LeadsTo(log + [step], Take(app, step).value,
                    accepted + if step.Give? then [app.console.url] else [],
                    finished + if step.LowerFlag? then 1 else 0)
    ensures log < log + [step]
  {
    LeadsToIsExec(log, app, accepted, finished);
    LeadsToIsExec(log + [step], Take(app, step).value,
                  accepted + if step.Give? then [app.console.url] else [],
                  finished + if step.LowerFlag? then 1 else 0);
    assert (log + [step])[..|log|] == log;
  }

  /** What the invariant says of a reachable state, as far as the code here relies on it. */
  lemma Reachable(log: Log, app: App, accepted: seq<string>, finished: nat)
    requires LeadsTo(log, app, accepted, finished)
    ensures app.console.Raised? ==> !app.posted && app.url == app.console.url
    ensures app.worker != Waiting ==> app.flag
    ensures app.worker.Running? && app.worker.c in app.sys.calls && app.sys.calls[app.worker.c].at.pc == Claiming
            ==> !app.sys.slot.running
    ensures |accepted| == finished + if InFlight(app) then 1 else 0
  {
    LeadsToIsExec(log, app, accepted, finished);
    AlwaysSound(log);
    RequestsConserved(log);
    if app.worker.Running? && app.worker.c in app.sys.calls && app.sys.calls[app.worker.c].at.pc == Claiming {
      ClaimFree(app, app.worker.c);
    }
  }

  predicate ByWorker(step: Step) {
    step.TakeRequest? || step.Call? || step.Do? || step.Back? || step.LowerFlag?
  }

  predicate ByConsole(step: Step) {
    step.Type? || step.ReadFlag? || step.WriteUrl? || step.RaiseFlag? || step.Give?
  }

  /** What the worker leaves to the console. */
  lemma WorkerLeavesAlone(log: Log, later: Log)
    requires Exec(log).Some? && Exec(later).Some? && log <= later
    requires forall i :: |log| <= i < |later| ==> ByWorker(later[i])
    ensures var a, b := Exec(log).value, Exec(later).value;
            b.console == a.console && b.url == a.url && (b.flag ==> a.flag)
    ensures Accepted(later) == Accepted(log)
  {
    var a := Exec(log).value;
    Runs.Stays(Take, INITIAL, log, later, ByWorker,
               (b: App) => b.console == a.console && b.url == a.url && (b.flag ==> a.flag));
    NoneAccepted(log, later);
  }

  lemma {:induction false} NoneAccepted(log: Log, later: Log)
    requires Exec(later).Some? && log <= later
    requires forall i :: |log| <= i < |later| ==> ByWorker(later[i])
    ensures Accepted(later) == Accepted(log)
    decreases |later|
  {
    if |log| < |later| {
      NoneAccepted(log, later[..|later| - 1]);
    } else {
      assert later == log;
    }
  }

  /** What the console leaves to the worker. */
  lemma ConsoleLeavesAlone(log: Log, later: Log)
    requires Exec(log).Some? && Exec(later).Some? && log <= later
    requires forall i :: |log| <= i < |later| ==> ByConsole(later[i])
    ensures var a, b := Exec(log).value, Exec(later).value;
            b.worker == a.worker && b.sys == a.sys && (a.posted ==> b.posted)
    ensures Finished(later) == Finished(log)
  {
    var a := Exec(log).value;
    Runs.Stays(Take, INITIAL, log, later, ByConsole,
               (b: App) => b.worker == a.worker && b.sys == a.sys && (a.posted ==> b.posted));
    NoneFinished(log, later);
  }

  lemma {:induction false} NoneFinished(log: Log, later: Log)
    requires log <= later
    requires forall i :: |log| <= i < |later| ==> ByConsole(later[i])
    ensures Finished(later) == Finished(log)
    decreases |later|
  {
    if |log| < |later| {
      NoneFinished(log, later[..|later| - 1]);
    } else {
      assert later == log;
    }
  }

  class Example {
    const defaultUrl: string
    var url: string
    var flag: bool
    var posted: bool
    ghost var log: Log
    ghost var app: App
    ghost var accepted: seq<string>
    ghost var finished: nat

    ghost predicate Valid()
      reads this
    {
      && LeadsTo(log, app, accepted, finished) && !app.down
      && app.url == url && app.flag == flag && app.posted == posted
    }

    constructor (defaultUrl: string)
      ensures Valid() && app == INITIAL && log == []
    {
      this.defaultUrl := defaultUrl;
      url, flag, posted := [], false, false;
      log, app, accepted, finished := [], INITIAL, [], 0;
      LeadsToIsExec([], INITIAL, [], 0);
    }

    /** A step whose effect on the fields the caller already made. */
    ghost method Record(step: Step)
      requires LeadsTo(log, app, accepted, finished) && Take(app, step).Some? && !step.Reset?
      requires var b := Take(app, step).value; b.url == url && b.flag == flag && b.posted == posted
      modifies `log, `app, `accepted, `finished
      ensures Valid() && Some(app) == Take(old(app), step) && log == old(log) + [step]
      ensures accepted == old(accepted) + if step.Give? then [old(app).console.url] else []
      ensures finished == old(finished) + if step.LowerFlag? then 1 else 0
    {
      LeadsOn(log, app, accepted, finished, step);
      accepted := accepted + if step.Give? then [app.console.url] else [];
      finished := finished + if step.LowerFlag? then 1 else 0;
      app := Take(app, step).value;
      log := log + [step];
    }

    /** Steps of the worker. The body is one instance, in which it waits; callers know only that
        the log stays a run, in which the console took no step. */
    method WhileWorkerMoves()
      requires Valid()
      modifies this
      ensures Valid() && old(log) <= log
      ensures forall i :: |old(log)| <= i < |log| ==> ByWorker(log[i])
    {
    }

    /** The same, and what follows from it for the console. */
    method WorkerMoves()
      requires Valid()
      modifies this
      ensures Valid() && old(log) <= log && app.console == old(app.console)
      ensures url == old(url) && accepted == old(accepted)
      ensures flag ==> old(flag)
    {
      WhileWorkerMoves();
      LeadsToIsExec(old(log), old(app), old(accepted), old(finished));
      LeadsToIsExec(log, app, accepted, finished);
      WorkerLeavesAlone(old(log), log);
    }

    /** Steps of the console. The body is one instance, in which nobody types; callers know only
        that the log stays a run, in which the worker took no step. */
    method WhileConsoleMoves()
      requires Valid()
      modifies this
      ensures Valid() && old(log) <= log
      ensures forall i :: |old(log)| <= i < |log| ==> ByConsole(log[i])
    {
    }

    /** The same, and what follows from it for the worker. */
    method ConsoleMoves()
      requires Valid()
      modifies this
      ensures Valid() && old(log) <= log && app.worker == old(app.worker) && app.sys == old(app.sys)
      ensures finished == old(finished) && (old(posted) ==> posted)
    {
      WhileConsoleMoves();
      LeadsToIsExec(old(log), old(app), old(accepted), old(finished));
      LeadsToIsExec(log, app, accepted, finished);
      ConsoleLeavesAlone(old(log), log);
    }

    /** cmd_ota(). Refused while a request is in flight or when the URL does not fit; otherwise
        exactly this URL is posted, once. */
    method CmdOta(argument: Option<string>) returns (status: int)
      requires Valid() && app.console == Prompt
      modifies this
      ensures Valid() && app.console == Prompt && old(log) < log
      ensures var wanted := if argument.Some? then argument.value else defaultUrl;
              && (status == 0 ==> |wanted| < 256 && url == wanted
                                  && accepted == old(accepted) + [wanted])
              && (status != 0 ==> accepted == old(accepted) && url == old(url))
              && (!old(flag) && |wanted| < 256 ==> status == 0)
    {
      var wanted := if argument.Some? then argument.value else defaultUrl;
      Record(Type(wanted));
      WorkerMoves();
      var busy := flag;
      Record(ReadFlag(busy));
      WorkerMoves();
      if busy {
        return 1;
      }
      if |wanted| >= OTA_URL_SIZE {
        return 1;
      }
      Post(wanted);
      return 0;
    }

    /** The URL, then the flag, then the semaphore. */
    method Post(wanted: string)
      requires Valid() && app.console == Free(wanted)
      modifies this
      ensures Valid() && app.console == Prompt && old(log) < log && url == wanted
      ensures accepted == old(accepted) + [wanted]
    {
      url := wanted;
      Record(WriteUrl);
      WorkerMoves();
      flag := true;
      Record(RaiseFlag);
      WorkerMoves();
      Reachable(log, app, accepted, finished);
      var empty := !posted;
      posted := true;
      Record(Give(empty));
    }

    /** ota_api_update() on the worker. The component's code is proved in UpdateCode; callers know
        that some run of it returned. The body is the shortest one that fails. */
    method OtaApiUpdate(ghost c: nat) returns (err: Err)
      requires Valid() && app.worker == Running(c) && c in app.sys.calls
      requires app.sys.calls[c] == Machine.Call(WorkerRequest(url), [], Start(WorkerRequest(url)))
      modifies this
      ensures Valid() && old(log) <= log && app.worker == Running(c)
      ensures c in app.sys.calls && app.sys.calls[c].at.pc == Returned(err)
      ensures finished == old(finished)
    {
      Reachable(log, app, accepted, finished);
      RecordCall(c, Claim(true));
      RecordCall(c, Configure(InvalidArg));
      RecordCall(c, Release);
      err := InvalidArg;
    }

    ghost method RecordCall(c: nat, e: Label)
      requires Valid() && app.worker == Running(c) && c in app.sys.calls && Machine.Agrees(app.sys.slot, e)
      requires Next(app.sys.calls[c].req, app.sys.calls[c].at, e).Some?
      modifies `log, `app, `accepted, `finished
      ensures Valid() && old(log) <= log && app.worker == Running(c) && finished == old(finished)
      ensures app.sys.slot == Machine.SlotAfter(old(app.sys.slot), e)
      ensures c in app.sys.calls && app.sys.calls[c] == old(app.sys.calls[c]).After(e)
    {
      Record(Do(c, e));
    }

    /** One turn of the worker's loop, once the semaphore was given. Whether the device reboots. */
    method Serve() returns (reboots: bool)
      requires Valid() && app.worker == Waiting && posted
      modifies this
      ensures Valid() && old(log) < log
      ensures app.worker == if reboots then Leaving else Waiting
      ensures finished == old(finished) + if reboots then 0 else 1
      ensures reboots ==> flag
    {
      posted := false;
      Record(TakeRequest);
      ConsoleMoves();
      ghost var c := BeginCall();
      var err := OtaApiUpdate(c);
      reboots := ReportBack(c, err);
    }

    /** What the worker does with the answer. */
    method ReportBack(ghost c: nat, err: Err) returns (reboots: bool)
      requires Valid() && app.worker == Running(c) && c in app.sys.calls && app.sys.calls[c].at.pc == Returned(err)
      modifies this
      ensures Valid() && old(log) < log && (reboots <==> err == Ok)
      ensures app.worker == if reboots then Leaving else Waiting
      ensures finished == old(finished) + if reboots then 0 else 1
      ensures reboots ==> flag
    {
      Record(Back(err));
      ConsoleMoves();
      if err == Ok {
        Reachable(log, app, accepted, finished);
        return true;
      }
      flag := false;
      Record(LowerFlag);
      return false;
    }

    ghost method BeginCall() returns (c: nat)
      requires Valid() && app.worker == Starting
      modifies `log, `app, `accepted, `finished
      ensures Valid() && old(log) < log && app.worker == Running(c) && c in app.sys.calls
      ensures app.sys.calls[c] == Machine.Call(WorkerRequest(url), [], Start(WorkerRequest(url)))
      ensures finished == old(finished)
    {
      c := AboveAll(app.sys.calls.Keys);
      Record(Call(c));
    }

    /** ota_worker_task(), as far as its first n requests: it stops early when it is left blocked
        on the semaphore, or has rebooted the device. */
    method Worker(n: nat) returns (served: nat, reboots: bool)
      requires Valid() && app.worker == Waiting
      modifies this
      ensures Valid() && served <= n
      ensures app.worker == if reboots then Leaving else Waiting
      ensures finished == old(finished) + served
      ensures |accepted| == finished + if reboots || posted then 1 else 0
      ensures served < n && !reboots ==> !posted
    {
      served, reboots := 0, false;
      while served < n && !reboots
        invariant Valid() && served <= n
        invariant app.worker == if reboots then Leaving else Waiting
        invariant finished == old(finished) + served
        decreases n - served, !reboots
      {
        ConsoleMoves();
        if !posted {
          break;
        }
        reboots := Serve();
        if !reboots {
          served := served + 1;
        }
      }
      Reachable(log, app, accepted, finished);
    }
  }
}
