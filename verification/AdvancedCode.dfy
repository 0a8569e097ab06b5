/** cmd_ota, cmd_abort and on_ota_event_cb of the advanced example, run while the other tasks act
    between any two of their steps. Each takes only steps of the machine in AdvancedApp. */
module AdvancedCode {
  import opened Esp
  import opened UpdateCall
  import opened AdvancedApp
  import Machine = UpdateMachine
  import Runs

  /** The URL a list of arguments asks for: the last one that is not the word 'force'. */
  function UrlOf(args: seq<string>, default: string): string {
    if args == [] then default
    else if args[|args| - 1] == "force" then UrlOf(args[..|args| - 1], default)
    else args[|args| - 1]
  }

  /** Which argument that is: everything after it is 'force'. */
  lemma {:induction false} UrlIsLastOther(args: seq<string>, default: string)
    ensures (forall i :: 0 <= i < |args| ==> args[i] == "force") ==> UrlOf(args, default) == default
    ensures (exists i :: 0 <= i < |args| && args[i] != "force") ==>
              exists i :: 0 <= i < |args| && args[i] == UrlOf(args, default) != "force"
                          && forall j :: i < j < |args| ==> args[j] == "force"
  {
    if args != [] {
      var p := args[..|args| - 1];
      UrlIsLastOther(p, default);
      if args[|args| - 1] == "force" {
        if exists i :: 0 <= i < |args| && args[i] != "force" {
          var i :| 0 <= i < |args| && args[i] != "force";
          assert p[i] != "force";
          var k :| 0 <= k < |p| && p[k] == UrlOf(p, default) != "force"
                   && forall j :: k < j < |p| ==> p[j] == "force";
          assert args[k] == UrlOf(args, default);
        }
      } else {
        assert args[|args| - 1] == UrlOf(args, default);
      }
    }
  }

  ghost predicate LeadsTo(version: string, log: Log, app: App) {
    Runs.LeadsTo(Device(version), INITIAL, log, app)
  }

  lemma LeadsToIsExec(version: string, log: Log, app: App)
    ensures LeadsTo(version, log, app) <==> Exec(version, log) == Some(app)
  {
    Runs.LeadsToIsFold(Device(version), INITIAL, log, app);
  }

  lemma LeadsOn(version: string, log: Log, app: App, step: Step)
    requires LeadsTo(version, log, app) && Take(version, app, step).Some?
    ensures LeadsTo(version, log + [step], Take(version, app, step).value)
    ensures log < log + [step]
  {
    Runs.LeadsOn(Device(version), INITIAL, log, app, step);
  }

  /** What the invariant says of a reachable state, as far as the code here relies on it. */
  lemma Reachable(version: string, log: Log, app: App)
    requires LeadsTo(version, log, app)
    ensures !app.pending ==> !app.sys.slot.running
    ensures At(app, Raised) ==> app.pending
    ensures forall t :: Live(app, t) ==> app.pending && app.force == app.jobs[t].force
  {
    LeadsToIsExec(version, log, app);
    AlwaysSound(version, log);
    if !app.pending {
      FlagCoversSlot(app);
    }
  }

  /** A step of a spawned task, its callback included. */
  predicate ByTask(step: Step) {
    step.TaskEnter? || step.TaskDo? || step.ClearFlag?
  }

  /** What those steps leave to the console. */
  predicate LeftAlone(a: App, b: App) {
    && b.console == a.console && b.jobs.Keys == a.jobs.Keys && b.url == a.url && b.force == a.force
    && (b.pending ==> a.pending)
  }

  lemma LeftAloneStep(version: string, a: App, b: App, step: Step)
    requires LeftAlone(a, b) && ByTask(step) && Take(version, b, step).Some?
    ensures LeftAlone(a, Take(version, b, step).value)
  {
  }

  lemma TasksLeaveAlone(version: string, log: Log, later: Log, a: App, b: App)
    requires LeadsTo(version, log, a) && LeadsTo(version, later, b) && log <= later
    requires forall i :: |log| <= i < |later| ==> ByTask(later[i])
    ensures LeftAlone(a, b)
  {
    LeadsToIsExec(version, log, a);
    LeadsToIsExec(version, later, b);
    var inv := (c: App) => LeftAlone(a, c);
    forall c, step | inv(c) && ByTask(step) && Device(version)(c, step).Some?
      ensures inv(Device(version)(c, step).value)
    {
      LeftAloneStep(version, a, c, step);
    }
    Runs.Stays(Device(version), INITIAL, log, later, ByTask, inv);
  }

  /** ota_api_start_task() was called at or after step n, and answered an error. */
  ghost predicate CreationFailed(log: Log, n: nat) {
    exists i :: n <= i < |log| && log[i].StartTask? && log[i].err != Ok
  }

  class Example {
    const version: string
    const defaultUrl: string
    var url: string
    var force: bool
    var pending: bool
    var slot: Machine.Slot
    ghost var log: Log
    ghost var app: App

    ghost predicate Valid()
      reads this
    {
      && LeadsTo(version, log, app) && !app.down
      && app.url == url && app.force == force && app.pending == pending && app.sys.slot == slot
    }

    constructor (version: string, defaultUrl: string)
      ensures Valid() && app == INITIAL
      ensures this.version == version && this.defaultUrl == defaultUrl
    {
      this.version, this.defaultUrl := version, defaultUrl;
      url, force, pending, slot := [], false, false, Machine.FREE;
      log, app := [], INITIAL;
      LeadsToIsExec(version, [], INITIAL);
    }

    /** A step whose effect on the fields the caller already made. */
    ghost method Record(step: Step)
      requires LeadsTo(version, log, app) && Take(version, app, step).Some? && !step.Reset?
      requires var b := Take(version, app, step).value;
               b.url == url && b.force == force && b.pending == pending && b.sys.slot == slot
      modifies `log, `app
      ensures Valid() && Some(app) == Take(version, old(app), step) && log == old(log) + [step]
    {
      LeadsOn(version, log, app, step);
      app := Take(version, app, step).value;
      log := log + [step];
    }

    /** Steps of the spawned tasks. The body is one instance, in which they wait; callers know
        only that the log stays a run, in which the console took no step. */
    method Meanwhile()
      requires Valid()
      modifies this
      ensures Valid() && old(log) <= log
      ensures forall i :: |old(log)| <= i < |log| ==> ByTask(log[i])
    {
    }

    /** The same, and what follows from it for the console. */
    method Others()
      requires Valid()
      modifies this
      ensures Valid() && old(log) <= log && app.console == old(app.console)
      ensures app.jobs.Keys == old(app.jobs.Keys) && url == old(url) && force == old(force)
      ensures pending ==> old(pending)
    {
      Meanwhile();
      TasksLeaveAlone(version, old(log), log, old(app), app);
    }

    /** The argument loop of cmd_ota(). */
    method ParseArguments(args: seq<string>) returns (wanted: string, forced: bool)
      ensures wanted == UrlOf(args, defaultUrl) && (forced <==> "force" in args)
    {
      wanted, forced := defaultUrl, false;
      for i := 0 to |args|
        invariant wanted == UrlOf(args[..i], defaultUrl)
        invariant forced <==> "force" in args[..i]
      {
        assert args[..i + 1] == args[..i] + [args[i]];
        if args[i] == "force" {
          forced := true;
        } else {
          wanted := args[i];
        }
      }
      assert args[..|args|] == args;
    }

    /** cmd_ota(). Refused while an update is pending or running, or when the URL does not fit;
        otherwise one task is started for exactly these arguments. */
    method CmdOta(args: seq<string>) returns (status: int, ghost t: nat)
      requires Valid() && app.console == Prompt
      modifies this
      ensures Valid() && app.console == Prompt && old(log) < log
      ensures status == 0 ==>
                && t !in old(app.jobs) && app.jobs.Keys == old(app.jobs.Keys) + {t}
                && app.jobs[t] == Job(UrlOf(args, defaultUrl), "force" in args, false)
                && log[|log| - 1] == StartTask(t, Ok)
                && url == UrlOf(args, defaultUrl) && |url| < 256 && pending
      ensures status != 0 ==> app.jobs.Keys == old(app.jobs.Keys)
      ensures |UrlOf(args, defaultUrl)| >= 256 ==> status != 0 && url == old(url) && force == old(force)
      ensures status != 0 && !old(pending) && |UrlOf(args, defaultUrl)| < 256 ==>
                log[|log| - 1] == LowerFlag && CreationFailed(log, |old(log)|)
    {
      t := 0;
      var wanted, forced := ParseArguments(args);
      Record(Type(wanted, forced));
      Others();
      var passed := PassesChecks(wanted, forced);
      if !passed {
        return 1, t;
      }
      status, t := Launch(wanted, forced);
    }

    /** The three refusals: pending, running, too long. */
    method PassesChecks(wanted: string, forced: bool) returns (passed: bool)
      requires Valid() && app.console == Busy(Testing, wanted, forced)
      modifies this
      ensures Valid() && old(log) < log && app.jobs.Keys == old(app.jobs.Keys)
      ensures url == old(url) && force == old(force)
      ensures app.console == if passed then Busy(Accepted, wanted, forced) else Prompt
      ensures old(pending) == false && |wanted| < OTA_URL_SIZE ==> passed
      ensures |wanted| >= OTA_URL_SIZE ==> !passed
    {
      var busy := pending;
      Record(ReadPending(busy));
      Others();
      if busy {
        return false;
      }
      Reachable(version, log, app);
      var running := slot.running;
      Record(ReadRunning(running));
      Others();
      if running {
        return false;
      }
      return |wanted| < OTA_URL_SIZE;
    }

    method WriteBuffers(wanted: string, forced: bool)
      requires Valid() && app.console == Busy(Accepted, wanted, forced)
      modifies this
      ensures Valid() && app.console == Busy(ForceWritten, wanted, forced) && old(log) < log
      ensures url == wanted && force == forced && app.jobs.Keys == old(app.jobs.Keys)
    {
      url := wanted;
      Record(WriteUrl);
      Others();
      force := forced;
      Record(WriteForce);
      Others();
    }

    /** Arguments into the shared buffers, then the flag, then ota_api_start_task(). */
    method Launch(wanted: string, forced: bool) returns (status: int, ghost t: nat)
      requires Valid() && app.console == Busy(Accepted, wanted, forced)
      modifies this
      ensures Valid() && app.console == Prompt && old(log) < log
      ensures status == 0 ==>
                && t !in old(app.jobs) && app.jobs.Keys == old(app.jobs.Keys) + {t}
                && app.jobs[t] == Job(wanted, forced, false) && log[|log| - 1] == StartTask(t, Ok)
                && url == wanted && force == forced && pending
      ensures status != 0 ==> app.jobs.Keys == old(app.jobs.Keys) && !pending
                              && log[|log| - 1] == LowerFlag && CreationFailed(log, |old(log)|)
    {
      WriteBuffers(wanted, forced);
      pending := true;
      Record(RaiseFlag);
      Others();
      status, t := CreateTask(wanted, forced);
    }

    /** ota_api_start_task() and the error path after it. */
    method CreateTask(wanted: string, forced: bool) returns (status: int, ghost t: nat)
      requires Valid() && app.console == Busy(Raised, wanted, forced)
      modifies this
      ensures Valid() && app.console == Prompt && old(log) < log
      ensures url == old(url) && force == old(force)
      ensures status == 0 ==>
                && t !in old(app.jobs) && app.jobs.Keys == old(app.jobs.Keys) + {t}
                && app.jobs[t] == Job(wanted, forced, false) && log[|log| - 1] == StartTask(t, Ok) && pending
      ensures status != 0 ==> app.jobs.Keys == old(app.jobs.Keys) && !pending
                              && log[|log| - 1] == LowerFlag && CreationFailed(log, |old(log)|)
    {
      Reachable(version, log, app);
      var err: Err := *;
      t := AboveAll(app.jobs.Keys);
      Record(StartTask(t, err));
      if err != Ok {
        ghost var i := |log| - 1;
        Others();
        pending := false;
        Record(LowerFlag);
        assert log[i].StartTask?;
        return 1, t;
      }
      return 0, t;
    }

    /** on_ota_event_cb(), called by the update of job t. It refuses the version that is running,
        unless that very command said 'force', and lets everything else pass. */
    method OnOtaEventCb(event: Event, ghost t: nat, ghost forced: bool) returns (err: Err)
      requires Valid() && t in app.jobs && t in app.sys.calls && !app.jobs[t].cleared
      requires app.sys.calls[t].at.pc == Calling(event, forced)
      modifies this
      ensures Valid() && t in app.jobs && app.jobs[t].force == old(app.jobs[t].force)
      ensures err == if event.ImageDesc? && event.desc.version == version && !app.jobs[t].force
                     then ValidateFailed else Ok
      ensures event.Failed? ==> !pending && log == old(log) + [ClearFlag(t)]
      ensures !event.Failed? ==> log == old(log) && pending
      ensures TaskStep(version, app, TaskDo(t, Verdict(event, err))).Some?
    {
      Reachable(version, log, app);
      assert Live(app, t);
      err := Ok;
      match event
      case ImageDesc(desc) =>
        if !force && desc.version == version {
          err := ValidateFailed;
        }
      case Failed(_) =>
        pending := false;
        Record(ClearFlag(t));
      case _ =>
    }

    /** cmd_abort() */
    method CmdAbort() returns (status: int)
      requires Valid() && app.console == Prompt
      modifies this
      ensures Valid() && log == old(log) + [AbortCommand(status == 0)]
      ensures status == 0 <==> old(slot.running)
      ensures slot == if status == 0 then old(slot).(abortRequested := true) else old(slot)
    {
      var accepted := slot.running;
      if accepted {
        slot := slot.(abortRequested := true);
      }
      Record(AbortCommand(accepted));
      return if accepted then 0 else 1;
    }
  }
}
