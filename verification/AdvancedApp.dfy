/** The advanced example's update protocol: the console task running 'ota' and 'abort' commands
    against the tasks ota_api_start_task() spawned, which share s_ota_url, s_force_update and
    s_ota_pending. The spawned tasks run the component itself, as modelled in UpdateMachine, with
    on_ota_event_cb as their callback. */
module AdvancedApp {
  import opened Esp
  import opened UpdateCall
  import Machine = UpdateMachine
  import Runs

  const OTA_URL_SIZE: nat := 256
  const PROGRESS_INTERVAL_MS: uint32 := 250

  /** An accepted command, and whether its FAILED event has lowered the flag. */
  datatype Job = Job(url: string, force: bool, cleared: bool)
  {
    function AsRequest(): Request {
      Request(Some(url), true, PROGRESS_INTERVAL_MS)
    }
  }

  /** Where cmd_ota is, after it has parsed its arguments. */
  datatype Stage = Testing | TestingSlot | Accepted | UrlWritten | ForceWritten | Raised | Lowering

  datatype Console = Prompt | Busy(stage: Stage, url: string, force: bool)

  datatype App = App(sys: Machine.System, url: string, force: bool, pending: bool,
                     console: Console, jobs: map<nat, Job>, down: bool)

  datatype Step =
    | Type(url: string, force: bool)
    | ReadPending(answer: bool)
    | ReadRunning(answer: bool)
    | WriteUrl
    | WriteForce
    | RaiseFlag
    | StartTask(t: nat, err: Err)
    | LowerFlag
    | AbortCommand(accepted: bool)
    | TaskEnter(t: nat)
    | TaskDo(t: nat, e: Label)
    | ClearFlag(t: nat)
    | Reset

  const INITIAL: App := App(Machine.INITIAL, [], false, false, Prompt, map[], false)

  /** What on_ota_event_cb returns. */
  function CallbackAnswer(event: Event, force: bool, runningVersion: string): Err {
    if event.ImageDesc? && !force && event.desc.version == runningVersion then ValidateFailed else Ok
  }

  predicate At(a: App, stage: Stage) {
    a.console.Busy? && a.console.stage == stage
  }

  function Move(a: App, stage: Stage): App
    requires a.console.Busy?
  {
    a.(console := a.console.(stage := stage))
  }

  /** A step of the console task. */
  function Command(a: App, step: Step): Option<App> {
    match step
    case Type(url, force) =>
      if a.console != Prompt then None else Some(a.(console := Busy(Testing, url, force)))
    case ReadPending(answer) =>
      if !At(a, Testing) || answer != a.pending then None
      else Some(if answer then a.(console := Prompt) else Move(a, TestingSlot))
    case ReadRunning(answer) =>
      if !At(a, TestingSlot) || answer != a.sys.slot.running then None
      else Some(if answer || |a.console.url| >= OTA_URL_SIZE then a.(console := Prompt) else Move(a, Accepted))
    case WriteUrl =>
      if !At(a, Accepted) then None else Some(Move(a, UrlWritten).(url := a.console.url))
    case WriteForce =>
      if !At(a, UrlWritten) then None else Some(Move(a, ForceWritten).(force := a.console.force))
    case RaiseFlag =>
      if !At(a, ForceWritten) then None else Some(Move(a, Raised).(pending := true))
    case StartTask(t, err) =>
      if !At(a, Raised) || t in a.jobs then None
      else Some(if err != Ok then Move(a, Lowering)
                else a.(console := Prompt, jobs := a.jobs[t := Job(a.console.url, a.console.force, false)]))
    case LowerFlag =>
      if !At(a, Lowering) then None else Some(a.(console := Prompt, pending := false))
    case AbortCommand(accepted) =>
      if a.console != Prompt || Machine.Take(a.sys, Machine.Abort(accepted)).None? then None
      else Some(a.(sys := Machine.Take(a.sys, Machine.Abort(accepted)).value))
    case _ => None
  }

  /** A step of a spawned task. The callback lowers the flag before it returns from FAILED. */
  function TaskStep(version: string, a: App, step: Step): Option<App> {
    match step
    case TaskEnter(t) =>
      if t !in a.jobs || t in a.sys.calls then None
      else Some(a.(sys := Machine.Take(a.sys, Machine.Enter(t, a.jobs[t].AsRequest())).value))
    case TaskDo(t, e) =>
      if t !in a.jobs || Machine.Take(a.sys, Machine.Do(t, e)).None? then None
      else if e.Verdict? && (e.err != CallbackAnswer(e.event, a.force, version)
                             || (e.event.Failed? && !a.jobs[t].cleared)) then None
      else Some(a.(sys := Machine.Take(a.sys, Machine.Do(t, e)).value))
    case ClearFlag(t) =>
      if t !in a.jobs || a.jobs[t].cleared || !InFailedCallback(a, t) then None
      else Some(a.(pending := false, jobs := a.jobs[t := a.jobs[t].(cleared := true)]))
    case _ => None
  }

  predicate InFailedCallback(a: App, t: nat) {
    t in a.sys.calls && a.sys.calls[t].at.pc.Calling? && a.sys.calls[t].at.pc.event.Failed?
  }

  function Take(version: string, a: App, step: Step): Option<App> {
    if a.down then None
    else if step.Reset? then Some(a.(down := true))
    else if step.TaskEnter? || step.TaskDo? || step.ClearFlag? then TaskStep(version, a, step)
    else Command(a, step)
  }

  type Log = seq<Step>

  /** The device with this firmware version running. */
  function Device(version: string): (App, Step) -> Option<App> {
    (a, step) => Take(version, a, step)
  }

  function Exec(version: string, log: Log): Option<App> {
    Runs.Fold(Device(version), INITIAL, log)
  }

  // --- The invariant ---

  /** A command whose update is not over yet. */
  predicate Live(a: App, t: nat) {
    t in a.jobs && !a.jobs[t].cleared
  }

  predicate Refused(pc: Pc) {
    pc.Returned? && pc.err != Ok
  }

  /** Call t belongs to job t and has come as far as the job says. */
  predicate Matches(job: Job, call: Machine.Call) {
    && call.req == job.AsRequest()
    && (if job.cleared then Refused(call.at.pc) || (call.at.pc.Calling? && call.at.pc.event.Failed?)
        else !Refused(call.at.pc))
  }

  ghost predicate JobsMatch(a: App) {
    && (forall c :: c in a.sys.calls ==> c in a.jobs && Matches(a.jobs[c], a.sys.calls[c]))
    && (forall t :: t in a.jobs && a.jobs[t].cleared ==> t in a.sys.calls)
  }

  ghost predicate Protocol(a: App) {
    && (forall s, t :: Live(a, s) && Live(a, t) ==> s == t)
    && (forall t :: Live(a, t) ==>
          && a.url == a.jobs[t].url && a.force == a.jobs[t].force && a.pending
          && (a.console.Prompt? || At(a, Testing)))
    && (a.pending ==> At(a, Raised) || At(a, Lowering) || exists t :: Live(a, t))
    && (At(a, Raised) || At(a, Lowering) ==> a.pending)
    && (At(a, UrlWritten) || At(a, ForceWritten) || At(a, Raised) ==> a.url == a.console.url)
    && (At(a, ForceWritten) || At(a, Raised) ==> a.force == a.console.force)
    && (At(a, Accepted) ==> |a.console.url| < OTA_URL_SIZE)
  }

  ghost predicate Sound(a: App) {
    Machine.Consistent(a.sys) && JobsMatch(a) && Protocol(a)
  }

  /** Only a live job can be in the slot. */
  lemma SlotMeansLive(a: App, c: nat)
    requires Sound(a) && Machine.InSlot(a.sys, c)
    ensures Live(a, c)
  {
  }

  /** When the flag is down nobody is updating, so asking the component adds nothing. */
  lemma FlagCoversSlot(a: App)
    requires Sound(a) && !a.pending
    ensures !a.sys.slot.running
  {
    if a.sys.slot.running {
      var c :| Machine.InSlot(a.sys, c);
      SlotMeansLive(a, c);
    }
  }

  /** A job about to claim finds the slot free. */
  lemma ClaimGranted(a: App, t: nat)
    requires Sound(a) && t in a.sys.calls && a.sys.calls[t].at.pc == Claiming
    ensures !a.sys.slot.running
  {
    assert Live(a, t) && !Machine.InSlot(a.sys, t);
    if a.sys.slot.running {
      var c :| Machine.InSlot(a.sys, c);
      SlotMeansLive(a, c);
    }
  }

  /** The protocol does not look into the component. */
  lemma SameProtocol(a: App, b: App)
    requires Protocol(a) && b == a.(sys := b.sys)
    ensures Protocol(b)
  {
    assert forall s :: Live(b, s) <==> Live(a, s);
    if a.pending && exists t :: Live(a, t) {
      var t :| Live(a, t);
      assert Live(b, t);
    }
  }

  lemma StartSound(a: App, t: nat, err: Err)
    requires Sound(a) && Command(a, StartTask(t, err)).Some?
    ensures Sound(Command(a, StartTask(t, err)).value)
  {
    var b := Command(a, StartTask(t, err)).value;
    if err == Ok {
      assert forall s :: Live(b, s) <==> s == t || Live(a, s);
      assert Live(b, t);
      assert t !in a.sys.calls;
    } else {
      assert forall s :: Live(b, s) <==> Live(a, s);
    }
  }

  /** The two tests of a command, and its typing: nothing shared changes. */
  lemma TestSound(a: App, step: Step)
    requires Sound(a) && (step.Type? || step.ReadPending? || step.ReadRunning?) && Command(a, step).Some?
    ensures Sound(Command(a, step).value)
  {
    var b := Command(a, step).value;
    assert b == a.(console := b.console);
    assert forall s :: Live(b, s) <==> Live(a, s);
    if a.pending && exists t :: Live(a, t) {
      var t :| Live(a, t);
      assert Live(b, t);
    }
  }

  /** The writes of a command happen while nobody is live. */
  lemma WriteSound(a: App, step: Step)
    requires Sound(a) && (step.WriteUrl? || step.WriteForce? || step.RaiseFlag? || step.LowerFlag?)
    requires Command(a, step).Some?
    ensures Sound(Command(a, step).value)
  {
    var b := Command(a, step).value;
    assert b.jobs == a.jobs && b.sys == a.sys;
    assert forall s :: !Live(a, s);
    assert forall s :: !Live(b, s);
  }

  lemma CommandSound(a: App, step: Step)
    requires Sound(a) && Command(a, step).Some?
    ensures Sound(Command(a, step).value)
  {
    match step
    case AbortCommand(accepted) =>
      Machine.Preserved(a.sys, Machine.Abort(accepted));
      SameProtocol(a, Command(a, step).value);
    case StartTask(t, err) => StartSound(a, t, err);
    case Type(_, _) => TestSound(a, step);
    case ReadPending(_) => TestSound(a, step);
    case ReadRunning(_) => TestSound(a, step);
    case _ => WriteSound(a, step);
  }

  /** How a call can come to return an error: refused at the claim, or after FAILED. */
  lemma RefusalPaths(req: Request, l: Local, e: Label)
    requires req.Accepted() && req.hasCallback && Next(req, l, e).Some?
    ensures Refused(Next(req, l, e).value.pc) ==>
              e == Claim(false) || (e.Verdict? && e.event.Failed? && l.pc.Calling? && l.pc.event == e.event)
    ensures l.pc.Calling? && l.pc.event.Failed? && (l.pc.event.err != Ok) ==>
              Refused(Next(req, l, e).value.pc) && e.Verdict? && e.event == l.pc.event
    ensures !Refused(l.pc)
  {
  }

  lemma FailedIsAnError(a: App, t: nat)
    requires Machine.Consistent(a.sys) && JobsMatch(a) && InFailedCallback(a, t)
    ensures a.sys.calls[t].at.pc.event.err != Ok
  {
    var call := a.sys.calls[t];
    FailuresFollowPc(call.req, call.hist, call.at);
  }

  lemma NoRefusedClaim(version: string, a: App, t: nat, e: Label)
    requires Sound(a) && TaskStep(version, a, TaskDo(t, e)).Some?
    ensures e != Claim(false)
  {
    if e.Claim? {
      NeverClaimingAgain(a.sys.calls[t].req, a.sys.calls[t].at, e);
      ClaimGranted(a, t);
    }
  }

  lemma CallMatches(job: Job, call: Machine.Call, e: Label)
    requires Matches(job, call) && Next(call.req, call.at, e).Some? && e != Claim(false)
    requires e.Verdict? && e.event.Failed? ==> job.cleared
    requires call.at.pc.Calling? && call.at.pc.event.Failed? ==> call.at.pc.event.err != Ok
    ensures Matches(job, call.After(e))
  {
    RefusalPaths(call.req, call.at, e);
  }

  lemma TaskDoMatches(version: string, a: App, t: nat, e: Label)
    requires Sound(a) && TaskStep(version, a, TaskDo(t, e)).Some?
    ensures JobsMatch(TaskStep(version, a, TaskDo(t, e)).value)
    ensures e != Claim(false)
  {
    NoRefusedClaim(version, a, t, e);
    if InFailedCallback(a, t) {
      FailedIsAnError(a, t);
    }
    CallMatches(a.jobs[t], a.sys.calls[t], e);
  }

  lemma ClearSound(version: string, a: App, t: nat)
    requires Sound(a) && TaskStep(version, a, ClearFlag(t)).Some?
    ensures Sound(TaskStep(version, a, ClearFlag(t)).value)
  {
    var b := TaskStep(version, a, ClearFlag(t)).value;
    assert Live(a, t);
    assert forall s :: Live(b, s) <==> Live(a, s) && s != t;
  }

  lemma EnterSound(version: string, a: App, t: nat)
    requires Sound(a) && TaskStep(version, a, TaskEnter(t)).Some?
    ensures Sound(TaskStep(version, a, TaskEnter(t)).value)
  {
    Machine.Preserved(a.sys, Machine.Enter(t, a.jobs[t].AsRequest()));
    SameProtocol(a, TaskStep(version, a, TaskEnter(t)).value);
  }

  lemma DoSound(version: string, a: App, t: nat, e: Label)
    requires Sound(a) && TaskStep(version, a, TaskDo(t, e)).Some?
    ensures Sound(TaskStep(version, a, TaskDo(t, e)).value)
  {
    Machine.Preserved(a.sys, Machine.Do(t, e));
    TaskDoMatches(version, a, t, e);
    SameProtocol(a, TaskStep(version, a, TaskDo(t, e)).value);
  }

  lemma TaskSound(version: string, a: App, step: Step)
    requires Sound(a) && TaskStep(version, a, step).Some?
    ensures Sound(TaskStep(version, a, step).value)
  {
    match step
    case TaskEnter(t) => EnterSound(version, a, t);
    case TaskDo(t, e) => DoSound(version, a, t, e);
    case ClearFlag(t) => ClearSound(version, a, t);
  }

  lemma {:induction false} AlwaysSound(version: string, log: Log)
    requires Exec(version, log).Some?
    ensures Sound(Exec(version, log).value)
  {
    if log != [] {
      var p := log[..|log| - 1];
      AlwaysSound(version, p);
      StepSound(version, Exec(version, p).value, log[|log| - 1]);
    }
  }

  lemma StepSound(version: string, a: App, step: Step)
    requires Sound(a) && Take(version, a, step).Some?
    ensures Sound(Take(version, a, step).value)
  {
    if step.Reset? {
      var b := Take(version, a, step).value;
      assert forall t :: Live(b, t) <==> Live(a, t);
    } else if step.TaskEnter? || step.TaskDo? || step.ClearFlag? {
      TaskSound(version, a, step);
    } else {
      CommandSound(a, step);
    }
  }

  // --- What the protocol promises ---

  lemma ExecAt(version: string, log: Log, n: nat) returns (a: App)
    requires n < |log| && Exec(version, log).Some?
    ensures Exec(version, log[..n]) == Some(a) && Sound(a)
    ensures Exec(version, log[..n + 1]).Some? && Exec(version, log[..n + 1]) == Take(version, a, log[n])
  {
    a := Runs.At(Device(version), INITIAL, log, n);
    AlwaysSound(version, log[..n]);
  }

  /** The spawned task's claim is never refused. */
  lemma ClaimNeverRefused(version: string, log: Log, n: nat)
    requires Exec(version, log).Some? && n < |log| && log[n].TaskDo? && log[n].e.Claim?
    ensures log[n].e.granted
  {
    var a := ExecAt(version, log, n);
    TaskDoMatches(version, a, log[n].t, log[n].e);
  }

  /** The job of an accepted command keeps the arguments the command was typed with. */
  lemma {:induction false} JobKept(version: string, log: Log, t: nat, i: nat)
    requires Exec(version, log).Some? && i < |log| && log[i] == StartTask(t, Ok)
    ensures Exec(version, log[..i]).Some? && Exec(version, log[..i]).value.console.Busy?
    ensures t in Exec(version, log).value.jobs
    ensures var c := Exec(version, log[..i]).value.console;
            var job := Exec(version, log).value.jobs[t];
            && job.url == c.url && job.force == c.force
            && (job.cleared <==> exists k: nat :: i < k < |log| && log[k] == ClearFlag(t))
    decreases |log|
  {
    var p := log[..|log| - 1];
    if i < |log| - 1 {
      JobKept(version, p, t, i);
      assert p[..i] == log[..i];
      ClearedGrows(log, t, i);
      JobStep(version, Exec(version, p).value, log[|log| - 1], t);
    } else {
      assert log[..i] == p;
    }
  }

  lemma JobStep(version: string, a: App, step: Step, t: nat)
    requires Take(version, a, step).Some? && t in a.jobs
    ensures var b := Take(version, a, step).value;
            && t in b.jobs && b.jobs[t].url == a.jobs[t].url && b.jobs[t].force == a.jobs[t].force
            && (b.jobs[t].cleared <==> a.jobs[t].cleared || step == ClearFlag(t))
  {
  }

  lemma ClearedGrows(log: Log, t: nat, i: nat)
    requires i < |log| - 1
    ensures var p := log[..|log| - 1];
            (exists k: nat :: i < k < |log| && log[k] == ClearFlag(t))
            <==> (exists k: nat :: i < k < |p| && p[k] == ClearFlag(t)) || log[|log| - 1] == ClearFlag(t)
  {
    var p := log[..|log| - 1];
    if exists k: nat :: i < k < |p| && p[k] == ClearFlag(t) {
      var k: nat :| i < k < |p| && p[k] == ClearFlag(t);
      assert log[k] == ClearFlag(t);
    }
    if exists k: nat :: i < k < |log| && log[k] == ClearFlag(t) {
      var k: nat :| i < k < |log| && log[k] == ClearFlag(t);
      assert k == |p| || p[k] == ClearFlag(t);
    }
  }

  /** From acceptance until its FAILED event or a reset, the URL and the force flag stay what the
      command was given, and no other command or task gets to write them. */
  lemma BufferStable(version: string, log: Log, t: nat, i: nat, j: nat)
    requires Exec(version, log).Some? && i < j <= |log| && log[i] == StartTask(t, Ok)
    requires forall k :: i < k < j ==> log[k] != ClearFlag(t)
    ensures Exec(version, log[..i]).Some? && Exec(version, log[..i]).value.console.Busy?
    ensures Exec(version, log[..j]).Some?
    ensures var c := Exec(version, log[..i]).value.console;
            var a := Exec(version, log[..j]).value;
            && a.url == c.url && a.force == c.force && a.pending
            && (j < |log| ==> log[j] != WriteUrl && log[j] != WriteForce && log[j] != RaiseFlag && log[j] != LowerFlag)
  {
    Runs.Prefix(Device(version), INITIAL, log, j);
    AlwaysSound(version, log[..j]);
    JobKept(version, log[..j], t, i);
    assert log[..j][..i] == log[..i];
    var a := Exec(version, log[..j]).value;
    assert Live(a, t);
    if j < |log| {
      var b := ExecAt(version, log, j);
    }
  }

  /** The command a spawned update belongs to. */
  lemma {:induction false} StartedBy(version: string, log: Log, t: nat) returns (i: nat)
    requires Exec(version, log).Some? && t in Exec(version, log).value.jobs
    ensures i < |log| && log[i] == StartTask(t, Ok)
  {
    var p := log[..|log| - 1];
    if t in Exec(version, p).value.jobs {
      i := StartedBy(version, p, t);
    } else {
      i := |log| - 1;
    }
  }

  /** The command in progress is the one typed last, word for word. */
  lemma {:induction false} CommandTyped(version: string, log: Log) returns (k: nat)
    requires Exec(version, log).Some? && Exec(version, log).value.console.Busy?
    ensures var c := Exec(version, log).value.console; k < |log| && log[k] == Type(c.url, c.force)
    ensures forall m :: k < m < |log| ==> !log[m].Type?
  {
    var last := log[|log| - 1];
    if last.Type? {
      k := |log| - 1;
    } else {
      var p := log[..|log| - 1];
      SameCommand(version, Exec(version, p).value, last);
      k := CommandTyped(version, p);
    }
  }

  lemma SameCommand(version: string, a: App, step: Step)
    requires Take(version, a, step).Some? && !step.Type? && Take(version, a, step).value.console.Busy?
    ensures var c := Take(version, a, step).value.console;
            a.console.Busy? && c.url == a.console.url && c.force == a.console.force
  {
  }

  /** What the update of job t did, read off the log. */
  function Did(log: Log, t: nat): History {
    if log == [] then []
    else
      var last := log[|log| - 1];
      Did(log[..|log| - 1], t) + if last.TaskDo? && last.t == t then [last.e] else []
  }

  lemma {:induction false} HistoryIsDid(version: string, log: Log, t: nat)
    requires Exec(version, log).Some?
    ensures var calls := Exec(version, log).value.sys.calls;
            Did(log, t) == if t in calls then calls[t].hist else []
  {
    if log != [] {
      HistoryIsDid(version, log[..|log| - 1], t);
      DidStep(version, Exec(version, log[..|log| - 1]).value, log[|log| - 1], t);
    }
  }

  lemma DidStep(version: string, a: App, step: Step, t: nat)
    requires Take(version, a, step).Some?
    ensures var calls := Take(version, a, step).value.sys.calls;
            (if t in calls then calls[t].hist else [])
            == (if t in a.sys.calls then a.sys.calls[t].hist else [])
               + if step.TaskDo? && step.t == t then [step.e] else []
  {
  }

  /** The update of a command is configured with exactly what the command asked for: its URL, the
      callback, and the example's progress interval. */
  lemma RequestIsTheCommands(version: string, log: Log, t: nat) returns (i: nat)
    requires Exec(version, log).Some? && t in Exec(version, log).value.sys.calls
    ensures i < |log| && log[i] == StartTask(t, Ok)
    ensures Exec(version, log[..i]).Some? && Exec(version, log[..i]).value.console.Busy?
    ensures Exec(version, log).value.sys.calls[t].req
            == Request(Some(Exec(version, log[..i]).value.console.url), true, 250)
  {
    AlwaysSound(version, log);
    i := StartedBy(version, log, t);
    JobKept(version, log, t, i);
  }

  /** The application's answers, all of them: it refuses the descriptor of the version it runs,
      unless the command of that very update said 'force', and lets every other event pass. */
  lemma VetoExactly(version: string, log: Log, n: nat) returns (i: nat)
    requires Exec(version, log).Some? && n < |log| && log[n].TaskDo? && log[n].e.Verdict?
    ensures i < n && log[i] == StartTask(log[n].t, Ok)
    ensures Exec(version, log[..i]).Some? && Exec(version, log[..i]).value.console.Busy?
    ensures var event, force := log[n].e.event, Exec(version, log[..i]).value.console.force;
            && (log[n].e.err != Ok <==> event.ImageDesc? && event.desc.version == version && !force)
            && (log[n].e.err != Ok ==> log[n].e.err == ValidateFailed)
  {
    var t := log[n].t;
    var a := ExecAt(version, log, n);
    i := StartedBy(version, log[..n], t);
    JobKept(version, log[..n], t, i);
    assert log[..n][..i] == log[..i];
    VerdictIs(version, a, t, log[n].e);
  }

  lemma VerdictIs(version: string, a: App, t: nat, e: Label)
    requires Sound(a) && TaskStep(version, a, TaskDo(t, e)).Some? && e.Verdict?
    ensures t in a.jobs
    ensures e.err == if e.event.ImageDesc? && e.event.desc.version == version && !a.jobs[t].force
                     then ValidateFailed else Ok
  {
    if e.event.ImageDesc? {
      VerdictIsLive(version, a, t, e);
    }
  }

  /** The version check of a command's update is about the descriptor that was just read from the
      image on offer, and obeys that command's own 'force'. */
  lemma ForceIsTheCommands(version: string, log: Log, i: nat, n: nat)
    requires Exec(version, log).Some? && i < n < |log| && log[n].TaskDo? && log[i] == StartTask(log[n].t, Ok)
    requires log[n].e.Verdict? && log[n].e.event.ImageDesc?
    ensures Exec(version, log[..i]).Some? && Exec(version, log[..i]).value.console.Busy?
    ensures var force, desc := Exec(version, log[..i]).value.console.force, log[n].e.event.desc;
            && log[n].e.err == (if !force && desc.version == version then ValidateFailed else Ok)
            && var did := Did(log[..n], log[n].t);
               |did| >= 2 && did[|did| - 2..] == [GetDesc(Ok, desc), Emit(ImageDesc(desc), false)]
  {
    var t := log[n].t;
    var a := ExecAt(version, log, n);
    JobKept(version, log[..n], t, i);
    assert log[..n][..i] == log[..i];
    VerdictIs(version, a, t, log[n].e);
    HistoryIsDid(version, log[..n], t);
    AskedAbout(version, a, t, log[n].e);
  }

  lemma AskedAbout(version: string, a: App, t: nat, e: Label)
    requires Sound(a) && TaskStep(version, a, TaskDo(t, e)).Some? && e.Verdict? && e.event.ImageDesc?
    ensures t in a.sys.calls
    ensures var did := a.sys.calls[t].hist;
            |did| >= 2 && did[|did| - 2..] == [GetDesc(Ok, e.event.desc), Emit(e.event, false)]
  {
    DescBefore(a.sys.calls[t].req, a.sys.calls[t].hist, e);
  }

  lemma DescBefore(req: Request, h: History, e: Label)
    requires Run(req, h).Some? && Next(req, Run(req, h).value, e).Some? && e.Verdict? && e.event.ImageDesc?
    ensures |h| >= 2 && h[|h| - 2..] == [GetDesc(Ok, e.event.desc), Emit(e.event, false)]
  {
    CalledAfterEmit(req, h);
    EmittedAfter(req, h[..|h| - 1]);
  }

  lemma VerdictIsLive(version: string, a: App, t: nat, e: Label)
    requires Sound(a) && TaskStep(version, a, TaskDo(t, e)).Some? && e.Verdict? && e.event.ImageDesc?
    ensures Live(a, t) && e.err == CallbackAnswer(e.event, a.jobs[t].force, version)
  {
  }

  /** Announcements in a list of events. */
  function Terminals(es: seq<Event>): nat {
    if es == [] then 0 else Terminals(es[..|es| - 1]) + if es[|es| - 1].Terminal() then 1 else 0
  }

  lemma {:induction false} OpeningHasNone(es: seq<Event>)
    requires Opening(es)
    ensures Terminals(es) == 0
  {
    if es != [] {
      OpeningHasNone(es[..|es| - 1]);
      assert !es[|es| - 1].Terminal();
    }
  }

  /** Every accepted command whose update is over got exactly one terminal event, of the value
      the update returned; a failure lowered the flag, so the next command can be accepted. */
  lemma OneTerminalEvent(version: string, log: Log, t: nat)
    requires Exec(version, log).Some? && t in Exec(version, log).value.sys.calls
    requires Exec(version, log).value.sys.calls[t].at.pc.Returned?
    ensures var a := Exec(version, log).value;
            var call := a.sys.calls[t];
            var es := Events(call.hist);
            && Terminals(es) == 1 && es[|es| - 1] == Announcement(call.at.pc.err)
            && t in a.jobs && (a.jobs[t].cleared <==> call.at.pc.err != Ok)
  {
    AlwaysSound(version, log);
    NeverRefusedHistory(version, log, t);
    OneAnnouncement(Exec(version, log).value, t);
  }

  lemma OneAnnouncement(a: App, t: nat)
    requires Sound(a) && t in a.sys.calls && a.sys.calls[t].at.pc.Returned? && Claim(false) !in a.sys.calls[t].hist
    ensures var call := a.sys.calls[t];
            var es := Events(call.hist);
            && Terminals(es) == 1 && es[|es| - 1] == Announcement(call.at.pc.err)
            && t in a.jobs && (a.jobs[t].cleared <==> call.at.pc.err != Ok)
  {
    var call := a.sys.calls[t];
    EventLanguage(call.req, call.hist);
    var es := Events(call.hist);
    assert es != [] by {
      assert call.hist != [Claim(false)];
    }
    OpeningHasNone(es[..|es| - 1]);
  }

  lemma {:induction false} NeverRefusedHistory(version: string, log: Log, t: nat)
    requires Exec(version, log).Some?
    ensures t in Exec(version, log).value.sys.calls ==> Claim(false) !in Exec(version, log).value.sys.calls[t].hist
  {
    if log != [] {
      var p := log[..|log| - 1];
      NeverRefusedHistory(version, p, t);
      AlwaysSound(version, p);
      var a, step := Exec(version, p).value, log[|log| - 1];
      if step.TaskDo? {
        TaskDoMatches(version, a, step.t, step.e);
      }
      NotRefusedStep(version, a, step, t);
    }
  }

  lemma NotRefusedStep(version: string, a: App, step: Step, t: nat)
    requires Take(version, a, step).Some? && !(step.TaskDo? && step.e == Claim(false))
    requires t in a.sys.calls ==> Claim(false) !in a.sys.calls[t].hist
    ensures var b := Take(version, a, step).value;
            t in b.sys.calls ==> Claim(false) !in b.sys.calls[t].hist
  {
    match step
    case TaskDo(c, e) => RefusedByDo(a.sys, c, e, t);
    case TaskEnter(_) =>
    case ClearFlag(_) =>
    case AbortCommand(_) =>
    case _ => assert Take(version, a, step).value.sys == a.sys;
  }

  lemma RefusedByDo(s: Machine.System, c: nat, e: Label, t: nat)
    requires Machine.Take(s, Machine.Do(c, e)).Some? && e != Claim(false)
    requires t in s.calls ==> Claim(false) !in s.calls[t].hist
    ensures var calls := Machine.Take(s, Machine.Do(c, e)).value.calls;
            t in calls ==> Claim(false) !in calls[t].hist
  {
  }

  /** At most one command is being worked on, and the flag is up exactly while one is, or while
      cmd_ota is between raising it and learning whether a FreeRTOS task could be created. */
  lemma FlagMeansWork(version: string, log: Log)
    requires Exec(version, log).Some?
    ensures var a := Exec(version, log).value;
            && (forall s, t :: Live(a, s) && Live(a, t) ==> s == t)
            && (a.pending <==> At(a, Raised) || At(a, Lowering) || exists t :: Live(a, t))
            && (a.sys.slot.running ==> a.pending)
  {
    AlwaysSound(version, log);
    var a := Exec(version, log).value;
    if a.sys.slot.running && !a.pending {
      FlagCoversSlot(a);
    }
  }
}
