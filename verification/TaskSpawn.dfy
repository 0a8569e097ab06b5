/** ota_api_start_task() and the body of ota_task: who owns the heap copy of the
    configuration. Any number of start calls interleave with the tasks they create, and a task
    may run, and finish, before its creator returns. */
module TaskSpawn {
  import opened Esp
  import Runs
  import C = UpdateCall
  import Machine = UpdateMachine
  import opened UpdateCode

  datatype Creator = Allocating | Filled | Discarding | Handing | Returned(err: Err)
  datatype Task = Absent | Ready | Copied | Updating

  /** One start call, with the configuration it was given, and the ota_task it creates. */
  datatype Spawn = Spawn(creator: Creator, task: Task, config: C.Request)
  {
    /** Somebody still has to free the copy. */
    predicate Owes() {
      creator.Filled? || creator.Discarding? || task.Ready? || task.Copied?
    }
  }

  datatype Action =
    | Malloc(ok: bool)
    | Create(ok: bool)
    | FreeUnused
    | Return
    | CopyOut
    | FreeArg

  datatype Step = Enter(s: nat, config: C.Request) | Do(s: nat, a: Action)

  type System = map<nat, Spawn>

  function Next(p: Spawn, a: Action): Option<Spawn> {
    match a
    case Malloc(ok) =>
      if p.creator != Allocating then None
      else Some(p.(creator := if ok then Filled else Returned(NoMem)))
    case Create(ok) =>
      if p.creator != Filled then None
      else Some(if ok then Spawn(Handing, Ready, p.config) else p.(creator := Discarding))
    case FreeUnused => if p.creator != Discarding then None else Some(p.(creator := Returned(NoMem)))
    case Return => if p.creator != Handing then None else Some(p.(creator := Returned(Ok)))
    case CopyOut => if p.task != Ready then None else Some(p.(task := Copied))
    case FreeArg => if p.task != Copied then None else Some(p.(task := Updating))
  }

  function Take(m: System, step: Step): Option<System> {
    match step
    case Enter(s, config) =>
      if s in m then None
      else Some(m[s := Spawn(if config.Accepted() then Allocating else Returned(InvalidArg), Absent, config)])
    case Do(s, a) =>
      if s !in m || Next(m[s], a).None? then None else Some(m[s := Next(m[s], a).value])
  }

  type Log = seq<Step>

  function Exec(log: Log): Option<System> {
    Runs.Fold(Take, map[], log)
  }

  predicate Allocates(step: Step) {
    step.Do? && step.a == Malloc(true)
  }

  predicate Frees(step: Step) {
    step.Do? && (step.a.FreeUnused? || step.a.FreeArg?)
  }

  function Allocations(log: Log): nat {
    if log == [] then 0 else Allocations(log[..|log| - 1]) + if Allocates(log[|log| - 1]) then 1 else 0
  }

  function Freed(log: Log): nat {
    if log == [] then 0 else Freed(log[..|log| - 1]) + if Frees(log[|log| - 1]) then 1 else 0
  }

  /** The copies somebody still has to free. */
  function Owed(m: System): set<nat> {
    set s | s in m && m[s].Owes()
  }

  /** Which party has which claim on the copy. */
  predicate Sane(p: Spawn) {
    && (p.task == Absent <==> !p.creator.Handing? && p.creator != Returned(Ok))
  }

  ghost predicate AllSane(m: System) {
    forall s :: s in m ==> Sane(m[s])
  }

  lemma {:induction false} AlwaysSane(log: Log)
    requires Exec(log).Some?
    ensures AllSane(Exec(log).value)
  {
    if log != [] {
      AlwaysSane(log[..|log| - 1]);
    }
  }

  lemma OwedStep(m: System, step: Step)
    requires AllSane(m) && Take(m, step).Some?
    ensures Owed(Take(m, step).value)
            == if Allocates(step) then Owed(m) + {step.s} else if Frees(step) then Owed(m) - {step.s} else Owed(m)
    ensures Allocates(step) ==> step.s !in Owed(m)
    ensures Frees(step) || (step.Do? && step.a.CopyOut?) ==> step.s in Owed(m)
  {
  }

  /** Nothing leaks: at every moment the allocations are the frees plus the copies held by a
      start call in progress or by a task that has not freed its argument yet. */
  lemma {:induction false} CopiesConserved(log: Log)
    requires Exec(log).Some?
    ensures Allocations(log) == Freed(log) + |Owed(Exec(log).value)|
  {
    if log != [] {
      var p := log[..|log| - 1];
      CopiesConserved(p);
      AlwaysSane(p);
      OwedStep(Exec(p).value, log[|log| - 1]);
    }
  }

  /** Call s has freed its copy, or never had one. */
  predicate Done(m: System, s: nat) {
    s in m && !m[s].Owes() && !m[s].creator.Allocating?
  }

  lemma DoneForGood(m: System, s: nat, step: Step)
    requires AllSane(m) && Done(m, s) && Take(m, step).Some?
    ensures Done(Take(m, step).value, s)
    ensures step.Do? && step.s == s ==> step.a == Return
  {
  }

  lemma {:induction false} DoneSince(log: Log, i: nat)
    requires Exec(log).Some? && i < |log| && Frees(log[i])
    ensures Done(Exec(log).value, log[i].s)
    decreases |log|
  {
    var p := log[..|log| - 1];
    AlwaysSane(p);
    if i < |log| - 1 {
      DoneSince(p, i);
      DoneForGood(Exec(p).value, log[i].s, log[|log| - 1]);
    }
  }

  /** Once freed, a copy is neither freed again nor read. */
  lemma FreedOnceNeverRead(log: Log, i: nat, j: nat)
    requires Exec(log).Some? && i < j < |log| && Frees(log[i])
    requires log[j].Do? && log[j].s == log[i].s
    ensures !Frees(log[j]) && log[j].a != CopyOut
  {
    var m := Runs.At(Take, map[], log, j);
    DoneSince(log[..j], i);
    AlwaysSane(log[..j]);
    DoneForGood(Exec(log[..j]).value, log[i].s, log[j]);
  }

  /** A copy is only read or freed after it was allocated, by the party the log says owns it. */
  lemma {:induction false} AllocatedFirst(log: Log, s: nat)
    requires Exec(log).Some? && s in Owed(Exec(log).value)
    ensures exists i :: 0 <= i < |log| && log[i] == Do(s, Malloc(true))
  {
    var p := log[..|log| - 1];
    AlwaysSane(p);
    OwedStep(Exec(p).value, log[|log| - 1]);
    if s in Owed(Exec(p).value) {
      AllocatedFirst(p, s);
      var i :| 0 <= i < |p| && p[i] == Do(s, Malloc(true));
      assert log[i] == p[i];
    }
  }

  /** How often start call s allocated a copy. */
  function MallocsOf(log: Log, s: nat): nat {
    if log == [] then 0
    else MallocsOf(log[..|log| - 1], s) + if Allocates(log[|log| - 1]) && log[|log| - 1].s == s then 1 else 0
  }

  /** How often that copy was freed. */
  function FreesOf(log: Log, s: nat): nat {
    if log == [] then 0
    else FreesOf(log[..|log| - 1], s) + if Frees(log[|log| - 1]) && log[|log| - 1].s == s then 1 else 0
  }

  /** Has allocated, or can no longer do so without having. */
  predicate MayAllocate(m: System, s: nat) {
    s !in m || m[s].creator.Allocating?
  }

  /** Nothing of one call leaks either: it allocates once at most, and has freed that copy once
      unless it, or its task, still owes the free. */
  lemma {:induction false} CopyAccounts(log: Log, s: nat)
    requires Exec(log).Some?
    ensures MallocsOf(log, s) == FreesOf(log, s) + if s in Owed(Exec(log).value) then 1 else 0
    ensures MallocsOf(log, s) <= if MayAllocate(Exec(log).value, s) then 0 else 1
  {
    if log != [] {
      var p := log[..|log| - 1];
      CopyAccounts(p, s);
      AlwaysSane(p);
      OwedStep(Exec(p).value, log[|log| - 1]);
    }
  }

  /** A task exists only for a copy that was allocated. */
  lemma {:induction false} TaskHasCopy(log: Log, s: nat)
    requires Exec(log).Some?
    ensures s in Exec(log).value && Exec(log).value[s].task != Absent ==> MallocsOf(log, s) == 1
  {
    if log != [] {
      var p := log[..|log| - 1];
      TaskHasCopy(p, s);
      CopyAccounts(p, s);
      CopyAccounts(log, s);
    }
  }

  /** When a start call has returned and its task, if any, has begun its update, every copy made
      for it has been freed exactly once: none was made for refused arguments, one was if a
      FreeRTOS task was created, and that is what ESP_OK says. */
  lemma SettledOwesNothing(log: Log, s: nat)
    requires Exec(log).Some? && s in Exec(log).value
    requires var p := Exec(log).value[s]; p.creator.Returned? && (p.task == Absent || p.task == Updating)
    ensures FreesOf(log, s) == MallocsOf(log, s) <= 1
    ensures Exec(log).value[s].creator.err == Ok <==> Exec(log).value[s].task == Updating
    ensures Exec(log).value[s].creator.err == Ok ==> FreesOf(log, s) == 1
  {
    AlwaysSane(log);
    CopyAccounts(log, s);
    TaskHasCopy(log, s);
  }

  /** A call's configuration is the one it was entered with, for good. */
  lemma {:induction false} ConfigKept(log: Log, i: nat)
    requires Exec(log).Some? && i < |log| && log[i].Enter?
    ensures log[i].s in Exec(log).value && Exec(log).value[log[i].s].config == log[i].config
    decreases |log|
  {
    if i < |log| - 1 {
      ConfigKept(log[..|log| - 1], i);
    }
  }

  // --- What others leave alone ---

  /** A step that start call s itself did not take. */
  predicate NotCreator(step: Step, s: nat) {
    step.Do? && step.s == s ==> step.a.CopyOut? || step.a.FreeArg?
  }

  /** A step that the ota_task of call s did not take. */
  predicate NotTask(step: Step, s: nat) {
    step.Do? && step.s == s ==> !step.a.CopyOut? && !step.a.FreeArg?
  }

  lemma CreatorLeftAlone(log: Log, later: Log, s: nat)
    requires Exec(log).Some? && Exec(later).Some? && log <= later && s in Exec(log).value
    requires forall i :: |log| <= i < |later| ==> NotCreator(later[i], s)
    ensures s in Exec(later).value && Exec(later).value[s].creator == Exec(log).value[s].creator
    ensures Exec(later).value[s].config == Exec(log).value[s].config
    ensures Exec(log).value[s].task == Absent ==> Exec(later).value[s] == Exec(log).value[s]
    ensures Exec(log).value[s].task != Absent ==> Exec(later).value[s].task != Absent
  {
    var p := Exec(log).value[s];
    Runs.Stays(Take, map[], log, later, (step: Step) => NotCreator(step, s),
               (m: System) => s in m && m[s].creator == p.creator && m[s].config == p.config
                              && (m[s].task == Absent <==> p.task == Absent));
  }

  lemma TaskLeftAlone(log: Log, later: Log, s: nat)
    requires Exec(log).Some? && Exec(later).Some? && log <= later && s in Exec(log).value
    requires Exec(log).value[s].task != Absent
    requires forall i :: |log| <= i < |later| ==> NotTask(later[i], s)
    ensures s in Exec(later).value && Exec(later).value[s].task == Exec(log).value[s].task
    ensures Exec(later).value[s].config == Exec(log).value[s].config
  {
    AlwaysSane(log);
    var p := Exec(log).value[s];
    Runs.Stays(Take, map[], log, later, (step: Step) => NotTask(step, s),
               (m: System) => s in m && Sane(m[s]) && m[s].task == p.task && m[s].config == p.config);
  }

  /** From step n on, start call s was refused its memory or its FreeRTOS task. */
  ghost predicate RefusedBySystem(log: Log, n: nat, s: nat) {
    exists i :: n <= i < |log| && (log[i] == Do(s, Malloc(false)) || log[i] == Do(s, Create(false)))
  }

  /** From step n on, the task of call s read its copy and then freed it. */
  ghost predicate CopiedThenFreed(log: Log, n: nat, s: nat) {
    exists i, j :: n <= i < j < |log| && log[i] == Do(s, CopyOut) && log[j] == Do(s, FreeArg)
  }

  lemma Reachable(log: Log, m: System)
    requires Runs.LeadsTo(Take, map[], log, m)
    ensures AllSane(m)
  {
    Runs.LeadsToIsFold(Take, map[], log, m);
    AlwaysSane(log);
  }

  /** The blocks on the heap are the copies somebody still has to free, and they hold what their
      start calls were given. */
  ghost predicate Holds(heap: map<nat, C.Request>, m: System) {
    && (forall s :: s in heap <==> s in m && m[s].Owes())
    && (forall s :: s in heap ==> heap[s] == m[s].config)
  }

  /** The heap and the scheduler. A start call's block is known by the number of the call. */
  class Kernel {
    var heap: map<nat, C.Request>
    ghost var log: Log
    ghost var sys: System

    ghost predicate Valid()
      reads this
    {
      Runs.LeadsTo(Take, map[], log, sys) && Holds(heap, sys)
    }

    constructor ()
      ensures Valid() && sys == map[]
    {
      heap, log, sys := map[], [], map[];
      Runs.LeadsToIsFold(Take, map[], [], map[]);
    }

    /** A step whose effect on the heap the caller already made. */
    ghost method Record(step: Step)
      requires Runs.LeadsTo(Take, map[], log, sys) && Take(sys, step).Some?
      requires Holds(heap, Take(sys, step).value)
      modifies `log, `sys
      ensures Valid() && log == old(log) + [step] && Some(sys) == Take(old(sys), step)
    {
      Runs.LeadsOn(Take, map[], log, sys, step);
      sys := Take(sys, step).value;
      log := log + [step];
    }

    /** A step that leaves the heap alone. */
    ghost method RecordPure(step: Step)
      requires Valid() && Take(sys, step).Some? && !Allocates(step) && !Frees(step)
      modifies `log, `sys
      ensures Valid() && log == old(log) + [step] && Some(sys) == Take(old(sys), step)
    {
      Reachable(log, sys);
      OwedStep(sys, step);
      Record(step);
    }

    /** malloc() and the assignment into the block. */
    method CopyIn(s: nat, config: C.Request) returns (ok: bool)
      requires Valid() && s in sys && sys[s].creator == Allocating && sys[s].config == config
      modifies this
      ensures Valid() && log == old(log) + [Do(s, Malloc(ok))] && Some(sys) == Take(old(sys), Do(s, Malloc(ok)))
    {
      ok := *;
      Reachable(log, sys);
      OwedStep(sys, Do(s, Malloc(ok)));
      if ok {
        heap := heap[s := config];
      }
      Record(Do(s, Malloc(ok)));
    }

    /** free(), by the start call or by the task. */
    method Free(s: nat, ghost a: Action)
      requires Valid() && s in sys && Next(sys[s], a).Some? && (a.FreeUnused? || a.FreeArg?)
      modifies this
      ensures Valid() && log == old(log) + [Do(s, a)] && Some(sys) == Take(old(sys), Do(s, a))
    {
      Reachable(log, sys);
      OwedStep(sys, Do(s, a));
      heap := heap - {s};
      Record(Do(s, a));
    }

    /** Steps of other start calls and of tasks, including one this call just created. The body
        is one instance, in which they wait; callers know only that call s took none of them. */
    method BesideCreator(s: nat)
      requires Valid() && s in sys
      modifies this
      ensures Valid() && old(log) <= log
      ensures forall i :: |old(log)| <= i < |log| ==> NotCreator(log[i], s)
    {
    }

    /** The same, and what follows from it for the start call. */
    method Others(s: nat)
      requires Valid() && s in sys
      modifies this
      ensures Valid() && old(log) <= log && s in sys && sys[s].creator == old(sys[s].creator)
      ensures sys[s].config == old(sys[s].config)
      ensures old(sys[s].task) == Absent <==> sys[s].task == Absent
      ensures old(sys[s].task) == Absent ==> sys[s] == old(sys[s])
    {
      BesideCreator(s);
      Runs.LeadsToIsFold(Take, map[], old(log), old(sys));
      Runs.LeadsToIsFold(Take, map[], log, sys);
      CreatorLeftAlone(old(log), log, s);
    }

    /** ota_api_start_task() */
    method StartTask(config: C.Request, s: nat) returns (err: Err)
      requires Valid() && s !in sys
      modifies this
      ensures Valid() && s in sys && sys[s].creator == Returned(err) && sys[s].config == config
      ensures err == Ok || err == InvalidArg || err == NoMem
      ensures err == InvalidArg <==> config.NullConfig? || config.url.None?
      ensures err == NoMem ==> RefusedBySystem(log, |old(log)|, s)
      ensures err == Ok <==> sys[s].task != Absent
      ensures err != Ok ==> s !in heap
    {
      RecordPure(Enter(s, config));
      if config.NullConfig? || config.url.None? {
        return InvalidArg;
      }
      ghost var i := |log|;
      var copied := CopyIn(s, config);
      Others(s);
      assert log[i] == Do(s, Malloc(copied));
      if !copied {
        return NoMem;
      }
      err := HandOver(s);
    }

    /** xTaskCreate() with the block as its argument, and what becomes of the block if it fails. */
    method HandOver(s: nat) returns (err: Err)
      requires Valid() && s in sys && sys[s].creator == Filled && sys[s].task == Absent
      modifies this
      ensures Valid() && old(log) <= log && s in sys
      ensures sys[s].creator == Returned(err) && sys[s].config == old(sys[s].config)
      ensures err == Ok || (err == NoMem && RefusedBySystem(log, |old(log)|, s) && s !in heap)
      ensures err == Ok <==> sys[s].task != Absent
    {
      var created: bool := *;
      ghost var j := |log|;
      RecordPure(Do(s, Create(created)));
      Others(s);
      if !created {
        Free(s, FreeUnused);
        Others(s);
        assert log[j] == Do(s, Create(false));
        return NoMem;
      }
      RecordPure(Do(s, Return));
      Others(s);
      return Ok;
    }

    /** Steps of anybody but the ota_task of call s, its creator included. The body is one
        instance; callers know only that the task took none of them. */
    method BesideTask(s: nat)
      requires Valid() && s in sys
      modifies this
      ensures Valid() && old(log) <= log
      ensures forall i :: |old(log)| <= i < |log| ==> NotTask(log[i], s)
    {
      var moved: bool := *;
      ghost var moves := moved && sys[s].creator == Handing;
      if moves {
        RecordPure(Do(s, Return));
      }
    }

    /** The same, and what follows from it for the task. */
    method OthersBesideTask(s: nat)
      requires Valid() && s in sys && sys[s].task != Absent
      modifies this
      ensures Valid() && old(log) <= log && s in sys && sys[s].task == old(sys[s].task)
      ensures sys[s].config == old(sys[s].config)
    {
      BesideTask(s);
      Runs.LeadsToIsFold(Take, map[], old(log), old(sys));
      Runs.LeadsToIsFold(Take, map[], log, sys);
      TaskLeftAlone(old(log), log, s);
    }

    /** ota_task(), whose update is call c of the component: the copy is read and freed before
        the update begins, the update runs with exactly the configuration the start call was
        given, and the device restarts exactly if a new image was committed. */
    method OtaTask(world: World, s: nat, ghost c: nat) returns (restarts: bool)
      requires Valid() && s in sys && sys[s].task == Ready
      requires world.Valid() && c in world.sys.calls
      requires world.sys.calls[c] == Machine.Call(sys[s].config, [], C.Start(sys[s].config))
      modifies this, world, world.slot
      ensures Valid() && s in sys && sys[s].task == Updating && s !in heap && world.Valid()
      ensures CopiedThenFreed(log, |old(log)|, s)
      ensures c in world.sys.calls && world.sys.calls[c].req == old(sys[s].config)
      ensures restarts <==> C.Finish(Ok) in Machine.Projection(world.log, c)
      ensures !Machine.Owns(world.log, c)
    {
      var config := TakeCopy(s);
      var err := world.OtaApiUpdate(config, c);
      restarts := err == Ok;
    }

    /** The first lines of ota_task(): the block is copied out and given back. */
    method TakeCopy(s: nat) returns (config: C.Request)
      requires Valid() && s in sys && sys[s].task == Ready
      modifies this
      ensures Valid() && s in sys && sys[s].task == Updating && s !in heap
      ensures config == old(sys[s].config) && CopiedThenFreed(log, |old(log)|, s)
    {
      ghost var i := |log|;
      config := heap[s];
      RecordPure(Do(s, CopyOut));
      OthersBesideTask(s);
      ghost var j := |log|;
      Free(s, FreeArg);
      OthersBesideTask(s);
      assert log[i] == Do(s, CopyOut) && log[j] == Do(s, FreeArg);
      Reachable(log, sys);
    }
  }
}
