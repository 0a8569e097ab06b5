/** The rollback application over the whole life of a device: any number of boots of
    examples/rollback/main/main.c on N >= 2 OTA slots with or without a factory image, with a
    reset possible between any two steps. What the bootloader and the IDF do is taken from their
    documented contract: a fresh image boots on trial, a trial image that was not confirmed is
    given up at the next reset, and going back needs a confirmed image to go back to. */
module Lifetime {
  import opened Esp
  import Runs

  datatype Location = Factory | Ota(slot: nat)

  /** What an OTA slot holds. Fresh is written and bootable but has never run. */
  datatype Content = Blank | Partial | Fresh | OnTrial | Good | Bad

  /** Where app_main is in the current boot. */
  datatype Pc =
    | Booted
    | Connecting(pending: bool)
    | Judging(pending: bool, connectErr: Err)
    | Confirming(connectErr: Err)
    | CheckingLink(connectErr: Err)
    | Ready
    | Writing(target: nat)
    | Written
    | Parked
    | Panicked
    | Rejected
    | Dead

  datatype Device = Device(factory: bool, slots: seq<Content>, boot: Location, running: Location, pc: Pc)

  /** A step of the application, or a reset. choice is where the bootloader goes back to, if it
      has to. */
  datatype Step =
    | ReadTrial
    | Connect(err: Err)
    | CheckConfirm
    | MarkValid(err: Err)
    | RejectImage(err: Err)
    | CheckLink
    | BeginUpdate(target: nat)
    | BeginFails(damaged: Option<nat>)
    | Chunk
    | GiveUp
    | FinishUpdate(err: Err)
    | Reset(choice: Location)

  /** An image somebody vouched for: confirmed, or the factory one. */
  predicate Trusted(d: Device, loc: Location) {
    match loc
    case Factory => d.factory
    case Ota(i) => i < |d.slots| && d.slots[i] == Good
  }

  predicate RunsOnTrial(d: Device) {
    d.running.Ota? && d.running.slot < |d.slots| && d.slots[d.running.slot] == OnTrial
  }

  /** Somewhere to go back to. */
  predicate HasFallback(d: Device) {
    d.factory || Good in d.slots
  }

  function SetSlot(d: Device, loc: Location, c: Content): Device {
    if loc.Ota? && loc.slot < |d.slots| then d.(slots := d.slots[loc.slot := c]) else d
  }

  /** The bootloader. */
  function Boot(d: Device, choice: Location): Option<Device> {
    var content := if d.boot.Ota? && d.boot.slot < |d.slots| then d.slots[d.boot.slot] else Blank;
    if Trusted(d, d.boot) then Some(d.(running := d.boot, pc := Booted))
    else if content == Fresh then Some(SetSlot(d, d.boot, OnTrial).(running := d.boot, pc := Booted))
    else
      var given := if content == OnTrial then SetSlot(d, d.boot, Bad) else d;
      if !HasFallback(given) then Some(given.(pc := Dead))
      else if !Trusted(given, choice) then None
      else Some(given.(boot := choice, running := choice, pc := Booted))
  }

  /** The slot an update may write: never the one that is running. */
  predicate Writable(d: Device, target: nat) {
    target < |d.slots| && d.running != Ota(target)
  }

  function Take(d: Device, step: Step): Option<Device> {
    match step
    case Reset(choice) => if d.pc == Dead then None else Boot(d, choice)
    case ReadTrial => if d.pc != Booted then None else Some(d.(pc := Connecting(RunsOnTrial(d))))
    case Connect(err) => if !d.pc.Connecting? then None else Some(d.(pc := Judging(d.pc.pending, err)))
    case CheckConfirm =>
      if !d.pc.Judging? || !d.pc.pending || d.pc.connectErr != Ok then None
      else Some(d.(pc := if RunsOnTrial(d) then Confirming(d.pc.connectErr) else Panicked))
    case MarkValid(err) =>
      if !d.pc.Confirming? then None
      else if err == Ok then Some(SetSlot(d, d.running, Good).(pc := CheckingLink(d.pc.connectErr)))
      else Some(d.(pc := Panicked))
    case RejectImage(err) =>
      if !d.pc.Judging? || !d.pc.pending || d.pc.connectErr == Ok then None
      else if err != Ok then Some(d.(pc := CheckingLink(d.pc.connectErr)))
      else if !HasFallback(d) then None
      else Some(SetSlot(d, d.running, Bad).(pc := Rejected))
    case CheckLink =>
      if d.pc.Judging? && !d.pc.pending then
        Some(d.(pc := if d.pc.connectErr == Ok then Ready else Panicked))
      else if d.pc.CheckingLink? then
        Some(d.(pc := if d.pc.connectErr == Ok then Ready else Panicked))
      else None
    case BeginUpdate(target) =>
      if d.pc != Ready || !Writable(d, target) then None
      else Some(SetSlot(d, Ota(target), Partial).(pc := Writing(target)))
    case BeginFails(damaged) =>
      if d.pc != Ready || (damaged.Some? && !Writable(d, damaged.value)) then None
      else Some((if damaged.Some? then SetSlot(d, Ota(damaged.value), Partial) else d).(pc := Parked))
    case Chunk => if !d.pc.Writing? then None else Some(d)
    case GiveUp => if !d.pc.Writing? then None else Some(d.(pc := Parked))
    case FinishUpdate(err) =>
      if !d.pc.Writing? then None
      else if err != Ok then Some(d.(pc := Parked))
      else Some(SetSlot(d, Ota(d.pc.target), Fresh).(boot := Ota(d.pc.target), pc := Written))
  }

  type Log = seq<Step>

  function Exec(d: Device, log: Log): Option<Device> {
    Runs.Fold(Take, d, log)
  }

  /** A device as it leaves the bench: it runs the trusted image it boots, and has two slots. */
  predicate Delivered(d: Device) {
    && d.pc == Booted && d.boot == d.running && Trusted(d, d.running) && |d.slots| >= 2
  }

  // --- The invariant ---

  predicate Updating(pc: Pc) {
    pc.Ready? || pc.Writing? || pc.Written? || pc.Parked?
  }

  /** The slot whose bytes are being replaced. */
  predicate BeingWritten(d: Device, loc: Location) {
    d.pc.Writing? && loc == Ota(d.pc.target)
  }

  /** Running a trusted image: the boot partition is either that image or a finished update. */
  predicate Settled(d: Device) {
    && Trusted(d, d.running)
    && (d.boot == d.running
        || (d.boot.Ota? && d.boot.slot < |d.slots| && d.slots[d.boot.slot] == Fresh && d.pc == Written))
    && (d.pc.Connecting? || d.pc.Judging? ==> !d.pc.pending)
    && (d.pc.Writing? ==> Writable(d, d.pc.target))
    && !d.pc.Confirming? && !d.pc.Rejected?
  }

  /** Running an image that has to prove itself, or that just failed to. */
  predicate Probation(d: Device) {
    && HasFallback(d) && d.boot == d.running && d.running.Ota? && d.running.slot < |d.slots|
    && !Updating(d.pc)
    && (d.pc.Connecting? || d.pc.Judging? ==> d.pc.pending)
    && (d.pc.Confirming? ==> d.pc.connectErr == Ok)
    && (d.pc.CheckingLink? ==> d.pc.connectErr != Ok)
    && d.slots[d.running.slot] == (if d.pc.Rejected? then Bad else OnTrial)
  }

  predicate Sound(d: Device) {
    d.pc != Dead && |d.slots| >= 2 && (Settled(d) || Probation(d))
  }

  lemma FallbackSurvives(d: Device, loc: Location, i: nat, c: Content)
    requires Trusted(d, loc) && loc != Ota(i)
    ensures Trusted(SetSlot(d, Ota(i), c), loc) && HasFallback(SetSlot(d, Ota(i), c))
  {
    var e := SetSlot(d, Ota(i), c);
    if loc.Ota? {
      assert e.slots[loc.slot] == Good;
    }
  }

  lemma SomeTrusted(d: Device) returns (loc: Location)
    requires HasFallback(d)
    ensures Trusted(d, loc)
  {
    if d.factory {
      loc := Factory;
    } else {
      var i :| 0 <= i < |d.slots| && d.slots[i] == Good;
      loc := Ota(i);
    }
  }

  /** A trusted image, and one that is not the slot in question. */
  lemma FallbackElsewhere(d: Device, loc: Location, c: Content)
    requires HasFallback(d) && !Trusted(d, loc)
    ensures HasFallback(SetSlot(d, loc, c))
  {
    var t := SomeTrusted(d);
    if loc.Ota? {
      FallbackSurvives(d, t, loc.slot, c);
    }
  }

  lemma BootSound(d: Device, choice: Location)
    requires Sound(d) && Boot(d, choice).Some?
    ensures Sound(Boot(d, choice).value)
  {
    if Settled(d) {
      assert HasFallback(d);
      if d.boot != d.running {
        FallbackSurvives(d, d.running, d.boot.slot, OnTrial);
      }
    } else {
      FallbackElsewhere(d, d.boot, Bad);
    }
  }

  lemma VerdictSound(d: Device, step: Step)
    requires Sound(d) && Take(d, step).Some? && (step.MarkValid? || step.RejectImage? || step.CheckConfirm?)
    ensures Sound(Take(d, step).value)
  {
    if step.RejectImage? {
      FallbackElsewhere(d, d.running, Bad);
    }
  }

  lemma UpdateSound(d: Device, step: Step)
    requires Sound(d) && Take(d, step).Some? && (step.BeginUpdate? || step.BeginFails? || step.FinishUpdate?)
    ensures Sound(Take(d, step).value)
  {
    match step
    case BeginUpdate(target) => FallbackSurvives(d, d.running, target, Partial);
    case BeginFails(damaged) =>
      if damaged.Some? {
        FallbackSurvives(d, d.running, damaged.value, Partial);
      }
    case FinishUpdate(err) => FallbackSurvives(d, d.running, d.pc.target, Fresh);
  }

  lemma StepSound(d: Device, step: Step)
    requires Sound(d) && Take(d, step).Some?
    ensures Sound(Take(d, step).value)
  {
    match step
    case Reset(choice) => BootSound(d, choice);
    case MarkValid(_) => VerdictSound(d, step);
    case RejectImage(_) => VerdictSound(d, step);
    case CheckConfirm => VerdictSound(d, step);
    case BeginUpdate(_) => UpdateSound(d, step);
    case BeginFails(_) => UpdateSound(d, step);
    case FinishUpdate(_) => UpdateSound(d, step);
    case _ =>
  }

  lemma {:induction false} AlwaysSound(d: Device, log: Log)
    requires Delivered(d) && Exec(d, log).Some?
    ensures Sound(Exec(d, log).value)
  {
    if log != [] {
      AlwaysSound(d, log[..|log| - 1]);
      StepSound(Exec(d, log[..|log| - 1]).value, log[|log| - 1]);
    }
  }

  // --- What it is for ---

  lemma ExecThen(d: Device, log: Log, step: Step)
    ensures Exec(d, log + [step]) == (match Exec(d, log) case None => None case Some(e) => Take(e, step))
  {
    Runs.Then(Take, d, log, step);
  }

  /** The state just before step n is taken. */
  lemma ExecAt(d: Device, log: Log, n: nat) returns (e: Device)
    requires n < |log| && Exec(d, log).Some?
    ensures Exec(d, log[..n]) == Some(e) && Take(e, log[n]).Some?
  {
    e := Runs.At(Take, d, log, n);
  }

  /** No update ever starts, or touches a slot, while the running image is on trial; when one
      does, the image it runs from is trusted and is not the one being replaced. */
  lemma NeverUpdatesOnTrial(d: Device, log: Log, n: nat)
    requires Delivered(d) && Exec(d, log).Some? && n < |log|
    requires log[n].BeginUpdate? || log[n].BeginFails? || log[n].FinishUpdate?
    ensures Exec(d, log[..n]).Some?
    ensures var e := Exec(d, log[..n]).value;
            && !RunsOnTrial(e) && Trusted(e, e.running)
            && (log[n].BeginUpdate? ==> e.running != Ota(log[n].target))
  {
    var e := ExecAt(d, log, n);
    AlwaysSound(d, log[..n]);
  }

  /** A trusted image that is not being written exists at every moment. */
  lemma AlwaysATrustedImage(d: Device, log: Log) returns (loc: Location)
    requires Delivered(d) && Exec(d, log).Some?
    ensures Trusted(Exec(d, log).value, loc) && !BeingWritten(Exec(d, log).value, loc)
  {
    AlwaysSound(d, log);
    var e := Exec(d, log).value;
    if Settled(e) {
      loc := e.running;
    } else {
      loc := SomeTrusted(e);
    }
  }

  /** The bootloader always has something to boot, whatever was going on when the power failed. */
  lemma NeverBricked(d: Device, log: Log)
    requires Delivered(d) && Exec(d, log).Some?
    ensures Exec(d, log).value.pc != Dead
    ensures exists choice :: Boot(Exec(d, log).value, choice).Some?
  {
    AlwaysSound(d, log);
    BootAnswers(Exec(d, log).value);
  }

  lemma BootAnswers(d: Device)
    requires Sound(d)
    ensures exists choice :: Boot(d, choice).Some?
  {
    if Trusted(d, d.boot) || (d.boot.Ota? && d.boot.slot < |d.slots| && d.slots[d.boot.slot] == Fresh) {
      assert Boot(d, Factory).Some?;
    } else {
      FallbackElsewhere(d, d.boot, Bad);
      var given := if d.slots[d.boot.slot] == OnTrial then SetSlot(d, d.boot, Bad) else d;
      var loc := SomeTrusted(given);
      assert Boot(d, loc).Some?;
    }
  }

  /** A finished update is the last thing a boot does. */
  lemma WrittenIsLast(d: Device, log: Log)
    requires Delivered(d) && Exec(d, log).Some?
    ensures Exec(d, log).value.pc == Written ==> log != [] && log[|log| - 1] == FinishUpdate(Ok)
    ensures log != [] && log[|log| - 1] == FinishUpdate(Ok) ==>
              var e := Exec(d, log).value;
              e.pc == Written && e.boot.Ota? && e.boot.slot < |e.slots| && e.slots[e.boot.slot] == Fresh
  {
    if log != [] {
      AlwaysSound(d, log[..|log| - 1]);
    }
  }

  lemma BootOutcome(d: Device, choice: Location)
    requires Sound(d) && Boot(d, choice).Some?
    requires d.pc == Written <==> d.boot.Ota? && d.boot.slot < |d.slots| && d.slots[d.boot.slot] == Fresh
    ensures var e := Boot(d, choice).value;
            && e.boot == e.running && (RunsOnTrial(e) <==> d.pc == Written)
            && (d.pc != Written ==> Trusted(e, e.running))
            && (d.pc == Written ==> e.running == d.boot)
            && (RunsOnTrial(d) ==> e.running != d.running && e.slots[d.running.slot] == Bad)
  {
    if Probation(d) {
      FallbackElsewhere(d, d.boot, Bad);
    }
  }

  /** What a reset at any moment of any life leads to: the image just written, on trial, if the
      last thing that happened was a successful esp_https_ota_finish(); in every other case an
      image somebody vouched for, whichever of them the bootloader prefers. */
  lemma ResetOutcome(d: Device, log: Log, choice: Location)
    requires Delivered(d) && Exec(d, log + [Reset(choice)]).Some?
    ensures Exec(d, log).Some?
    ensures var e, f := Exec(d, log).value, Exec(d, log + [Reset(choice)]).value;
            && f.boot == f.running
            && (RunsOnTrial(f) <==> log != [] && log[|log| - 1] == FinishUpdate(Ok))
            && (if RunsOnTrial(f) then f.running == e.boot else Trusted(f, f.running))
            && (RunsOnTrial(e) ==> f.running != e.running && f.slots[e.running.slot] == Bad)
  {
    ExecThen(d, log, Reset(choice));
    AlwaysSound(d, log);
    WrittenIsLast(d, log);
    BootOutcome(Exec(d, log).value, choice);
  }

  predicate Keeps(step: Step) {
    !step.Reset? && step != MarkValid(Ok)
  }

  /** An image on trial stays unconfirmed, whatever else the application does or fails to do. */
  lemma {:induction false} StaysUnproven(d: Device, log: Log, n: nat, s: Device)
    requires Delivered(d) && Exec(d, log).Some? && n <= |log|
    requires Exec(d, log[..n]) == Some(s) && RunsOnTrial(s)
    requires forall k :: n <= k < |log| ==> Keeps(log[k])
    ensures var e := Exec(d, log).value;
            && e.boot == e.running == s.running && e.pc != Written && e.running.slot < |e.slots|
            && (e.slots[e.running.slot] == OnTrial || e.slots[e.running.slot] == Bad)
    decreases |log|
  {
    AlwaysSound(d, log);
    assert log[..|log|] == log;
    if n < |log| {
      var p := log[..|log| - 1];
      assert p[..n] == log[..n];
      StaysUnproven(d, p, n, s);
      AlwaysSound(d, p);
    }
  }

  /** The safety net: an image that runs on trial and is not marked valid is given up at the next
      reset, whatever the application did meanwhile: hung, panicked, failed its self-test, or
      was refused its rollback. The device is back on a trusted image. */
  lemma NextResetReverts(d: Device, log: Log, n: nat, choice: Location, s: Device)
    requires Delivered(d) && Exec(d, log + [Reset(choice)]).Some? && n <= |log|
    requires Exec(d, log[..n]) == Some(s) && RunsOnTrial(s)
    requires forall k :: n <= k < |log| ==> Keeps(log[k])
    ensures var f := Exec(d, log + [Reset(choice)]).value;
            && Trusted(f, f.running) && f.boot == f.running && !RunsOnTrial(f)
            && f.running != s.running && s.running.slot < |f.slots| && f.slots[s.running.slot] == Bad
  {
    ResetOutcome(d, log, choice);
    StaysUnproven(d, log, n, s);
    WrittenIsLast(d, log);
    GivenUp(Exec(d, log).value, choice);
    ExecThen(d, log, Reset(choice));
  }

  lemma GivenUp(d: Device, choice: Location)
    requires d.boot.Ota? && d.boot.slot < |d.slots| && Boot(d, choice).Some? && Boot(d, choice).value.pc != Dead
    requires d.slots[d.boot.slot] == OnTrial || d.slots[d.boot.slot] == Bad
    ensures var e := Boot(d, choice).value;
            e.running != d.boot && |e.slots| == |d.slots| && e.slots[d.boot.slot] == Bad
  {
  }

  /** At any moment of any life, once a reset has happened and no update has been finished since,
      the next reset ends in a trusted image, whatever the application did in between. */
  lemma TwoResetsToSafety(d: Device, log: Log, n: nat, choice: Location)
    requires Delivered(d) && Exec(d, log + [Reset(choice)]).Some?
    requires n < |log| && log[n].Reset? && forall k :: n < k < |log| ==> log[k] != FinishUpdate(Ok)
    ensures var f := Exec(d, log + [Reset(choice)]).value;
            Trusted(f, f.running) && f.boot == f.running && !RunsOnTrial(f)
  {
    ResetOutcome(d, log, choice);
  }

  lemma BootOnce(d: Device, choice: Location)
    requires Sound(d) && Boot(d, choice).Some?
    ensures var e := Boot(d, choice).value; e.boot == e.running && e.pc == Booted
    ensures var e := Boot(d, choice).value; Sound(e)
  {
    BootSound(d, choice);
    if Settled(d) {
    } else {
      FallbackElsewhere(d, d.boot, Bad);
    }
  }

  /** A device on a trusted image stays on it, over any number of resets, until an update is
      finished. */
  lemma {:induction false} TrustedKeepsRunning(d: Device, log: Log, n: nat, s: Device)
    requires Delivered(d) && Exec(d, log).Some? && n <= |log|
    requires Exec(d, log[..n]) == Some(s) && Trusted(s, s.running) && s.pc != Written
    requires forall k :: n <= k < |log| ==> log[k] != FinishUpdate(Ok)
    ensures var e := Exec(d, log).value;
            e.running == s.running == e.boot && Trusted(e, e.running) && e.pc != Written
    decreases |log|
  {
    AlwaysSound(d, log);
    assert log[..|log|] == log;
    if n < |log| {
      var p := log[..|log| - 1];
      assert p[..n] == log[..n];
      TrustedKeepsRunning(d, p, n, s);
      AlwaysSound(d, p);
      TrustedStep(Exec(d, p).value, log[|log| - 1]);
    }
  }

  lemma TrustedStep(d: Device, step: Step)
    requires Sound(d) && Settled(d) && d.pc != Written && Take(d, step).Some? && step != FinishUpdate(Ok)
    ensures var e := Take(d, step).value; e.running == d.running && Trusted(e, e.running) && e.pc != Written
  {
    StepSound(d, step);
  }

  /** An image that was marked valid runs from then on, whatever resets come, until an update is
      finished. */
  lemma ConfirmedKeepsRunning(d: Device, log: Log, n: nat)
    requires Delivered(d) && Exec(d, log).Some? && n < |log| && log[n] == MarkValid(Ok)
    requires forall k :: n < k < |log| ==> log[k] != FinishUpdate(Ok)
    ensures Exec(d, log[..n]).Some?
    ensures var s, e := Exec(d, log[..n]).value, Exec(d, log).value;
            RunsOnTrial(s) && e.running == s.running && e.boot == s.running && Trusted(e, e.running)
  {
    var s := ExecAt(d, log, n);
    AlwaysSound(d, log[..n]);
    assert log[..n + 1] == log[..n] + [log[n]];
    ExecThen(d, log[..n], log[n]);
    TrustedKeepsRunning(d, log, n + 1, Take(s, log[n]).value);
  }

  /** Which update is being written. */
  lemma {:induction false} WritingSince(d: Device, log: Log, target: nat) returns (n: nat)
    requires Delivered(d) && Exec(d, log).Some? && Exec(d, log).value.pc == Writing(target)
    ensures n < |log| && log[n] == BeginUpdate(target)
    ensures forall k :: n < k < |log| ==> log[k] == Chunk
  {
    assert log != [];
    var last := log[|log| - 1];
    if last == BeginUpdate(target) {
      n := |log| - 1;
    } else {
      n := WritingSince(d, log[..|log| - 1], target);
    }
  }

  /** A finished update is what runs next, on trial: the reset after it starts the slot that this
      very update began to write, and that only chunks went into since. */
  lemma NewImageRunsNext(d: Device, log: Log, choice: Location) returns (n: nat)
    requires Delivered(d) && Exec(d, log + [FinishUpdate(Ok)] + [Reset(choice)]).Some?
    ensures n < |log| && log[n].BeginUpdate? && forall k :: n < k < |log| ==> log[k] == Chunk
    ensures var f := Exec(d, log + [FinishUpdate(Ok)] + [Reset(choice)]).value;
            f.running == Ota(log[n].target) && RunsOnTrial(f)
  {
    var more := log + [FinishUpdate(Ok)];
    ExecThen(d, log, FinishUpdate(Ok));
    ExecThen(d, more, Reset(choice));
    n := WritingSince(d, log, Exec(d, log).value.pc.target);
    ResetOutcome(d, more, choice);
  }

  /** Where the current boot's connection attempt was made. */
  lemma {:induction false} ConnectedSince(d: Device, log: Log, e: Device) returns (c: nat)
    requires Exec(d, log) == Some(e) && d.pc == Booted
    requires e.pc.Judging? || e.pc.Confirming? || e.pc.CheckingLink?
    ensures c < |log| && log[c] == Connect(e.pc.connectErr)
    ensures forall k :: c < k < |log| ==> !log[k].Connect? && !log[k].Reset?
  {
    assert log != [];
    var last, p := log[|log| - 1], log[..|log| - 1];
    if last.Connect? {
      c := |log| - 1;
    } else {
      c := ConnectedSince(d, p, Exec(d, p).value);
    }
  }

  /** The verdict on an image is that of its own boot's connection, and of an image on trial only:
      it is confirmed only if the connection was made, and rejected only if it was not. */
  lemma VerdictFollowsConnection(d: Device, log: Log, m: nat) returns (c: nat)
    requires Delivered(d) && Exec(d, log).Some? && m < |log| && (log[m].MarkValid? || log[m].RejectImage?)
    ensures c < m && log[c].Connect? && (log[m].MarkValid? <==> log[c].err == Ok)
    ensures forall k :: c < k < m ==> !log[k].Connect? && !log[k].Reset?
    ensures Exec(d, log[..m]).Some? && RunsOnTrial(Exec(d, log[..m]).value)
  {
    var e := ExecAt(d, log, m);
    AlwaysSound(d, log[..m]);
    c := ConnectedSince(d, log[..m], e);
  }

  lemma ReadyAfter(d: Device, log: Log)
    requires Exec(d, log).Some? && Exec(d, log).value.pc == Ready && d.pc == Booted
    ensures log != [] && log[|log| - 1] == CheckLink && Exec(d, log[..|log| - 1]).Some?
    ensures var pc := Exec(d, log[..|log| - 1]).value.pc;
            (pc.Judging? || pc.CheckingLink?) && pc.connectErr == Ok
  {
  }

  /** An update is only tried in a boot whose connection was made. */
  lemma UpdateNeedsConnection(d: Device, log: Log, m: nat) returns (c: nat)
    requires Delivered(d) && Exec(d, log).Some? && m < |log| && (log[m].BeginUpdate? || log[m].BeginFails?)
    ensures c < m && log[c] == Connect(Ok)
    ensures forall k :: c < k < m ==> !log[k].Connect? && !log[k].Reset?
  {
    var e := ExecAt(d, log, m);
    ReadyAfter(d, log[..m]);
    assert m >= 1 && log[..m][..m - 1] == log[..m - 1];
    c := ConnectedSince(d, log[..m - 1], Exec(d, log[..m - 1]).value);
  }

  /** And a boot comes to grief only over a connection that was not made, or over an image it
      could not mark. */
  lemma WhyPanicked(d: Device, log: Log, m: nat) returns (c: nat)
    requires Delivered(d) && Exec(d, log).Some? && m < |log|
    requires Exec(d, log[..m + 1]).Some? && Exec(d, log[..m + 1]).value.pc == Panicked
    ensures c < m && log[c].Connect? && forall k :: c < k < m ==> !log[k].Connect? && !log[k].Reset?
    ensures (log[m] == CheckLink && log[c].err != Ok) || (log[m].MarkValid? && log[m].err != Ok)
  {
    var e := ExecAt(d, log, m);
    AlwaysSound(d, log[..m]);
    assert log[..m + 1] == log[..m] + [log[m]];
    ExecThen(d, log[..m], log[m]);
    IntoPanic(e, log[m]);
    c := ConnectedSince(d, log[..m], e);
  }

  lemma IntoPanic(d: Device, step: Step)
    requires Sound(d) && Take(d, step).Some? && Take(d, step).value.pc == Panicked
    ensures d.pc.Judging? || d.pc.Confirming? || d.pc.CheckingLink?
    ensures (step == CheckLink && d.pc.connectErr != Ok) || (step.MarkValid? && step.err != Ok)
  {
  }

  /** A failed self-test can always go back: whenever this application asks, the condition the
      IDF refuses on, no confirmed image elsewhere, does not arise. */
  lemma RejectHasATarget(d: Device, log: Log)
    requires Delivered(d) && Exec(d, log).Some? && RunsOnTrial(Exec(d, log).value)
    ensures HasFallback(Exec(d, log).value)
    ensures Exec(d, log).value.pc.Judging? && Exec(d, log).value.pc.connectErr != Ok ==>
              Exec(d, log + [RejectImage(Ok)]).Some?
  {
    AlwaysSound(d, log);
    ExecThen(d, log, RejectImage(Ok));
  }

  predicate Stuck(pc: Pc) {
    pc.Panicked? || (pc.CheckingLink? && pc.connectErr != Ok)
  }

  lemma StuckStep(d: Device, step: Step)
    requires Take(d, step).Some? && Stuck(d.pc) && !step.Reset?
    ensures step.CheckLink? && !d.pc.Panicked? && Take(d, step).value.pc == Panicked
  {
  }

  lemma {:induction false} StuckSinceRefusal(d: Device, log: Log, n: nat)
    requires Exec(d, log).Some? && n < |log| && log[n].RejectImage? && log[n].err != Ok
    requires forall r :: n < r < |log| ==> !log[r].Reset?
    ensures Stuck(Exec(d, log).value.pc)
    decreases |log|
  {
    if n < |log| - 1 {
      var p := log[..|log| - 1];
      StuckSinceRefusal(d, p, n);
      StuckStep(Exec(d, p).value, log[|log| - 1]);
    }
  }

  /** Even when the IDF refuses a rollback for a reason of its own, the code after the refusal
      never reaches the update: the failed connection it remembers is fatal, and only a reset
      leads on. */
  lemma RefusedRejectStopsHere(d: Device, log: Log, n: nat, m: nat)
    requires Exec(d, log).Some? && n < m < |log| && log[n].RejectImage? && log[n].err != Ok
    requires forall r :: n < r < m ==> !log[r].Reset?
    ensures log[m].Reset? || (m == n + 1 && log[m].CheckLink?)
  {
    var e := ExecAt(d, log, m);
    StuckSinceRefusal(d, log[..m], n);
    if m > n + 1 {
      OnlyOneLook(d, log[..m], n);
    }
    if !log[m].Reset? {
      StuckStep(e, log[m]);
    }
  }

  lemma OnlyOneLook(d: Device, log: Log, n: nat)
    requires Exec(d, log).Some? && n < |log| - 1 && log[n].RejectImage? && log[n].err != Ok
    requires forall r :: n < r < |log| ==> !log[r].Reset?
    ensures Exec(d, log).value.pc == Panicked
  {
    var p := log[..|log| - 1];
    StuckSinceRefusal(d, p, n);
    StuckStep(Exec(d, p).value, log[|log| - 1]);
  }

  // --- The application itself ---

  /** One board. The log holds everything since it was delivered. */
  class Board {
    const delivered: Device
    ghost var log: Log
    var dev: Device

    ghost predicate Valid()
      reads this
    {
      Delivered(delivered) && Exec(delivered, log) == Some(dev)
    }

    constructor (d: Device)
      requires Delivered(d)
      ensures Valid() && dev == d && log == []
    {
      delivered, dev, log := d, d, [];
    }

    method Do(step: Step)
      requires Valid() && Take(dev, step).Some?
      modifies this
      ensures Valid() && log == old(log) + [step] && Some(dev) == Take(old(dev), step)
    {
      ExecThen(delivered, log, step);
      dev := Take(dev, step).value;
      log := log + [step];
    }

    /** run_diagnostic() */
    function RunDiagnostic(connectErr: Err): bool {
      connectErr == Ok
    }

    /** app_main(), up to the point where only a reset leads on. Any prefix of it is a run too,
        which is what a reset in the middle leaves. */
    method AppMain()
      requires Valid() && dev.pc == Booted
      modifies this
      ensures Valid() && old(log) < log
      ensures dev.pc.Written? || dev.pc.Parked? || dev.pc.Panicked? || dev.pc.Rejected?
      ensures dev.pc.Written? || dev.pc.Parked? ==> Trusted(dev, dev.running)
      ensures old(RunsOnTrial(dev)) && dev.pc.Panicked? ==> RunsOnTrial(dev)
      ensures dev.boot != old(dev.boot) <==> dev.pc.Written?
    {
      AlwaysSound(delivered, log);
      var pendingVerify := RunsOnTrial(dev);
      Do(ReadTrial);
      var connectErr: Err := *;
      Do(Connect(connectErr));
      var goesOn := true;
      if pendingVerify {
        goesOn := DecideTrial(connectErr);
      }
      if goesOn {
        Do(CheckLink);
        if connectErr == Ok {
          RunUpdate();
        }
      }
    }

    /** The verdict block of app_main(): whether execution goes on after it. */
    method DecideTrial(connectErr: Err) returns (goesOn: bool)
      requires Valid() && dev.pc == Judging(true, connectErr) && RunsOnTrial(dev)
      modifies this
      ensures Valid() && old(log) < log && dev.boot == old(dev.boot) && dev.running == old(dev.running)
      ensures goesOn ==> dev.pc == CheckingLink(connectErr) && (connectErr == Ok ==> Trusted(dev, dev.running))
      ensures goesOn && connectErr != Ok ==> RunsOnTrial(dev)
      ensures !goesOn ==> dev.pc.Rejected? || (dev.pc.Panicked? && RunsOnTrial(dev))
    {
      AlwaysSound(delivered, log);
      var err: Err := *;
      if RunDiagnostic(connectErr) {
        Do(CheckConfirm);
        Do(MarkValid(err));
        goesOn := err == Ok;
      } else {
        Do(RejectImage(err));
        goesOn := err != Ok;
      }
    }

    /** ota_api_update() and what app_main() does with its answer. */
    method RunUpdate()
      requires Valid() && dev.pc == Ready
      modifies this
      ensures Valid() && old(log) < log && (dev.pc.Written? || dev.pc.Parked?)
      ensures Trusted(dev, dev.running)
      ensures dev.boot != old(dev.boot) <==> dev.pc.Written?
    {
      AlwaysSound(delivered, log);
      var target: nat :| target >= 0;
      var begun: bool := *;
      if !begun || !Writable(dev, target) {
        var damages: bool := *;
        Do(BeginFails(if damages && Writable(dev, target) then Some(target) else None));
      } else {
        Do(BeginUpdate(target));
        Transfer(target);
      }
      AlwaysSound(delivered, log);
    }

    /** The transfer into a slot, whatever ends it. */
    method Transfer(target: nat)
      requires Valid() && dev.pc == Writing(target) && dev.boot != Ota(target)
      modifies this
      ensures Valid() && old(log) < log && (dev.pc.Written? || dev.pc.Parked?)
      ensures dev.boot == if dev.pc.Written? then Ota(target) else old(dev.boot)
    {
      var chunks: nat :| chunks >= 0;
      for i := 0 to chunks
        invariant Valid() && dev.pc == Writing(target) && old(log) <= log && dev.boot == old(dev.boot)
      {
        Do(Chunk);
      }
      var written: bool := *;
      var err: Err := *;
      Do(if written then FinishUpdate(err) else GiveUp);
    }

    /** The bootloader runs, with any preference among the images it may go back to. */
    method PowerCycle()
      requires Valid()
      modifies this
      ensures Valid() && old(log) < log && dev.pc == Booted
    {
      NeverBricked(delivered, log);
      AlwaysSound(delivered, log);
      var choice: Location :| Boot(dev, choice).Some?;
      BootOnce(dev, choice);
      Do(Reset(choice));
    }

    /** Boot after boot. Whatever happened, the device still runs, and still can go back. */
    method Live(boots: nat)
      requires Valid() && dev.pc == Booted
      modifies this
      ensures Valid() && dev.pc == Booted && HasFallback(dev)
      ensures RunsOnTrial(dev) || Trusted(dev, dev.running)
    {
      for i := 0 to boots
        invariant Valid() && dev.pc == Booted
      {
        AppMain();
        PowerCycle();
      }
      AlwaysSound(delivered, log);
      var loc := AlwaysATrustedImage(delivered, log);
      if loc.Ota? {
        assert dev.slots[loc.slot] == Good;
      }
    }
  }
}
