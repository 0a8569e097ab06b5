/** The trial run of a freshly booted image, src/ota-api-trial.c: one boot, any number of confirm
    calls, reject calls and direct esp_ota_mark_app_valid_cancel_rollback() calls, serialised
    begin calls, and the esp_timer task that runs the countdown's callback. */
module Trial {
  import opened Esp
  import Runs

  const DEFAULT_TIMEOUT_S: nat := 120

  /** esp_ota_img_states_t of the running partition; a factory partition has none. */
  datatype Image = Untracked | PendingVerify | Confirmed | OtherState

  datatype Confirm = Looking | Stopping | Marking(stopped: bool) | Done(err: Err)

  datatype Callback = Idle | Dispatched | RollingBack

  datatype Cause = ByTimer | ByReject

  /** beginning says that a begin call is past its check. */
  datatype System = System(
    image: Image, created: bool, armed: bool, callback: Callback,
    beginning: bool, confirms: map<nat, Confirm>, rebooted: Option<Cause>)

  datatype Step =
    | BeginCheck(onTrial: bool)
    | BeginCreate(err: Err)
    | BeginArm(seconds: nat, err: Err)
    | Expire
    | CallbackCheck(onTrial: bool)
    | CallbackRollback(err: Err)
    | ConfirmCheck(c: nat, onTrial: bool)
    | ConfirmLook(c: nat, there: bool)
    | ConfirmStop(c: nat)
    | ConfirmMark(c: nat, err: Err)
    | Reject(err: Err)
    | DirectMark(err: Err)

  function Boot(image: Image): System {
    System(image, false, false, Idle, false, map[], None)
  }

  predicate OnTrial(s: System) { s.image == PendingVerify }

  /** esp_timer_start_once() answers ESP_ERR_INVALID_STATE for a timer that is counting. The
      rollback call comes back only with an error. */
  function Take(s: System, step: Step): Option<System> {
    if s.rebooted.Some? then None
    else match step
      case BeginCheck(onTrial) =>
        if s.beginning || onTrial != OnTrial(s) then None else Some(s.(beginning := onTrial))
      case BeginCreate(err) =>
        if !s.beginning || s.created then None
        else Some(if err == Ok then s.(created := true) else s.(beginning := false))
      case BeginArm(seconds, err) =>
        if !s.beginning || !s.created || (s.armed && err != InvalidState) then None
        else Some(s.(beginning := false, armed := s.armed || err == Ok))
      case Expire =>
        if !s.armed || s.callback != Idle then None
        else Some(s.(armed := false, callback := Dispatched))
      case CallbackCheck(onTrial) =>
        if s.callback != Dispatched || onTrial != OnTrial(s) then None
        else Some(s.(callback := if onTrial then RollingBack else Idle))
      case CallbackRollback(err) =>
        if s.callback != RollingBack then None
        else Some(if err == Ok then s.(rebooted := Some(ByTimer)) else s.(callback := Idle))
      case ConfirmCheck(c, onTrial) =>
        if c in s.confirms || onTrial != OnTrial(s) then None
        else Some(s.(confirms := s.confirms[c := if onTrial then Looking else Done(InvalidState)]))
      case ConfirmLook(c, there) =>
        if c !in s.confirms || s.confirms[c] != Looking || there != s.created then None
        else Some(s.(confirms := s.confirms[c := if there then Stopping else Marking(false)]))
      case ConfirmStop(c) =>
        if c !in s.confirms || s.confirms[c] != Stopping then None
        else Some(s.(armed := false, confirms := s.confirms[c := Marking(true)]))
      case ConfirmMark(c, err) =>
        if c !in s.confirms || !s.confirms[c].Marking? then None
        else Some(s.(image := if err == Ok then Confirmed else s.image, confirms := s.confirms[c := Done(err)]))
      case Reject(err) =>
        Some(if err == Ok then s.(rebooted := Some(ByReject)) else s)
      case DirectMark(err) =>
        Some(if err == Ok then s.(image := Confirmed) else s)
  }

  type Log = seq<Step>

  function Exec(image: Image, log: Log): Option<System> {
    Runs.Fold(Take, Boot(image), log)
  }

  lemma ExecThen(image: Image, log: Log, step: Step)
    ensures Exec(image, log + [step])
            == (match Exec(image, log) case None => None case Some(s) => Take(s, step))
  {
    Runs.Then(Take, Boot(image), log, step);
  }

  lemma ExecAt(image: Image, log: Log, n: nat) returns (s: System)
    requires n < |log| && Exec(image, log).Some?
    ensures Exec(image, log[..n]) == Some(s)
    ensures Exec(image, log[..n + 1]).Some? && Exec(image, log[..n + 1]) == Take(s, log[n])
  {
    s := Runs.At(Take, Boot(image), log, n);
  }

  // --- The one race ---

  /** The image is told to be good, through the component or past it. */
  predicate Marks(step: Step) {
    (step.ConfirmMark? || step.DirectMark?) && step.err == Ok
  }

  predicate CallbackStep(step: Step) {
    step.Expire? || step.CallbackCheck? || step.CallbackRollback?
  }

  lemma {:induction false} ConfirmedForGood(image: Image, log: Log, j: nat)
    requires Exec(image, log).Some? && j < |log| && Marks(log[j])
    ensures Exec(image, log).value.image == Confirmed
    decreases |log|
  {
    if j < |log| - 1 {
      ConfirmedForGood(image, log[..|log| - 1], j);
    }
  }

  /** A callback about to roll back has passed its check, and the check saw a trial image. */
  lemma {:induction false} CheckedBefore(image: Image, log: Log) returns (i: nat)
    requires Exec(image, log).Some? && Exec(image, log).value.callback == RollingBack
    requires Exec(image, log).value.rebooted.None?
    ensures i < |log| && log[i] == CallbackCheck(true)
    ensures forall m :: i < m < |log| ==> !CallbackStep(log[m])
  {
    var last := log[|log| - 1];
    if last == CallbackCheck(true) {
      i := |log| - 1;
    } else {
      i := CheckedBefore(image, log[..|log| - 1]);
    }
  }

  /** Exactly one race: if the timer rolls back an image somebody confirmed, its check came
      before the marking and nothing of the callback in between. */
  lemma OnlyRace(image: Image, log: Log, j: nat, k: nat) returns (i: nat)
    requires Exec(image, log).Some? && j < k < |log| && Marks(log[j]) && log[k] == CallbackRollback(Ok)
    ensures i < j && log[i] == CallbackCheck(true)
    ensures forall m :: i < m < k ==> !CallbackStep(log[m])
  {
    var s := ExecAt(image, log, k);
    i := CheckedBefore(image, log[..k]);
    var t := ExecAt(image, log, i);
    if j <= i {
      assert j != i;
      ConfirmedForGood(image, log[..i], j);
    }
  }

  lemma KeptStep(s: System, step: Step)
    requires Take(s, step).Some? && s.image == Confirmed && s.callback != RollingBack
    ensures Take(s, step).value.image == Confirmed && Take(s, step).value.callback != RollingBack
    ensures !step.CallbackRollback?
  {
  }

  lemma {:induction false} NeverAgain(image: Image, log: Log, more: Log)
    requires Exec(image, log).Some? && Exec(image, log + more).Some?
    requires Exec(image, log).value.image == Confirmed && Exec(image, log).value.callback != RollingBack
    ensures Exec(image, log + more).value.image == Confirmed
    ensures Exec(image, log + more).value.callback != RollingBack
    ensures forall m :: 0 <= m < |more| ==> !more[m].CallbackRollback?
  {
    if more == [] {
      assert log + more == log;
    } else {
      var less, last := more[..|more| - 1], more[|more| - 1];
      assert (log + less) + [last] == log + more;
      ExecThen(image, log + less, last);
      NeverAgain(image, log, less);
      KeptStep(Exec(image, log + less).value, last);
    }
  }

  /** Some continuation of the run ends with the timer rolling the image back. */
  ghost predicate CanRollBack(image: Image, log: Log) {
    exists more: Log :: RollsBackVia(image, log, more)
  }

  predicate RollsBackVia(image: Image, log: Log, more: Log) {
    Exec(image, log + more).Some? && more != [] && more[|more| - 1] == CallbackRollback(Ok)
  }

  /** The documented window is the whole story, in both directions: at the moment an image is
      confirmed, the timer can still take it back if and only if its callback has already
      checked. */
  lemma WindowIsExact(image: Image, log: Log)
    requires Exec(image, log).Some? && log != [] && Marks(log[|log| - 1])
    ensures CanRollBack(image, log) <==> Exec(image, log).value.callback == RollingBack
  {
    var s := Exec(image, log).value;
    if s.callback == RollingBack {
      var more := [CallbackRollback(Ok)];
      ExecThen(image, log, CallbackRollback(Ok));
      assert RollsBackVia(image, log, more);
    } else {
      ConfirmedForGood(image, log, |log| - 1);
      forall more: Log | Exec(image, log + more).Some? ensures !RollsBackVia(image, log, more) {
        NeverAgain(image, log, more);
      }
    }
  }

  /** A run prolonged by one step. */
  lemma Extend(image: Image, log: Log, s: System, step: Step) returns (more: Log, t: System)
    requires Exec(image, log) == Some(s) && Take(s, step).Some?
    ensures more == log + [step] && Exec(image, more) == Some(t) && Some(t) == Take(s, step)
  {
    ExecThen(image, log, step);
    more, t := log + [step], Take(s, step).value;
  }

  lemma ExpiredState() returns (log: Log, s: System)
    ensures Exec(PendingVerify, log) == Some(s)
    ensures s == System(PendingVerify, true, false, Dispatched, false, map[], None)
  {
    log, s := [], Boot(PendingVerify);
    log, s := Extend(PendingVerify, log, s, BeginCheck(true));
    log, s := Extend(PendingVerify, log, s, BeginCreate(Ok));
    log, s := Extend(PendingVerify, log, s, BeginArm(DEFAULT_TIMEOUT_S, Ok));
    log, s := Extend(PendingVerify, log, s, Expire);
  }

  /** A countdown that expired while a confirm was past its stop, with the check just made. */
  lemma RacingState() returns (log: Log, s: System)
    ensures Exec(PendingVerify, log) == Some(s) && s.callback == RollingBack && s.rebooted.None?
    ensures s.confirms == map[0 := Marking(true)]
  {
    log, s := ExpiredState();
    log, s := Extend(PendingVerify, log, s, ConfirmCheck(0, true));
    log, s := Extend(PendingVerify, log, s, ConfirmLook(0, true));
    log, s := Extend(PendingVerify, log, s, ConfirmStop(0));
    log, s := Extend(PendingVerify, log, s, CallbackCheck(true));
  }

  /** The window exists: some run confirms an image and then loses it to the timer. */
  lemma WindowIsReal()
    ensures exists log: Log, j, k :: Exec(PendingVerify, log).Some? && 0 <= j < k < |log|
                              && log[j] == ConfirmMark(0, Ok) && log[k] == CallbackRollback(Ok)
  {
    var before, s := RacingState();
    var marked, t := Extend(PendingVerify, before, s, ConfirmMark(0, Ok));
    var lost, u := Extend(PendingVerify, marked, t, CallbackRollback(Ok));
    assert lost[|before|] == ConfirmMark(0, Ok) && lost[|marked|] == CallbackRollback(Ok);
  }

  /** Stopping first keeps the window from opening: a countdown that expires after a confirm
      stopped it was armed again by a later begin. */
  lemma {:induction false} StopHolds(image: Image, log: Log, c: nat, s: nat, d: nat) returns (a: nat)
    requires Exec(image, log).Some? && s < d < |log| && log[s] == ConfirmStop(c) && log[d] == Expire
    ensures s < a < d && log[a].BeginArm? && log[a].err == Ok
  {
    var t := ExecAt(image, log, d);
    a := ArmedSince(image, log[..d], c, s);
  }

  lemma {:induction false} ArmedSince(image: Image, log: Log, c: nat, s: nat) returns (a: nat)
    requires Exec(image, log).Some? && s < |log| && log[s] == ConfirmStop(c)
    requires Exec(image, log).value.armed
    ensures s < a < |log| && log[a].BeginArm? && log[a].err == Ok
    decreases |log|
  {
    var last := log[|log| - 1];
    if last.BeginArm? && last.err == Ok {
      a := |log| - 1;
    } else {
      a := ArmedSince(image, log[..|log| - 1], c, s);
    }
  }

  // --- Refused off trial ---

  predicate BeginStep(step: Step) {
    step.BeginCheck? || step.BeginCreate? || step.BeginArm?
  }

  lemma {:induction false} BegunSince(image: Image, log: Log) returns (k: nat)
    requires Exec(image, log).Some? && Exec(image, log).value.beginning
    ensures k < |log| && log[k] == BeginCheck(true)
    ensures forall m :: k < m < |log| && BeginStep(log[m]) ==> log[m] == BeginCreate(Ok)
  {
    var last := log[|log| - 1];
    if last.BeginCheck? {
      k := |log| - 1;
    } else {
      k := BegunSince(image, log[..|log| - 1]);
    }
  }

  /** The countdown is only ever touched by a begin that found the image on trial, and that no
      failed creation of the timer ended before. */
  lemma BeginNeedsTrial(image: Image, log: Log, n: nat) returns (k: nat)
    requires Exec(image, log).Some? && n < |log| && (log[n].BeginCreate? || log[n].BeginArm?)
    ensures k < n && log[k] == BeginCheck(true)
    ensures forall m :: k < m < n && BeginStep(log[m]) ==> log[m] == BeginCreate(Ok)
    ensures Exec(image, log[..k]).Some? && Exec(image, log[..k]).value.image == PendingVerify
  {
    var s := ExecAt(image, log, n);
    k := BegunSince(image, log[..n]);
    var t := ExecAt(image, log, k);
  }

  predicate ConfirmStepOf(step: Step, c: nat) {
    (step.ConfirmCheck? || step.ConfirmLook? || step.ConfirmStop? || step.ConfirmMark?) && step.c == c
  }

  lemma {:induction false} RefusedConfirm(image: Image, log: Log, n: nat)
    requires Exec(image, log).Some? && n < |log| && log[n].ConfirmCheck? && !log[n].onTrial
    ensures log[n].c in Exec(image, log).value.confirms
    ensures Exec(image, log).value.confirms[log[n].c] == Done(InvalidState)
    decreases |log|
  {
    if n < |log| - 1 {
      RefusedConfirm(image, log[..|log| - 1], n);
    }
  }

  /** A confirm goes ahead exactly if it found the image on trial; one that did not has nothing
      more to do with the timer or the image. */
  lemma ConfirmNeedsTrial(image: Image, log: Log, n: nat, m: nat)
    requires Exec(image, log).Some? && n < m < |log| && log[n].ConfirmCheck?
    ensures Exec(image, log[..n]).Some?
    ensures log[n].onTrial <==> Exec(image, log[..n]).value.image == PendingVerify
    ensures !log[n].onTrial ==> !ConfirmStepOf(log[m], log[n].c)
  {
    var s := ExecAt(image, log, n);
    var t := ExecAt(image, log, m);
    if !log[n].onTrial {
      assert log[..m][n] == log[n];
      RefusedConfirm(image, log[..m], n);
    }
  }

  // --- The safety net ---

  /** Confirm c stopped the countdown at or after step b. */
  ghost predicate StoppedSince(log: Log, b: nat, c: nat) {
    exists m: nat :: b <= m < |log| && log[m] == ConfirmStop(c)
  }

  /** A confirm that had stopped the countdown could not mark the image. */
  ghost predicate MarkFailedSince(log: Log, b: nat) {
    exists m: nat :: b <= m < |log| && log[m].ConfirmMark? && log[m].err != Ok && StoppedSince(log, b, log[m].c)
  }

  ghost predicate RollbackRefusedSince(log: Log, b: nat) {
    exists m: nat :: b <= m < |log| && log[m].CallbackRollback? && log[m].err != Ok
  }

  ghost predicate ConfirmInBetween(s: System, log: Log, b: nat) {
    exists c: nat :: c in s.confirms && s.confirms[c] == Marking(true) && StoppedSince(log, b, c)
  }

  /** Something still leads out of the trial, or the log says why not. */
  ghost predicate NetHolds(s: System, log: Log, b: nat) {
    || s.rebooted.Some? || !OnTrial(s)
    || s.armed || s.callback != Idle
    || ConfirmInBetween(s, log, b)
    || MarkFailedSince(log, b)
    || RollbackRefusedSince(log, b)
  }

  lemma SinceGrows(log: Log, step: Step, b: nat)
    ensures forall c :: StoppedSince(log, b, c) ==> StoppedSince(log + [step], b, c)
    ensures MarkFailedSince(log, b) ==> MarkFailedSince(log + [step], b)
    ensures RollbackRefusedSince(log, b) ==> RollbackRefusedSince(log + [step], b)
  {
    var more := log + [step];
    forall c | StoppedSince(log, b, c) ensures StoppedSince(more, b, c) {
      var m: nat :| b <= m < |log| && log[m] == ConfirmStop(c);
      assert more[m] == ConfirmStop(c);
    }
    if MarkFailedSince(log, b) {
      var m: nat :| b <= m < |log| && log[m].ConfirmMark? && log[m].err != Ok && StoppedSince(log, b, log[m].c);
      assert more[m] == log[m];
    }
    if RollbackRefusedSince(log, b) {
      var m: nat :| b <= m < |log| && log[m].CallbackRollback? && log[m].err != Ok;
      assert more[m] == log[m];
    }
  }

  lemma NetStep(s: System, log: Log, step: Step, b: nat)
    requires b <= |log| && NetHolds(s, log, b) && Take(s, step).Some?
    ensures NetHolds(Take(s, step).value, log + [step], b)
  {
    var t := Take(s, step).value;
    var more := log + [step];
    SinceGrows(log, step, b);
    assert more[|log|] == step;
    if ConfirmInBetween(s, log, b) {
      var c: nat :| c in s.confirms && s.confirms[c] == Marking(true) && StoppedSince(log, b, c);
      assert StoppedSince(more, b, c);
      if step.ConfirmMark? && step.c == c {
        assert step.err == Ok || MarkFailedSince(more, b);
      } else {
        assert c in t.confirms && t.confirms[c] == Marking(true);
      }
    }
    if step.ConfirmStop? {
      assert StoppedSince(more, b, step.c);
      assert t.confirms[step.c] == Marking(true);
      assert ConfirmInBetween(t, more, b);
    }
    if step.CallbackRollback? && step.err != Ok {
      assert RollbackRefusedSince(more, b);
    }
  }

  /** The safety net. After a successful ota_api_trial_begin(), as long as the image is still on
      trial, the countdown is armed, its callback is in flight, a confirm stands between its stop
      and its mark, such a mark failed, or an expired rollback was refused. In particular no
      failed reject, refused confirm or second begin ever disarms it. */
  lemma {:induction false} SafetyNet(image: Image, log: Log, b: nat)
    requires Exec(image, log).Some? && b < |log| && log[b].BeginArm? && log[b].err == Ok
    ensures NetHolds(Exec(image, log).value, log, b + 1)
    decreases |log|
  {
    var p := log[..|log| - 1];
    if b < |log| - 1 {
      SafetyNet(image, p, b);
      NetStep(Exec(image, p).value, p, log[|log| - 1], b + 1);
      assert p + [log[|log| - 1]] == log;
    }
  }

  /** Nobody confirms, and rollback is possible: the trial can only end by going back. */
  lemma UnattendedRollsBack(image: Image, log: Log, b: nat)
    requires Exec(image, log).Some? && b < |log| && log[b].BeginArm? && log[b].err == Ok
    requires OnTrial(Exec(image, log).value) && Exec(image, log).value.rebooted.None?
    requires forall m :: b < m < |log| ==>
               !log[m].ConfirmStop? && !(log[m].CallbackRollback? && log[m].err != Ok)
    ensures CanRollBack(image, log)
  {
    SafetyNet(image, log, b);
    CallbackGoesBack(image, log, Exec(image, log).value);
  }

  lemma NeverMarked(image: Image, log: Log)
    requires Exec(image, log).Some? && forall m :: 0 <= m < |log| ==> !Marks(log[m])
    ensures Exec(image, log).value.image == image
  {
    Runs.Stays(Take, Boot(image), [], log, (step: Step) => !Marks(step), (t: System) => t.image == image);
  }

  /** Where a step of the callback leaves it. */
  function CallbackAfter(step: Step): Callback {
    match step
    case Expire => Dispatched
    case CallbackCheck(onTrial) => if onTrial then RollingBack else Idle
    case _ => Idle
  }

  lemma CallbackMoves(s: System, step: Step)
    requires Take(s, step).Some?
    ensures var t := Take(s, step).value;
            if CallbackStep(step) then t.rebooted.None? ==> t.callback == CallbackAfter(step)
            else t.callback == s.callback
  {
  }

  lemma CallbackUntouched(image: Image, log: Log, later: Log)
    requires Exec(image, log).Some? && Exec(image, later).Some? && log <= later
    requires forall m :: |log| <= m < |later| ==> !CallbackStep(later[m])
    ensures Exec(image, later).value.callback == Exec(image, log).value.callback
  {
    var callback := Exec(image, log).value.callback;
    var inv := (t: System) => t.callback == callback;
    forall t, step | inv(t) && !CallbackStep(step) && Take(t, step).Some? ensures inv(Take(t, step).value) {
      CallbackMoves(t, step);
    }
    Runs.Stays(Take, Boot(image), log, later, (step: Step) => !CallbackStep(step), inv);
  }

  /** The callback's state just before step k, if its last step was j. */
  lemma CallbackSince(image: Image, log: Log, j: nat, k: nat) returns (s: System)
    requires Exec(image, log).Some? && j < k < |log| && CallbackStep(log[j])
    requires forall m :: j < m < k ==> !CallbackStep(log[m])
    ensures Exec(image, log[..k]) == Some(s) && Take(s, log[k]).Some?
    ensures s.callback == CallbackAfter(log[j])
  {
    var before := ExecAt(image, log, j);
    CallbackMoves(before, log[j]);
    var after := ExecAt(image, log, j + 1);
    assert after.rebooted.None?;
    s := ExecAt(image, log, k);
    assert log[..j + 1] <= log[..k];
    CallbackUntouched(image, log[..j + 1], log[..k]);
  }

  /** And an expiry does bring it about: the callback of a trial nobody confirmed finds the image
      on trial, its next step is the rollback whatever the other tasks do meanwhile, and unless
      the IDF refuses, that step reboots the device. */
  lemma UnattendedExpiry(log: Log, i: nat, j: nat, k: nat)
    requires Exec(PendingVerify, log).Some? && i < j < k < |log| && log[i] == Expire
    requires CallbackStep(log[j]) && CallbackStep(log[k])
    requires forall m :: i < m < k && m != j ==> !CallbackStep(log[m])
    requires forall m :: 0 <= m < j ==> !Marks(log[m])
    ensures log[j] == CallbackCheck(true) && log[k].CallbackRollback?
    ensures log[k].err == Ok ==> k == |log| - 1 && Exec(PendingVerify, log).value.rebooted == Some(ByTimer)
  {
    var s := CallbackSince(PendingVerify, log, i, j);
    NeverMarked(PendingVerify, log[..j]);
    var t := CallbackSince(PendingVerify, log, j, k);
    var u := ExecAt(PendingVerify, log, k);
    if log[k].err == Ok {
      if k < |log| - 1 {
        var v := ExecAt(PendingVerify, log, k + 1);
      }
      assert log[..|log|] == log;
    }
  }

  lemma OneStepCloser(image: Image, log: Log, step: Step)
    requires CanRollBack(image, log + [step])
    ensures CanRollBack(image, log)
  {
    var more: Log :| RollsBackVia(image, log + [step], more);
    var longer := [step] + more;
    assert longer[|longer| - 1] == more[|more| - 1];
    assert log + longer == (log + [step]) + more;
    assert RollsBackVia(image, log, longer);
  }

  /** An armed countdown, or a callback anywhere on its way, can carry a trial image back. */
  lemma {:induction false} CallbackGoesBack(image: Image, log: Log, s: System)
    requires Exec(image, log) == Some(s) && OnTrial(s) && s.rebooted.None?
    requires s.armed || s.callback != Idle
    ensures CanRollBack(image, log)
    decreases if s.callback == Idle then 2 else if s.callback == Dispatched then 1 else 0
  {
    var step := if s.callback == Idle then Expire else if s.callback == Dispatched then CallbackCheck(true)
                else CallbackRollback(Ok);
    var more, t := Extend(image, log, s, step);
    if s.callback == RollingBack {
      assert RollsBackVia(image, log, [step]);
    } else {
      CallbackGoesBack(image, more, t);
      OneStepCloser(image, log, step);
    }
  }
}
