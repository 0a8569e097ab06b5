/** The functions of src/ota-api-trial.c, run while other tasks and the timer act between any two
    of their steps. Each takes only steps of the machine in Trial. A reboot ends every function
    where it stands; what is promised is for the functions that do come back. */
module TrialCode {
  import opened Esp
  import opened Trial
  import Runs

  lemma StoppedEarlier(log: Log, b: nat, a: nat, c: nat)
    requires a <= b
    ensures StoppedSince(log, b, c) ==> StoppedSince(log, a, c)
  {
    if StoppedSince(log, b, c) {
      var m: nat :| b <= m < |log| && log[m] == ConfirmStop(c);
      assert a <= m;
    }
  }

  /** A step of somebody else: of no confirm in mine, and, as the case may be, of no begin call
      and not of the timer's callback. */
  predicate Foreign(step: Step, mine: set<nat>, begins: bool, fires: bool) {
    && (step.ConfirmCheck? || step.ConfirmLook? || step.ConfirmStop? || step.ConfirmMark? ==> step.c !in mine)
    && (step.BeginCheck? || step.BeginCreate? || step.BeginArm? ==> begins)
    && (step.CallbackCheck? || step.CallbackRollback? ==> fires)
  }

  /** What such steps leave as it was. */
  predicate LeftAlone(s: System, t: System, mine: set<nat>, begins: bool, fires: bool) {
    && (forall c :: c in mine ==> (c in t.confirms <==> c in s.confirms)
                                  && (c in t.confirms ==> t.confirms[c] == s.confirms[c]))
    && (s.created ==> t.created)
    && (!begins ==> t.beginning == s.beginning && t.created == s.created && (t.armed ==> s.armed))
    && (!fires && s.callback != Idle ==> t.callback == s.callback)
    && (s.image == Confirmed ==> t.image == Confirmed)
  }

  lemma LeftAloneStep(s: System, t: System, step: Step, mine: set<nat>, begins: bool, fires: bool)
    requires LeftAlone(s, t, mine, begins, fires) && Foreign(step, mine, begins, fires) && Take(t, step).Some?
    ensures LeftAlone(s, Take(t, step).value, mine, begins, fires)
  {
  }

  lemma OthersLeaveAlone(image: Image, log: Log, later: Log, mine: set<nat>, begins: bool, fires: bool)
    requires Exec(image, log).Some? && Exec(image, later).Some? && log <= later
    requires forall i :: |log| <= i < |later| ==> Foreign(later[i], mine, begins, fires)
    ensures LeftAlone(Exec(image, log).value, Exec(image, later).value, mine, begins, fires)
  {
    var s := Exec(image, log).value;
    var taken := (step: Step) => Foreign(step, mine, begins, fires);
    var inv := (t: System) => LeftAlone(s, t, mine, begins, fires);
    forall t, step | inv(t) && taken(step) && Take(t, step).Some? ensures inv(Take(t, step).value) {
      LeftAloneStep(s, t, step, mine, begins, fires);
    }
    Runs.Stays(Take, Boot(image), log, later, taken, inv);
  }

  class Device {
    const firstImage: Image
    var image: Image
    var timerCreated: bool
    var timerArmed: bool
    ghost var log: Log
    ghost var sys: System

    /** The log is a run, nothing has rebooted the device, and the fields are what it says. */
    ghost predicate Valid()
      reads this
    {
      && Exec(firstImage, log) == Some(sys) && sys.rebooted.None?
      && sys.image == image && sys.created == timerCreated && sys.armed == timerArmed
    }

    constructor (bootedAs: Image)
      ensures Valid() && sys == Boot(bootedAs)
    {
      firstImage := bootedAs;
      image, timerCreated, timerArmed := bootedAs, false, false;
      log, sys := [], Boot(bootedAs);
    }

    /** A step whose effect on the fields the caller already made. */
    ghost method Record(step: Step)
      requires Exec(firstImage, log) == Some(sys) && Take(sys, step).Some?
      requires var t := Take(sys, step).value;
               t.image == image && t.created == timerCreated && t.armed == timerArmed
      modifies `log, `sys
      ensures Exec(firstImage, log) == Some(sys) && Some(sys) == Take(old(sys), step)
      ensures log == old(log) + [step]
      ensures sys.rebooted.None? ==> Valid()
    {
      ExecThen(firstImage, log, step);
      sys := Take(sys, step).value;
      log := log + [step];
    }

    /** What the rest of the system does while a function is between two steps. The body is one
        instance; callers know only that no step of it was the function's own, and that the
        device was not rebooted under it. */
    method Meanwhile(ghost mine: set<nat>, ghost begins: bool, ghost fires: bool)
      requires Valid()
      modifies this
      ensures Valid() && old(log) <= log
      ensures forall i :: |old(log)| <= i < |log| ==> Foreign(log[i], mine, begins, fires)
    {
      var mark: bool := *;
      if mark {
        image := Confirmed;
        Record(DirectMark(Ok));
      }
    }

    /** The same, and what follows from it. */
    method Others(ghost mine: set<nat>, ghost begins: bool, ghost fires: bool)
      requires Valid()
      modifies this
      ensures Valid() && old(log) <= log && LeftAlone(old(sys), sys, mine, begins, fires)
    {
      Meanwhile(mine, begins, fires);
      OthersLeaveAlone(firstImage, old(log), log, mine, begins, fires);
    }

    /** ota_api_is_on_trial() */
    method IsOnTrial() returns (onTrial: bool)
      ensures onTrial <==> image == PendingVerify
    {
      if image == Untracked {
        return false;
      }
      return image == PendingVerify;
    }

    /** trial_timeout(), on the timer task. An image it finds on trial it rolls back: the device
        reboots, unless the IDF refuses, and then the callback is over. Any other image it leaves
        alone. */
    method TrialTimeout() returns (rebooted: bool)
      requires Valid() && sys.callback == Dispatched
      modifies this
      ensures Exec(firstImage, log) == Some(sys) && old(log) < log
      ensures old(sys.image) != PendingVerify ==>
                !rebooted && log == old(log) + [CallbackCheck(false)] && sys.callback == Idle
      ensures old(sys.image) == PendingVerify ==>
                && log[|old(log)|] == CallbackCheck(true)
                && |old(log)| < |log| - 1 && log[|log| - 1].CallbackRollback?
                && (rebooted <==> log[|log| - 1].err == Ok)
      ensures rebooted ==> sys.rebooted == Some(ByTimer)
      ensures !rebooted ==> Valid() && sys.callback == Idle
    {
      var onTrial := IsOnTrial();
      Record(CallbackCheck(onTrial));
      if !onTrial {
        return false;
      }
      Others({}, true, false);
      var err: Err := *;
      Record(CallbackRollback(err));
      return err == Ok;
    }

    /** esp_timer_create() */
    method CreateTimer() returns (err: Err)
      requires Valid() && sys.beginning && !timerCreated
      modifies this
      ensures Valid() && log == old(log) + [BeginCreate(err)]
      ensures sys.beginning == timerCreated == (err == Ok)
    {
      err := *;
      if err == Ok {
        timerCreated := true;
      }
      Record(BeginCreate(err));
    }

    /** esp_timer_start_once(), which refuses a timer that is already counting. */
    method StartTimer(seconds: nat) returns (err: Err)
      requires Valid() && sys.beginning && timerCreated
      modifies this
      ensures Valid() && log == old(log) + [BeginArm(seconds, err)] && !sys.beginning
      ensures old(timerArmed) ==> err == InvalidState
      ensures timerArmed <==> old(timerArmed) || err == Ok
    {
      err := *;
      if timerArmed {
        err := InvalidState;
      }
      if err == Ok {
        timerArmed := true;
      }
      Record(BeginArm(seconds, err));
    }

    /** ota_api_trial_begin() */
    method TrialBegin(timeoutS: uint32) returns (err: Err)
      requires Valid() && !sys.beginning
      modifies this
      ensures Valid() && !sys.beginning && old(log) < log
      ensures old(sys.image) != PendingVerify ==> err == InvalidState && log[|old(log)|..] == [BeginCheck(false)]
      ensures old(sys.image) == PendingVerify ==>
                && log[|old(log)|] == BeginCheck(true)
                && (log[|log| - 1] == BeginArm(if timeoutS == 0 then 120 else timeoutS, err)
                    || (log[|log| - 1] == BeginCreate(err) && err != Ok && !old(timerCreated)))
      ensures err == Ok ==> timerArmed
    {
      var onTrial := IsOnTrial();
      Record(BeginCheck(onTrial));
      if !onTrial {
        return InvalidState;
      }
      Others({}, false, true);
      var seconds := if timeoutS == 0 then DEFAULT_TIMEOUT_S else timeoutS;
      if !timerCreated {
        err := CreateTimer();
        if err != Ok {
          return err;
        }
        Others({}, false, true);
      }
      err := StartTimer(seconds);
    }

    /** The guarded esp_timer_stop() of a confirm. */
    method StopCountdown(ghost c: nat)
      requires Valid() && c in sys.confirms && sys.confirms[c] == Looking
      modifies this
      ensures Valid() && c in sys.confirms && sys.confirms[c].Marking? && old(log) <= log
      ensures old(timerCreated) ==> sys.confirms[c].stopped && StoppedSince(log, |old(log)|, c)
    {
      var there := timerCreated;
      Record(ConfirmLook(c, there));
      Others({c}, true, true);
      if there {
        timerArmed := false;
        ghost var s := |log|;
        Record(ConfirmStop(c));
        Others({c}, true, true);
        assert log[s] == ConfirmStop(c);
      }
    }

    /** esp_ota_mark_app_valid_cancel_rollback(), on behalf of confirm c. */
    method MarkValid(ghost c: nat) returns (err: Err)
      requires Valid() && c in sys.confirms && sys.confirms[c].Marking?
      modifies this
      ensures Valid() && log == old(log) + [ConfirmMark(c, err)] && log[..|log| - 1] == old(log)
      ensures c in sys.confirms && sys.confirms[c] == Done(err)
      ensures err == Ok ==> image == Confirmed
    {
      err := *;
      if err == Ok {
        image := Confirmed;
      }
      Record(ConfirmMark(c, err));
    }

    /** ota_api_trial_confirm(), called as confirm c. The countdown is stopped before the image
        is marked, never after. */
    method TrialConfirm(ghost c: nat) returns (err: Err)
      requires Valid() && c !in sys.confirms
      modifies this
      ensures Valid() && c in sys.confirms && sys.confirms[c] == Done(err) && old(log) < log
      ensures old(sys.image) != PendingVerify ==>
                err == InvalidState && log == old(log) + [ConfirmCheck(c, false)]
      ensures old(sys.image) == PendingVerify ==>
                && log[|log| - 1] == ConfirmMark(c, err)
                && (err == Ok ==> image == Confirmed)
                && (old(timerCreated) ==> StoppedSince(log[..|log| - 1], |old(log)|, c))
    {
      var onTrial := IsOnTrial();
      Record(ConfirmCheck(c, onTrial));
      if !onTrial {
        return InvalidState;
      }
      Others({c}, true, true);
      ghost var start := |log|;
      StopCountdown(c);
      StoppedEarlier(log, start, |old(log)|, c);
      err := MarkValid(c);
    }

    /** ota_api_trial_reject(). It comes back only with the IDF's refusal, and then nothing at
        all has changed: a countdown in progress keeps counting. */
    method TrialReject() returns (answer: Option<Err>)
      requires Valid()
      modifies this
      ensures Exec(firstImage, log) == Some(sys)
      ensures answer.None? ==> sys.rebooted == Some(ByReject) && log == old(log) + [Reject(Ok)]
      ensures answer.Some? ==> Valid() && answer.value != Ok && sys == old(sys) && log == old(log) + [Reject(answer.value)]
    {
      var err: Err := *;
      Record(Reject(err));
      return if err == Ok then None else Some(err);
    }
  }
}
