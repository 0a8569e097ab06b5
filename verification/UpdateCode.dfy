/** The component's own code: the slot's critical sections, the dispatcher, the download loop and
    the calls around them, run against an ESP-IDF and an application that answer anything, while
    other tasks act between any two of its steps. Each method is proved to take only steps of the
    machine in UpdateMachine, so the theorems there are about this code. */
module UpdateCode {
  import opened Esp
  import opened Report
  import opened UpdateCall
  import opened UpdateMachine

  /** src/ota-api-state.c. Each method is one critical section. */
  class UpdateSlot {
    var running: bool
    var abortRequested: bool

    function State(): Slot
      reads this
    {
      Slot(running, abortRequested)
    }

    constructor ()
      ensures State() == FREE
    {
      running, abortRequested := false, false;
    }

    method ClaimUpdateSlot() returns (claimed: bool)
      modifies this
      ensures claimed <==> !old(running)
      ensures State() == if claimed then Slot(true, false) else old(State())
    {
      claimed := false;
      if !running {
        running := true;
        abortRequested := false;
        claimed := true;
      }
    }

    method ReleaseUpdateSlot()
      modifies this
      ensures State() == FREE
    {
      running := false;
      abortRequested := false;
    }

    method AbortRequested() returns (requested: bool)
      ensures requested == abortRequested
    {
      requested := abortRequested;
    }

    method Abort() returns (err: Err)
      modifies this
      ensures err == (if old(running) then Ok else InvalidState)
      ensures State() == Slot(old(running), old(running) || old(abortRequested))
    {
      err := InvalidState;
      if running {
        abortRequested := true;
        err := Ok;
      }
    }

    method IsRunning() returns (answer: bool)
      ensures answer == running
    {
      answer := running;
    }
  }

  predicate Timed(req: Request, force: bool) {
    !force && req.Request? && req.intervalMs != 0
  }

  predicate TooSoon(req: Request, lastUs: int, now: int) {
    req.Request? && now - lastUs < req.intervalMs * 1000
  }

  /** What measuring and reporting adds, given the length read and the verdict. */
  function Measured(req: Request, total: int32, force: bool, bytes: int32, answer: Err): History {
    [LenRead(bytes)] + if bytes < 0 then [] else Told(req, Downloaded(Snapshot(bytes, total)), force, answer)
  }

  /** What one progress report adds: a tick held back by the throttle, or a measured length. */
  function Reported(req: Request, total: int32, lastUs: int, force: bool, now: int, bytes: int32, answer: Err): History {
    if Timed(req, force) && TooSoon(req, lastUs, now) then [Clock(now)]
    else (if Timed(req, force) then [Clock(now)] else []) + Measured(req, total, force, bytes, answer)
  }

  /** Everything outside the calling task. The log and the machine state it leads to are the
      record the proofs are about; chunks bounds how often the server can still say "more". */
  class World {
    const slot: UpdateSlot
    var chunks: nat
    ghost var log: Log
    ghost var sys: System

    ghost predicate Valid()
      reads this, slot
    {
      Exec(log) == Some(sys) && sys.slot == slot.State()
    }

    /** Call c is where the code says it is. */
    ghost predicate At(c: nat, req: Request, pc: Pc)
      reads this, slot
    {
      Valid() && c in sys.calls && sys.calls[c].req == req && sys.calls[c].at.pc == pc
    }

    constructor (patience: nat)
      ensures Valid() && sys == INITIAL
    {
      slot := new UpdateSlot();
      chunks := patience;
      log, sys := [], INITIAL;
    }

    /** One step of call c, which leaves the slot as the caller already set it. */
    ghost method Record(c: nat, e: Label)
      requires Exec(log) == Some(sys) && c in sys.calls && Agrees(sys.slot, e)
      requires Next(sys.calls[c].req, sys.calls[c].at, e).Some? && slot.State() == SlotAfter(sys.slot, e)
      modifies `log, `sys
      ensures Valid() && old(log) + [Do(c, e)] == log
      ensures c in sys.calls && sys.calls[c] == old(sys.calls[c]).After(e)
    {
      sys := Take(sys, Do(c, e)).value;
      log := log + [Do(c, e)];
      assert log[..|log| - 1] == old(log);
    }

    /** Any number of steps of anybody else. The body is one instance; callers know only that
        the log stays a run of the machine, and that no step in it was taken by call c. */
    method Meanwhile(ghost c: nat)
      requires Valid()
      modifies this`log, this`sys, slot
      ensures Valid() && old(log) <= log
      ensures forall i :: |old(log)| <= i < |log| ==> Foreign(log[i], c)
    {
      var meddle: bool := *;
      if meddle {
        var err := slot.Abort();
        ghost var step := UpdateMachine.Abort(err == Ok);
        sys := Take(sys, step).value;
        log := log + [step];
        assert log[..|log| - 1] == old(log);
      }
    }

    /** The same, and what follows from it for a call in progress. */
    method Others(ghost c: nat)
      requires Valid() && c in sys.calls
      modifies this`log, this`sys, slot
      ensures Valid() && old(log) <= log
      ensures c in sys.calls && sys.calls[c] == old(sys.calls[c])
    {
      Meanwhile(c);
      OthersLeaveAlone(old(log), log, c);
    }

    /** A step whose answer the environment chose, and whatever happens before the next one. */
    method Step(ghost c: nat, ghost e: Label)
      requires Valid() && c in sys.calls && !e.Claim? && !e.CheckAbort? && !e.Release?
      requires Next(sys.calls[c].req, sys.calls[c].at, e).Some?
      modifies this, slot
      ensures Valid() && chunks == old(chunks) && old(log) <= log
      ensures c in sys.calls && sys.calls[c] == old(sys.calls[c]).After(e)
    {
      Record(c, e);
      Others(c);
    }

    /** ota_api_dispatch_event() */
    method DispatchEvent(req: Request, event: Event, forced: bool, ghost c: nat) returns (err: Err)
      requires req.Request? && At(c, req, Dispatch(req, event, forced))
      requires !event.Terminal() || forced == false
      modifies this, slot
      ensures At(c, req, AfterEvent(event, forced, err)) && chunks == old(chunks)
      ensures sys.calls[c].hist == old(sys.calls[c].hist) + Told(req, event, forced, err)
      ensures sys.calls[c].at.total == old(sys.calls[c].at.total)
      ensures sys.calls[c].at.lastUs == old(sys.calls[c].at.lastUs)
      ensures !req.hasCallback ==> err == Ok
    {
      if !req.hasCallback {
        return Ok;
      }
      Step(c, Emit(event, forced));
      err := *;
      Step(c, Verdict(event, err));
    }

    /** esp_timer_get_time() */
    method GetTime(req: Request, ghost c: nat) returns (now: int)
      requires At(c, req, Throttling) && req.Request?
      modifies this, slot
      ensures At(c, req, if TooSoon(req, old(sys.calls[c].at.lastUs), now) then Performing else Measuring(false))
      ensures sys.calls[c].hist == old(sys.calls[c].hist) + [Clock(now)]
      ensures sys.calls[c].at.total == old(sys.calls[c].at.total) && chunks == old(chunks)
      ensures sys.calls[c].at.lastUs
              == if TooSoon(req, old(sys.calls[c].at.lastUs), now) then old(sys.calls[c].at.lastUs) else now
    {
      now := *;
      Step(c, Clock(now));
    }

    /** esp_https_ota_get_image_len_read() */
    method GetImageLenRead(req: Request, force: bool, ghost c: nat) returns (bytes: int32)
      requires At(c, req, Measuring(force))
      modifies this, slot
      ensures At(c, req, if bytes >= 0 then Dispatch(req, Downloaded(Snapshot(bytes, old(sys.calls[c].at.total))), force)
                         else if force then Committing else Performing)
      ensures sys.calls[c].hist == old(sys.calls[c].hist) + [LenRead(bytes)] && chunks == old(chunks)
      ensures sys.calls[c].at.total == old(sys.calls[c].at.total)
      ensures sys.calls[c].at.lastUs == old(sys.calls[c].at.lastUs)
    {
      bytes := *;
      Step(c, LenRead(bytes));
    }

    /** ota_api_report_progress(). Returns the updated last_report_us, and what the clock and the
        handle answered, if they were asked. */
    method ReportProgress(req: Request, total: int32, lastReportUs: int, force: bool, ghost c: nat)
      returns (err: Err, last: int, now: int, bytes: int32)
      requires req.Request? && At(c, req, if !force && req.intervalMs != 0 then Throttling else Measuring(force))
      requires sys.calls[c].at.total == total && sys.calls[c].at.lastUs == lastReportUs
      modifies this, slot
      ensures At(c, req, if err != Ok then Aborting(err) else if force then Committing else Performing)
      ensures sys.calls[c].hist
              == old(sys.calls[c].hist) + Reported(req, total, lastReportUs, force, now, bytes, err)
      ensures last == if Timed(req, force) && !TooSoon(req, lastReportUs, now) then now else lastReportUs
      ensures sys.calls[c].at.total == total && sys.calls[c].at.lastUs == last && chunks == old(chunks)
    {
      last, now, bytes := lastReportUs, 0, 0;
      if !force && req.intervalMs != 0 {
        now := GetTime(req, c);
        if now - last < req.intervalMs * 1000 {
          err := Ok;
          return;
        }
        last := now;
      }
      err, bytes := MeasureAndReport(req, total, force, c);
    }

    /** Its second half, once the throttle has let the report through. */
    method MeasureAndReport(req: Request, total: int32, force: bool, ghost c: nat) returns (err: Err, bytes: int32)
      requires req.Request? && At(c, req, Measuring(force)) && sys.calls[c].at.total == total
      modifies this, slot
      ensures At(c, req, if err != Ok then Aborting(err) else if force then Committing else Performing)
      ensures sys.calls[c].hist == old(sys.calls[c].hist) + Measured(req, total, force, bytes, err)
      ensures sys.calls[c].at.total == total && chunks == old(chunks)
      ensures sys.calls[c].at.lastUs == old(sys.calls[c].at.lastUs)
    {
      bytes := GetImageLenRead(req, force, c);
      if bytes < 0 {
        err := Ok;
        return;
      }
      err := DispatchEvent(req, Downloaded(Snapshot(bytes, total)), force, c);
    }

    /** check_incoming_image(). Returns also what esp_https_ota_get_img_desc() answered, which is
        what the application gets to see. */
    method CheckIncomingImage(req: Request, ghost c: nat) returns (err: Err, answer: Err, desc: AppDesc)
      requires req.Request? && At(c, req, ReadingDesc)
      modifies this, slot
      ensures At(c, req, if err != Ok then Aborting(err) else Sizing) && chunks == old(chunks)
      ensures sys.calls[c].hist
              == old(sys.calls[c].hist) + [GetDesc(answer, desc)]
                 + if answer == Ok then Told(req, ImageDesc(desc), false, err) else []
      ensures answer != Ok ==> err == answer
    {
      answer := *;
      desc := *;
      Step(c, GetDesc(answer, desc));
      if answer != Ok {
        err := answer;
        return;
      }
      err := DispatchEvent(req, ImageDesc(desc), false, c);
    }

    /** esp_https_ota_perform(): any answer, but "more to come" only while there is. */
    method PerformChunk(req: Request, ghost c: nat) returns (err: Err)
      requires At(c, req, Performing)
      modifies this, slot
      ensures At(c, req, if err == InProgress then CheckingAbort else if err == Ok then Verifying else Aborting(err))
      ensures sys.calls[c].at.total == old(sys.calls[c].at.total)
      ensures sys.calls[c].at.lastUs == old(sys.calls[c].at.lastUs)
      ensures err == InProgress ==> chunks < old(chunks)
    {
      err := *;
      if err == InProgress && chunks == 0 {
        err := Ok;
      }
      Step(c, Perform(err));
      if err == InProgress {
        chunks := chunks - 1;
      }
    }

    /** esp_https_ota_get_image_size() */
    method GetImageSize(req: Request, ghost c: nat) returns (total: int32)
      requires At(c, req, Sizing)
      modifies this, slot
      ensures At(c, req, Performing) && sys.calls[c].at == Local(Performing, total, 0)
    {
      total := *;
      Step(c, GetSize(total));
    }

    /** esp_https_ota_is_complete_data_received() */
    method IsCompleteDataReceived(req: Request, ghost c: nat) returns (all: bool)
      requires At(c, req, Verifying)
      modifies this, slot
      ensures At(c, req, if all then Measuring(true) else Aborting(ValidateFailed))
      ensures sys.calls[c].at.total == old(sys.calls[c].at.total)
      ensures sys.calls[c].at.lastUs == old(sys.calls[c].at.lastUs)
    {
      all := *;
      Step(c, Complete(all));
    }

    /** ota_api_abort_requested() */
    method AbortRequested(req: Request, ghost c: nat) returns (requested: bool)
      requires At(c, req, CheckingAbort)
      modifies this, slot
      ensures At(c, req, if requested then Aborting(NotFinished)
                         else if req.Request? && req.intervalMs != 0 then Throttling else Measuring(false))
      ensures sys.calls[c].at.total == old(sys.calls[c].at.total)
      ensures sys.calls[c].at.lastUs == old(sys.calls[c].at.lastUs) && chunks == old(chunks)
    {
      requested := slot.AbortRequested();
      Record(c, CheckAbort(requested));
      Others(c);
    }

    /** download_image() */
    method DownloadImage(req: Request, ghost c: nat) returns (err: Err)
      requires req.Request? && At(c, req, Sizing)
      modifies this, slot
      ensures At(c, req, if err != Ok then Aborting(err) else Committing)
    {
      var total := GetImageSize(req, c);
      var lastReportUs := 0;
      var now: int;
      var bytes: int32;
      while true
        invariant At(c, req, Performing)
        invariant sys.calls[c].at.total == total && sys.calls[c].at.lastUs == lastReportUs
        decreases chunks
      {
        err := PerformChunk(req, c);
        if err != InProgress {
          break;
        }
        var requested := AbortRequested(req, c);
        if requested {
          return NotFinished;
        }
        err, lastReportUs, now, bytes := ReportProgress(req, total, lastReportUs, false, c);
        if err != Ok {
          return err;
        }
      }
      if err != Ok {
        return err;
      }
      var all := IsCompleteDataReceived(req, c);
      if !all {
        return ValidateFailed;
      }
      err, lastReportUs, now, bytes := ReportProgress(req, total, lastReportUs, true, c);
    }

    /** ota_api_build_http_config() */
    method BuildHttpConfig(req: Request, ghost c: nat) returns (err: Err)
      requires At(c, req, Configuring)
      modifies this, slot
      ensures At(c, req, if err == Ok then Connecting else Releasing(err))
    {
      err := *;
      Step(c, Configure(err));
    }

    /** esp_https_ota_begin() */
    method BeginHandle(req: Request, ghost c: nat) returns (err: Err)
      requires At(c, req, Connecting)
      modifies this, slot
      ensures At(c, req, if err == Ok then Dispatch(req, Started, false) else Releasing(err))
    {
      err := *;
      Step(c, Begin(err));
    }

    /** esp_https_ota_finish() */
    method FinishHandle(req: Request, ghost c: nat) returns (err: Err)
      requires At(c, req, Committing)
      modifies this, slot
      ensures At(c, req, Releasing(err))
    {
      err := *;
      Step(c, Finish(err));
    }

    /** esp_https_ota_abort() */
    method DiscardHandle(req: Request, err: Err, ghost c: nat)
      requires At(c, req, Aborting(err))
      modifies this, slot
      ensures At(c, req, Releasing(err))
    {
      Step(c, AbortHandle);
    }

    /** run_update() */
    method RunUpdate(req: Request, ghost c: nat) returns (err: Err)
      requires req.Request? && At(c, req, Configuring)
      modifies this, slot
      ensures At(c, req, Releasing(err))
    {
      err := BuildHttpConfig(req, c);
      if err != Ok {
        return err;
      }
      err := BeginHandle(req, c);
      if err != Ok {
        return err;
      }
      err := DispatchEvent(req, Started, false, c);
      if err == Ok {
        var answer, desc;
        err, answer, desc := CheckIncomingImage(req, c);
      }
      if err == Ok {
        err := DownloadImage(req, c);
      }
      if err != Ok {
        DiscardHandle(req, err, c);
        return err;
      }
      err := FinishHandle(req, c);
    }

    /** ota_api_update(). Whatever the environment and the other tasks did, the log is a run of
        the machine, the call returned err in it, and therefore left the slot and the handle
        behind and committed exactly when err is ESP_OK. */
    method OtaApiUpdate(req: Request, ghost c: nat) returns (err: Err)
      requires Valid() && c in sys.calls && sys.calls[c] == Call(req, [], Start(req))
      modifies this, slot
      ensures At(c, req, Returned(err)) && sys.calls[c].hist == Projection(log, c)
      ensures !req.Accepted() ==> err == InvalidArg && Projection(log, c) == []
      ensures !Owns(log, c)
      ensures HandlesCreated(Projection(log, c)) == HandlesFreed(Projection(log, c))
      ensures err == Ok <==> Finish(Ok) in Projection(log, c)
    {
      err := UpdateBody(req, c);
      EveryCallIsSequential(log, c);
      ReturnedCalls(log, c);
      if !req.Accepted() && Projection(log, c) != [] {
        ClaimComesFirst(req, Projection(log, c));
      }
    }

    method UpdateBody(req: Request, ghost c: nat) returns (err: Err)
      requires Valid() && c in sys.calls && sys.calls[c] == Call(req, [], Start(req))
      modifies this, slot
      ensures At(c, req, Returned(err))
    {
      if req.NullConfig? || req.url.None? {
        return InvalidArg;
      }
      var claimed := slot.ClaimUpdateSlot();
      Record(c, Claim(claimed));
      Others(c);
      if !claimed {
        return InvalidState;
      }
      err := RunUpdate(req, c);
      ReleaseAndAnnounce(req, err, c);
    }

    /** The end of ota_api_update(): the slot first, then the outcome, whatever is answered. */
    method ReleaseAndAnnounce(req: Request, err: Err, ghost c: nat)
      requires req.Request? && At(c, req, Releasing(err))
      modifies this, slot
      ensures At(c, req, Returned(err))
    {
      slot.ReleaseUpdateSlot();
      Record(c, Release);
      Others(c);
      if err == Ok {
        var ignored := DispatchEvent(req, Succeeded, false, c);
      } else {
        var ignored := DispatchEvent(req, Failed(err), false, c);
      }
    }
  }
}
