/** The download throttle of examples/common/ota_server.py, with time as real numbers: the clock
    may advance by anything between two readings, and a sleep lasts at least as long as asked. */
module Throttle {
  type Bytes = seq<bv8>

  const BUFSIZE: nat := 64 * 1024

  class Clock {
    var now: real
    /** How much sleep has been asked for so far. */
    ghost var asked: real

    constructor ()
      ensures now == 0.0 && asked == 0.0
    {
      now, asked := 0.0, 0.0;
    }

    /** time.monotonic(), after whatever time has gone by. */
    method Monotonic() returns (t: real)
      modifies this`now
      ensures t == now >= old(now)
    {
      var gone: real := *;
      if gone > 0.0 {
        now := now + gone;
      }
      t := now;
    }

    /** time.sleep() */
    method Sleep(d: real)
      modifies this
      ensures now >= old(now) && now >= old(now) + d && asked == old(asked) + d
    {
      asked := asked + d;
      var late: real := *;
      if late < 0.0 {
        late := 0.0;
      }
      now := now + (if d > 0.0 then d else 0.0) + late;
    }
  }

  /** So much has been sent by then. */
  datatype Mark = Mark(total: nat, at: real)

  /** The average rate since the start is within bps, give or take some bytes. */
  predicate Within(m: Mark, start: real, bps: nat, slack: nat) {
    m.total as real <= bps as real * (m.at - start) + slack as real
  }

  lemma WaitedEnough(sent: nat, bps: nat, t: real)
    requires bps > 0 && t >= sent as real / bps as real
    ensures sent as real <= bps as real * t
  {
    var q := sent as real / bps as real;
    assert q * bps as real == sent as real;
    assert (t - q) * bps as real >= 0.0;
  }

  lemma Later(total: nat, bps: nat, d: real, d': real)
    requires d <= d' && total as real <= bps as real * d
    ensures total as real <= bps as real * d'
  {
    assert (d' - d) * bps as real >= 0.0;
  }

  lemma ShareGrows(sent: nat, more: nat, bps: nat)
    requires bps > 0
    ensures sent as real / bps as real <= (sent + more) as real / bps as real
  {
    var b := bps as real;
    assert (sent + more) as real / b == sent as real / b + more as real / b;
    assert more as real / b >= 0.0;
  }

  /** Sleep off exactly what the bytes sent so far are ahead of the rate when the clock is read. */
  method Pace(clock: Clock, start: real, sent: nat, bps: nat) returns (elapsed: real)
    requires bps > 0
    modifies clock
    ensures old(clock.now) - start <= elapsed <= clock.now - start
    ensures var due := sent as real / bps as real;
            clock.asked == old(clock.asked) + if due > elapsed then due - elapsed else 0.0
    ensures clock.now - clock.asked >= old(clock.now) - old(clock.asked)
    ensures clock.now >= old(clock.now) && Within(Mark(sent, clock.now), start, bps, 0)
  {
    var expected := sent as real / bps as real;
    var t := clock.Monotonic();
    elapsed := t - start;
    if expected > elapsed {
      clock.Sleep(expected - elapsed);
    }
    WaitedEnough(sent, bps, clock.now - start);
  }

  /** The peer's end of the connection, with the moment of every write. */
  class Output {
    var data: Bytes
    ghost var marks: seq<Mark>

    constructor ()
      ensures data == [] && marks == []
    {
      data, marks := [], [];
    }

    method Write(chunk: Bytes, clock: Clock)
      modifies this
      ensures data == old(data) + chunk && marks == old(marks) + [Mark(|data|, clock.now)]
    {
      data := data + chunk;
      marks := marks + [Mark(|data|, clock.now)];
    }
  }

  /** Everything sent before write i is within the rate when that write is made, so that the
      transfer is ahead by at most the chunk being written. */
  predicate Paced(marks: seq<Mark>, i: nat, start: real, bps: nat)
    requires i < |marks|
  {
    var before := if i == 0 then 0 else marks[i - 1].total;
    && before <= marks[i].total <= before + 65536
    && Within(Mark(before, marks[i].at), start, bps, 0)
    && Within(marks[i], start, bps, marks[i].total - before)
  }

  function Total(marks: seq<Mark>): nat {
    if marks == [] then 0 else marks[|marks| - 1].total
  }

  ghost predicate AllPaced(marks: seq<Mark>, start: real, bps: nat) {
    forall i :: 0 <= i < |marks| ==> Paced(marks, i, start, bps)
  }

  /** One more write keeps the pace, if everything before it is within the rate by then. */
  lemma PacedThen(marks: seq<Mark>, m: Mark, start: real, bps: nat)
    requires AllPaced(marks, start, bps) && Total(marks) <= m.total <= Total(marks) + BUFSIZE
    requires Within(Mark(Total(marks), m.at), start, bps, 0)
    ensures AllPaced(marks + [m], start, bps)
  {
    var more := marks + [m];
    forall i | 0 <= i < |more| ensures Paced(more, i, start, bps) {
      if i < |marks| {
        assert Paced(marks, i, start, bps);
      }
    }
  }

  /** copyfile(), for every way the source may cut its bytes into chunks. The copy is complete;
      with a throttle, the transfer is never ahead of the rate by more than the chunk just
      written, and not at all when it returns; and no more sleep is asked for than the whole
      transfer takes at that rate. */
  method CopyFile(source: Bytes, output: Output, clock: Clock, bps: int)
    requires output.data == [] && output.marks == []
    modifies output, clock
    ensures output.data == source && clock.now >= old(clock.now)
    ensures bps > 0 ==> AllPaced(output.marks, old(clock.now), bps) && Total(output.marks) == |source|
    ensures bps > 0 && source != [] ==> Within(Mark(|source|, clock.now), old(clock.now), bps, 0)
    ensures clock.asked - old(clock.asked) <= if bps > 0 then |source| as real / bps as real else 0.0
  {
    if bps <= 0 {
      output.Write(source, clock);
      return;
    }
    ghost var began, asked := clock.now, clock.asked;
    var start := clock.Monotonic();
    var sent := 0;
    while true
      invariant sent <= |source| && output.data == source[..sent]
      invariant sent == Total(output.marks) && began <= start
      invariant OnTime(output, clock, sent, bps, began, start, asked)
      decreases |source| - sent
    {
      var size: nat := Chunk(|source| - sent);
      if size == 0 {
        break;
      }
      WriteAndPace(source[sent..sent + size], output, clock, bps, began, start, asked);
      sent := sent + size;
    }
  }

  /** Every write so far kept the pace, nothing is ahead now, and no sleep was wasted. */
  ghost predicate OnTime(output: Output, clock: Clock, sent: nat, bps: int, began: real, start: real, asked: real)
    requires bps > 0
    reads output, clock
  {
    && AllPaced(output.marks, began, bps) && start <= clock.now
    && Within(Mark(sent, clock.now), began, bps, 0)
    && clock.asked - asked <= sent as real / bps as real
    && clock.asked - asked <= clock.now - start
  }

  /** One turn of the loop: a chunk goes out, then the transfer waits for the rate. */
  method WriteAndPace(chunk: Bytes, output: Output, clock: Clock, bps: int, ghost began: real, start: real, ghost asked: real)
    requires bps > 0 && |chunk| <= BUFSIZE && began <= start
    requires Total(output.marks) == |output.data| && OnTime(output, clock, |output.data|, bps, began, start, asked)
    modifies output, clock
    ensures output.data == old(output.data) + chunk && Total(output.marks) == |output.data|
    ensures clock.now >= old(clock.now) && OnTime(output, clock, |output.data|, bps, began, start, asked)
  {
    var sent := |output.data| + |chunk|;
    PacedThen(output.marks, Mark(sent, clock.now), began, bps);
    ShareGrows(|output.data|, |chunk|, bps);
    output.Write(chunk, clock);
    var elapsed := Pace(clock, start, sent, bps);
    Later(sent, bps, clock.now - start, clock.now - began);
  }

  /** How much one read() returns: nothing only at the end, never more than the buffer. */
  method Chunk(left: nat) returns (size: nat)
    ensures size <= left && size <= BUFSIZE && (size == 0 <==> left == 0)
  {
    size :| size <= left && size <= BUFSIZE && (size == 0 <==> left == 0);
  }

  /** _ThrottledSource: a body that can only be read at the rate, with what was read so far. */
  class ThrottledSource {
    const body: Bytes
    const bps: int
    const clock: Clock
    const start: real
    var position: nat
    var sent: nat

    ghost predicate Valid()
      reads this, clock
    {
      && position <= |body|
      && (bps > 0 ==> sent == position)
      && (bps > 0 && sent > 0 ==> Within(Mark(sent, clock.now), start, bps, 0))
    }

    constructor (body: Bytes, bps: int, clock: Clock)
      ensures Valid() && this.body == body && this.bps == bps && this.clock == clock
      ensures position == 0 && start == clock.now
    {
      this.body, this.bps, this.clock, start := body, bps, clock, clock.now;
      position, sent := 0, 0;
    }

    /** read(size), a negative size meaning everything that is left. It returns the next bytes,
        and only once the rate allows everything read so far. */
    method Read(size: int) returns (data: Bytes)
      requires Valid()
      modifies this, clock
      ensures Valid() && clock.now >= old(clock.now)
      ensures old(position) <= position && data == body[old(position)..position]
      ensures |data| == if 0 <= size < |body| - old(position) then size else |body| - old(position)
      ensures bps > 0 && data != [] ==> Within(Mark(position, clock.now), start, bps, 0)
    {
      var left := |body| - position;
      var n := if size < 0 || size > left then left else size;
      data := body[position..position + n];
      position := position + n;
      if data == [] || bps <= 0 {
        return;
      }
      sent := sent + |data|;
      var elapsed := Pace(clock, start, sent, bps);
    }
  }
}
