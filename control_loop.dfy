/** The processing loop of `main`, run against a script of interleaved
    callback invocations and loop iterations. */
module ControlLoop {
  import opened Frames
  import opened FrameQueue
  import opened Telemetry
  import opened Snapshot

  /** One step of a session: the capture library invoking the callback
      with a frame, or the loop taking its next turn, `now` being what
      `datetime.now()` reads once a frame has been taken. */
  datatype Event = Arrive(frame: UvcFrame) | Poll(now: int)

  /** How the loop stopped: the script ran out, `q.get` raised
      `queue.Empty`, or the telemetry decoder raised `IndexError`. */
  datatype End = Exhausted | QueueEmpty | TelemetryIndexError

  /** Whether the loop goes on after a step. */
  datatype Outcome = Continue | Stop(end: End)

  /** What one step did: frames admitted by the callback, frames taken by
      the loop, telemetry records printed, frame times that reached the
      save test, the times of the frames saved, and the queue and `lastframetime` after. */
  datatype StepOut = StepOut(
    admitted: seq<Grid>,
    taken: seq<Grid>,
    records: seq<TelemetryRecord>,
    processed: seq<int>,
    snapshots: seq<int>,
    outcome: Outcome,
    queue: seq<Grid>,
    last: int)

  /** One event against queue contents `queue` and `lastframetime` `last`.
      A frame is decoded from its trailing rows before the save test, so a
      decoding failure stops the loop before that frame can be saved. */
  function Step(cfg: Config, queue: seq<Grid>, last: int, e: Event): StepOut
  {
    match e
    case Arrive(f) =>
      StepOut(if Admits(queue, f) then [f.pixels] else [], [], [], [], [], Continue, Offered(queue, f), last)
    case Poll(now) =>
      if queue == [] then StepOut([], [], [], [], [], Stop(QueueEmpty), queue, last)
      else match Decode(TrailingRows(queue[0]))
        case IndexError => StepOut([], [queue[0]], [], [], [], Stop(TelemetryIndexError), queue[1..], last)
        case Ok(rec) =>
          var save := Gate(cfg, last, now);
          StepOut([], [queue[0]], [rec], [now], if save then [now] else [],
                  Continue, queue[1..], if save then now else last)
  }

  /** What a session produced, gathered over its steps, with how it ended
      and what was left in the queue. */
  datatype Log = Log(
    admitted: seq<Grid>,
    taken: seq<Grid>,
    records: seq<TelemetryRecord>,
    processed: seq<int>,
    snapshots: seq<int>,
    end: End,
    remaining: seq<Grid>)

  /** The output of one step in front of the output still to come. */
  function Prepend(o: StepOut, l: Log): Log
  {
    l.(admitted := o.admitted + l.admitted, taken := o.taken + l.taken,
       records := o.records + l.records, processed := o.processed + l.processed,
       snapshots := o.snapshots + l.snapshots)
  }

  /** The session's outcome from queue contents `queue` and last-save time
      `last`: steps run in order until one stops the loop or the script
      ends. */
  function Session(cfg: Config, queue: seq<Grid>, last: int, events: seq<Event>): Log
    decreases |events|
  {
    if events == [] then Log([], [], [], [], [], Exhausted, queue)
    else
      var o := Step(cfg, queue, last, events[0]);
      match o.outcome
      case Stop(end) => Log(o.admitted, o.taken, o.records, o.processed, o.snapshots, end, o.queue)
      case Continue => Prepend(o, Session(cfg, o.queue, o.last, events[1..]))
  }

  /** One turn of the loop body, or one callback invocation, on the shared
      queue. */
  method Turn(q: Queue, cfg: Config, lastframetime: int, e: Event) returns (o: StepOut)
    requires q.Valid()
    modifies q
    ensures q.Valid()
    ensures o == Step(cfg, old(q.items), lastframetime, e)
    ensures q.items == o.queue
  {
    match e {
      case Arrive(f) =>
        var admits := Admits(q.items, f);
        FrameCallback(q, f);
        o := StepOut(if admits then [f.pixels] else [], [], [], [], [], Continue, q.items, lastframetime);
      case Poll(now) =>
        var got := q.Get();
        match got {
          case Empty =>
            o := StepOut([], [], [], [], [], Stop(QueueEmpty), q.items, lastframetime);
          case Got(data) =>
            var tel := Decode(TrailingRows(data));
            match tel {
              case IndexError =>
                o := StepOut([], [data], [], [], [], Stop(TelemetryIndexError), q.items, lastframetime);
              case Ok(rec) =>
                if Gate(cfg, lastframetime, now) {
                  o := StepOut([], [data], [rec], [now], [now], Continue, q.items, now);
                } else {
                  o := StepOut([], [data], [rec], [now], [], Continue, q.items, lastframetime);
                }
            }
        }
    }
  }

  /** The outputs of two consecutive steps, joined; the queue, the last
      save time and the outcome are those of the second. */
  function Then(a: StepOut, b: StepOut): StepOut
  {
    b.(admitted := a.admitted + b.admitted, taken := a.taken + b.taken,
       records := a.records + b.records, processed := a.processed + b.processed,
       snapshots := a.snapshots + b.snapshots)
  }

  /** Prepending two steps one by one is prepending them joined. */
  lemma PrependThen(a: StepOut, b: StepOut, l: Log)
    ensures Prepend(a, Prepend(b, l)) == Prepend(Then(a, b), l)
  {
    assert a.admitted + (b.admitted + l.admitted) == (a.admitted + b.admitted) + l.admitted;
    assert a.taken + (b.taken + l.taken) == (a.taken + b.taken) + l.taken;
    assert a.records + (b.records + l.records) == (a.records + b.records) + l.records;
    assert a.processed + (b.processed + l.processed) == (a.processed + b.processed) + l.processed;
    assert a.snapshots + (b.snapshots + l.snapshots) == (a.snapshots + b.snapshots) + l.snapshots;
  }

  /** `main`'s `while True` loop with `starttime` and `lastframetime` as
      locals, driving the shared queue `q` through `events`. */
  method RunSession(q: Queue, cfg: Config, events: seq<Event>) returns (log: Log)
    requires q.Valid()
    modifies q
    ensures q.Valid()
    ensures log == Session(cfg, old(q.items), cfg.start, events)
    ensures q.items == log.remaining
  {
    var lastframetime := cfg.start;
    var done := StepOut([], [], [], [], [], Continue, q.items, lastframetime);
    var i := 0;
    ghost var whole := Session(cfg, q.items, lastframetime, events);
    while i < |events| && done.outcome == Continue
      invariant 0 <= i <= |events| && q.Valid()
      invariant q.items == done.queue && lastframetime == done.last
      invariant done.outcome == Continue ==> whole == Prepend(done, Session(cfg, q.items, lastframetime, events[i..]))
      invariant done.outcome.Stop? ==>
        whole == Log(done.admitted, done.taken, done.records, done.processed, done.snapshots,
                     done.outcome.end, q.items)
      decreases |events| - i
    {
      ghost var rest := Session(cfg, q.items, lastframetime, events[i..]);
      assert events[i..][0] == events[i] && events[i..][1..] == events[i + 1..];
      var o := Turn(q, cfg, lastframetime, events[i]);
      if o.outcome == Continue {
        assert rest == Prepend(o, Session(cfg, o.queue, o.last, events[i + 1..]));
        PrependThen(done, o, Session(cfg, o.queue, o.last, events[i + 1..]));
      } else {
        assert rest == Log(o.admitted, o.taken, o.records, o.processed, o.snapshots, o.outcome.end, o.queue);
      }
      done := Then(done, o);
      lastframetime := o.last;
      i := i + 1;
    }
    if done.outcome == Continue {
      assert events[i..] == [];
    }
    log := Log(done.admitted, done.taken, done.records, done.processed, done.snapshots,
               if done.outcome.Stop? then done.outcome.end else Exhausted, q.items);
  }

  /** One step takes frames from the front and admits them at the back. */
  lemma StepIsFifo(cfg: Config, queue: seq<Grid>, last: int, e: Event)
    ensures var o := Step(cfg, queue, last, e);
            o.taken + o.queue == queue + o.admitted
  {
    match e
    case Arrive(f) =>
      OfferAppendsIfAdmitted(queue, f);
    case Poll(now) =>
      if queue != [] {
        assert queue == [queue[0]] + queue[1..];
      }
  }

  /** Two FIFO stretches in a row make one: if `taken` then `mid` is
      `start` then `added`, and `taken'` then `rest` is `mid` then
      `added'`, the frames taken over both stretches then `rest` is `start`
      then everything added. */
  lemma FifoCompose(start: seq<Grid>, taken: seq<Grid>, mid: seq<Grid>, added: seq<Grid>,
                    taken': seq<Grid>, rest: seq<Grid>, added': seq<Grid>)
    requires taken + mid == start + added
    requires taken' + rest == mid + added'
    ensures (taken + taken') + rest == start + (added + added')
  {
    calc {
      (taken + taken') + rest;
      taken + (mid + added');
      (taken + mid) + added';
      (start + added) + added';
    }
  }

  /** No frame is lost, duplicated or reordered: the frames taken followed
      by those left equal the frames queued at the start followed by those
      the callback admitted. */
  lemma {:induction false} SessionIsFifo(cfg: Config, queue: seq<Grid>, last: int, events: seq<Event>)
    ensures var l := Session(cfg, queue, last, events);
            l.taken + l.remaining == queue + l.admitted
    decreases |events|
  {
    if events != [] {
      var o := Step(cfg, queue, last, events[0]);
      StepIsFifo(cfg, queue, last, events[0]);
      if o.outcome == Continue {
        SessionIsFifo(cfg, o.queue, o.last, events[1..]);
        var rest := Session(cfg, o.queue, o.last, events[1..]);
        FifoCompose(queue, o.taken, o.queue, o.admitted, rest.taken, rest.remaining, rest.admitted);
      }
    }
  }

  /** The queue never holds more than `BufSize` frames. */
  lemma {:induction false} SessionKeepsBound(cfg: Config, queue: seq<Grid>, last: int, events: seq<Event>)
    requires |queue| <= BufSize
    ensures |Session(cfg, queue, last, events).remaining| <= BufSize
    decreases |events|
  {
    if events != [] {
      var o := Step(cfg, queue, last, events[0]);
      if events[0].Arrive? {
        OfferKeepsBound(queue, events[0].frame);
      }
      if o.outcome == Continue {
        SessionKeepsBound(cfg, o.queue, o.last, events[1..]);
      }
    }
  }

  /** The snapshots of one step are exactly what the snapshot policy
      schedules for the frame time it processed. */
  lemma StepFollowsSchedule(cfg: Config, queue: seq<Grid>, last: int, e: Event)
    ensures var o := Step(cfg, queue, last, e);
            && o.snapshots == Schedule(cfg, last, o.processed)
            && o.last == LastAfter(cfg, last, o.processed)
            && |o.records| == |o.processed|
  {
    match e
    case Arrive(f) =>
    case Poll(now) =>
      if queue != [] && Decode(TrailingRows(queue[0])).Ok? {
        assert [now][1..] == [];
      }
  }

  /** The snapshots of a session are exactly those the snapshot policy
      schedules for the frame times that reached the save test, and one
      telemetry record was printed per such frame. */
  lemma {:induction false} SessionFollowsSchedule(cfg: Config, queue: seq<Grid>, last: int, events: seq<Event>)
    ensures var l := Session(cfg, queue, last, events);
            l.snapshots == Schedule(cfg, last, l.processed) && |l.records| == |l.processed|
    decreases |events|
  {
    if events != [] {
      var o := Step(cfg, queue, last, events[0]);
      StepFollowsSchedule(cfg, queue, last, events[0]);
      if o.outcome == Continue {
        SessionFollowsSchedule(cfg, o.queue, o.last, events[1..]);
        var rest := Session(cfg, o.queue, o.last, events[1..]);
        ScheduleAppend(cfg, last, o.processed, rest.processed);
      }
    }
  }

  /** A session with a positive interval saves frames more than `interval`
      seconds apart, the first more than `interval` after the start
      (`SpacedPairwise` reads this at every index). */
  lemma SessionSnapshotsSpaced(cfg: Config, queue: seq<Grid>, events: seq<Event>)
    requires cfg.interval > 0.0
    ensures Spaced(cfg.interval, cfg.start, Session(cfg, queue, cfg.start, events).snapshots)
  {
    SessionFollowsSchedule(cfg, queue, cfg.start, events);
    PositiveIntervalSpacesSnapshots(cfg, cfg.start, Session(cfg, queue, cfg.start, events).processed);
  }

  /** Every frame a session saves was processed, and there is a stem to
      name it with, so `SnapshotName` of its time is defined. */
  lemma SessionSnapshotsNamed(cfg: Config, queue: seq<Grid>, events: seq<Event>)
    ensures var l := Session(cfg, queue, cfg.start, events);
            forall i :: 0 <= i < |l.snapshots| ==>
              l.snapshots[i] in l.processed && HasStem(cfg.stem)
  {
    var l := Session(cfg, queue, cfg.start, events);
    SessionFollowsSchedule(cfg, queue, cfg.start, events);
    SnapshotsAtFrameTimes(cfg, cfg.start, l.processed);
    if !HasStem(cfg.stem) {
      NoStemNoSnapshots(cfg, cfg.start, l.processed);
    }
  }

  /** Without a stem a session saves nothing, and with a negative interval
      neither. */
  lemma SessionWithoutSnapshots(cfg: Config, queue: seq<Grid>, events: seq<Event>)
    requires !HasStem(cfg.stem) || cfg.interval < 0.0
    ensures Session(cfg, queue, cfg.start, events).snapshots == []
  {
    SessionFollowsSchedule(cfg, queue, cfg.start, events);
    var times := Session(cfg, queue, cfg.start, events).processed;
    if !HasStem(cfg.stem) {
      NoStemNoSnapshots(cfg, cfg.start, times);
    } else {
      NegativeIntervalNoSnapshots(cfg, cfg.start, times);
    }
  }

  /** With a stem and interval 0 every frame that reached the save test is
      saved. */
  lemma SessionSavesEveryFrame(cfg: Config, queue: seq<Grid>, events: seq<Event>)
    requires HasStem(cfg.stem) && cfg.interval == 0.0
    ensures var l := Session(cfg, queue, cfg.start, events);
            l.snapshots == l.processed
  {
    SessionFollowsSchedule(cfg, queue, cfg.start, events);
    ZeroIntervalSavesEveryFrame(cfg, cfg.start, Session(cfg, queue, cfg.start, events).processed);
  }
}
