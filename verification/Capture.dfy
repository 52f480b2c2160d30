/** The capture supervisor of capture/run_capture.py as a state machine.

    Reader threads and the main thread interleave in any order; a step is one action of one
    thread, and everything outside the program (the child process, signals, time, the parser
    and the writer) chooses freely. A counter increment is one step. The fields marked as
    history are not in the program and no step depends on them. */
module Capture {
  import opened Counting
  import opened Powers

  type Line = string

  datatype Reason = WrongColumns | NonIp | BadTimestamp | BadLength | BadPort | BadIp | Validation

  datatype Parsed = Record | Reject(reason: Reason)

  type Parser = Line -> Parsed

  /** A reader thread: waiting for a line, holding one it has read, past its stop test, or ended. */
  datatype Reader = Waiting | Holding(line: Line) | Putting(line: Line) | Ended

  /** The line the main thread is working on: taken from the queue, or also counted. */
  datatype Hand = Empty | Taken(line: Line) | Counted(line: Line)

  /** Where the main thread is: the head of the supervisor loop, the consumer loop, the checks
      after a line, the drain after the child has exited, the handling of its exit code, the
      final drain, the end, or stopped by an exception of the writer. */
  datatype Phase = Supervise | Consume | Checks | DrainExited | AfterExit | FinalDrain | Returned(code: int) | Crashed

  /** The readers and the bounded queue; history: lines read, discarded at the stop test, put
      attempts, and the accepted lines. */
  datatype Pipe = Pipe(queue: seq<Line>, readers: seq<Reader>, dropped: nat,
                       linesRead: nat, discarded: nat, attempts: nat, accepted: seq<Line>)

  /** What the main thread has done with lines; history: lines taken, handled and written. */
  datatype Work = Work(hand: Hand, framesSeen: nat, recordsWritten: nat, rejects: map<Reason, nat>,
                       taken: seq<Line>, handled: seq<Line>, output: seq<Line>)

  /** The supervisor; history: seconds slept, starts of the child, whether a start failed. */
  datatype Control = Control(stop: bool, phase: Phase, restarts: nat, slept: nat, launches: nat, startFailed: bool)

  datatype State = State(pipe: Pipe, work: Work, control: Control)

  const BACKOFFS: seq<nat> := [1, 2, 4, 8, 16]

  function Init(): State {
    State(Pipe([], [], 0, 0, 0, 0, []), Work(Empty, 0, 0, map[], [], [], []), Control(false, Supervise, 0, 0, 0, false))
  }

  datatype Step =
    | Signal
    | Read(reader: nat, line: Line)
    | EndOfOutput(reader: nat)
    | TestStop(reader: nat)
    | Put(reader: nat)
    | Main(startOk: bool, writeOk: bool, durationUp: bool, exited: bool, exitCode: int)

  function TotalRejects(m: map<Reason, nat>): nat {
    Get(m, WrongColumns) + Get(m, NonIp) + Get(m, BadTimestamp) + Get(m, BadLength)
    + Get(m, BadPort) + Get(m, BadIp) + Get(m, Validation)
  }

  // ---------------------------------------------------------------- the steps

  function ReaderStep(size: int, p: Pipe, stop: bool, step: Step): Pipe
    requires !step.Main? && !step.Signal? && step.reader < |p.readers|
  {
    var i := step.reader;
    match (step, p.readers[i])
    case (Read(_, line), Waiting) =>
      p.(readers := p.readers[i := Holding(line)], linesRead := p.linesRead + 1)
    case (EndOfOutput(_), Waiting) =>
      p.(readers := p.readers[i := Ended])
    case (TestStop(_), Holding(line)) =>
      if stop then p.(readers := p.readers[i := Ended], discarded := p.discarded + 1)
      else p.(readers := p.readers[i := Putting(line)])
    case (Put(_), Putting(line)) =>
      var q := p.(readers := p.readers[i := Waiting], attempts := p.attempts + 1);
      if 0 < size <= |p.queue| then q.(dropped := p.dropped + 1)
      else q.(queue := p.queue + [line], accepted := p.accepted + [line])
    case _ => p
  }

  /** Takes the oldest line from the queue. */
  function Take(s: State): State
    requires s.pipe.queue != []
  {
    var line := s.pipe.queue[0];
    s.(pipe := s.pipe.(queue := s.pipe.queue[1..]),
       work := s.work.(hand := Taken(line), taken := s.work.taken + [line]))
  }

  /** Where the main thread goes once a line is finished. */
  function AfterLine(phase: Phase): Phase {
    if phase == Consume then Checks else phase
  }

  /** The main thread goes on with the line in its hand: count it, then parse it and write the
      record or log the reject. */
  function HandStep(parse: Parser, w: Work, writeOk: bool): Work
    requires !w.hand.Empty?
  {
    match w.hand
    case Taken(line) => w.(framesSeen := w.framesSeen + 1, hand := Counted(line))
    case Counted(line) =>
      match parse(line)
      case Record =>
        if writeOk
        then w.(recordsWritten := w.recordsWritten + 1, hand := Empty, handled := w.handled + [line], output := w.output + [line])
        else w
      case Reject(reason) =>
        w.(rejects := w.rejects[reason := Get(w.rejects, reason) + 1], hand := Empty, handled := w.handled + [line])
  }

  function PhaseAfterHand(parse: Parser, w: Work, phase: Phase, writeOk: bool): Phase
    requires !w.hand.Empty?
  {
    if w.hand.Taken? then phase
    else if parse(w.hand.line).Record? && !writeOk then Crashed
    else AfterLine(phase)
  }

  /** Whether the main thread takes a line now. */
  predicate Takes(s: State) {
    s.pipe.queue != [] && (s.control.phase in {DrainExited, FinalDrain} || (s.control.phase == Consume && !s.control.stop))
  }

  /** The main thread's control, when it has no line in hand and takes none. */
  function ControlStep(c: Control, startOk: bool, durationUp: bool, exited: bool, exitCode: int): Control {
    match c.phase
    case Supervise =>
      if c.stop || c.restarts > |BACKOFFS| then c.(phase := FinalDrain)
      else if startOk then c.(phase := Consume, launches := c.launches + 1)
      else c.(phase := Returned(1), launches := c.launches + 1, startFailed := true)
    case Consume =>
      if c.stop then c.(phase := AfterExit) else c.(phase := Checks)
    case Checks =>
      if durationUp then c.(stop := true, phase := AfterExit)
      else if exited then c.(phase := DrainExited)
      else c.(phase := Consume)
    case DrainExited => c.(phase := AfterExit)
    case AfterExit =>
      if c.stop then c.(phase := Supervise)
      else if exitCode == 0 then c.(phase := FinalDrain)
      else if c.restarts + 1 > |BACKOFFS| then c.(restarts := c.restarts + 1, stop := true, phase := Returned(1))
      else c.(restarts := c.restarts + 1, slept := c.slept + Backoff(c.restarts), phase := Supervise)
    case FinalDrain => c.(phase := Returned(0))
    case Returned(_) => c
    case Crashed => c
  }

  function Backoff(i: nat): nat {
    if i < |BACKOFFS| then BACKOFFS[i] else 0
  }

  /** A started child brings a new reader thread. */
  function Started(p: Pipe, before: Control, after: Control): Pipe {
    if before.phase == Supervise && after.phase == Consume then p.(readers := p.readers + [Waiting]) else p
  }

  /** A step that is not possible leaves the state as it is. */
  function Next(parse: Parser, size: int, s: State, step: Step): State {
    match step
    case Signal => s.(control := s.control.(stop := true))
    case Main(startOk, writeOk, durationUp, exited, exitCode) =>
      if s.control.phase == Crashed then s
      else if !s.work.hand.Empty? then
        s.(work := HandStep(parse, s.work, writeOk),
           control := s.control.(phase := PhaseAfterHand(parse, s.work, s.control.phase, writeOk)))
      else if Takes(s) then Take(s)
      else
        var c := ControlStep(s.control, startOk, durationUp, exited, exitCode);
        s.(pipe := Started(s.pipe, s.control, c), control := c)
    case _ =>
      if step.reader < |s.pipe.readers| then s.(pipe := ReaderStep(size, s.pipe, s.control.stop, step)) else s
  }

  function Execute(parse: Parser, size: int, steps: seq<Step>): State {
    if steps == [] then Init() else Next(parse, size, Execute(parse, size, steps[..|steps| - 1]), steps[|steps| - 1])
  }

  // ---------------------------------------------------------------- the invariant

  function InHand(h: Hand): seq<Line> {
    if h.Empty? then [] else [h.line]
  }

  function Records(parse: Parser, lines: seq<Line>): seq<Line> {
    if lines == [] then []
    else Records(parse, lines[..|lines| - 1]) + if parse(lines[|lines| - 1]).Record? then [lines[|lines| - 1]] else []
  }

  function RejectCount(parse: Parser, lines: seq<Line>, r: Reason): nat {
    if lines == [] then 0
    else RejectCount(parse, lines[..|lines| - 1], r) + if parse(lines[|lines| - 1]) == Reject(r) then 1 else 0
  }

  function Holds(r: Reader): nat {
    if r.Holding? || r.Putting? then 1 else 0
  }

  /** How many readers hold a line they have not tried to put. */
  function Held(readers: seq<Reader>): nat {
    if readers == [] then 0 else Held(readers[..|readers| - 1]) + Holds(readers[|readers| - 1])
  }

  function BackoffSum(n: nat): nat {
    if n == 0 then 0 else BackoffSum(n - 1) + Backoff(n - 1)
  }

  /** Every line read is put, discarded at shutdown or still held; every put is accepted or
      dropped; a bounded queue stays within its size and an unbounded one drops nothing. */
  ghost predicate PipeFlow(size: int, p: Pipe) {
    && p.linesRead == p.attempts + p.discarded + Held(p.readers)
    && p.attempts == |p.accepted| + p.dropped
    && (size > 0 ==> |p.queue| <= size)
    && (size <= 0 ==> p.dropped == 0)
  }

  /** Accepted lines are taken in order, and handled in order up to the one in hand. */
  ghost predicate Fifo(p: Pipe, w: Work) {
    && p.accepted == w.taken + p.queue
    && w.taken == w.handled + InHand(w.hand)
    && w.framesSeen == |w.handled| + (if w.hand.Counted? then 1 else 0)
  }

  /** What became of the handled lines. */
  ghost predicate Results(parse: Parser, w: Work) {
    && w.output == Records(parse, w.handled)
    && w.recordsWritten == |w.output|
    && (forall r :: Get(w.rejects, r) == RejectCount(parse, w.handled, r))
    && w.recordsWritten + TotalRejects(w.rejects) == |w.handled|
  }

  /** Where the main thread can be, and how often it has started the child and slept. */
  ghost predicate Budget(c: Control) {
    && c.slept == BackoffSum(c.restarts)
    && c.launches <= c.restarts + 1
    && (c.phase == Supervise && !c.stop ==> c.launches == c.restarts)
    && (c.phase in {Consume, Checks, DrainExited, AfterExit} ==> c.launches == c.restarts + 1)
    && (c.phase.Returned? ==> c.phase.code in {0, 1})
    && (c.phase == Returned(1) ==> c.startFailed || c.restarts == |BACKOFFS| + 1)
    && (c.restarts > |BACKOFFS| ==> c.restarts == |BACKOFFS| + 1 == c.launches && c.phase == Returned(1))
  }

  ghost predicate HandPhase(w: Work, phase: Phase) {
    && (w.hand.Empty? || phase in {Consume, DrainExited, FinalDrain, Crashed})
    && (phase == Crashed ==> w.hand.Counted?)
  }

  ghost predicate Inv(parse: Parser, size: int, s: State) {
    && PipeFlow(size, s.pipe)
    && Fifo(s.pipe, s.work)
    && Results(parse, s.work)
    && Budget(s.control)
    && HandPhase(s.work, s.control.phase)
  }

  lemma {:induction false} HeldUpdate(readers: seq<Reader>, i: nat, r: Reader)
    requires i < |readers|
    ensures Held(readers[i := r]) == Held(readers) + Holds(r) - Holds(readers[i])
  {
    var init := readers[..|readers| - 1];
    if i < |readers| - 1 {
      HeldUpdate(init, i, r);
      assert readers[i := r][..|readers| - 1] == init[i := r];
    } else {
      assert readers[i := r][..|readers| - 1] == init;
    }
  }

  lemma ReaderKeeps(size: int, p: Pipe, w: Work, stop: bool, step: Step)
    requires PipeFlow(size, p) && Fifo(p, w) && !step.Main? && !step.Signal? && step.reader < |p.readers|
    ensures PipeFlow(size, ReaderStep(size, p, stop, step)) && Fifo(ReaderStep(size, p, stop, step), w)
  {
    hide Held;
    var i, q := step.reader, ReaderStep(size, p, stop, step);
    HeldUpdate(p.readers, i, q.readers[i]);
    assert q.readers == p.readers[i := q.readers[i]];
    if q.queue != p.queue {
      assert q.accepted == w.taken + q.queue;
    }
  }

  lemma TakeKeeps(s: State)
    requires Fifo(s.pipe, s.work) && s.work.hand.Empty? && s.pipe.queue != []
    ensures Fifo(Take(s).pipe, Take(s).work)
  {
    var queue := s.pipe.queue;
    assert queue == [queue[0]] + queue[1..];
    assert s.work.taken + [queue[0]] + queue[1..] == s.work.taken + queue;
  }

  lemma HandKeeps(parse: Parser, p: Pipe, w: Work, phase: Phase, writeOk: bool)
    requires Fifo(p, w) && Results(parse, w) && HandPhase(w, phase) && !w.hand.Empty? && phase != Crashed
    ensures Fifo(p, HandStep(parse, w, writeOk)) && Results(parse, HandStep(parse, w, writeOk))
    ensures HandPhase(HandStep(parse, w, writeOk), PhaseAfterHand(parse, w, phase, writeOk))
  {
    hide TotalRejects;
    if w.hand.Counted? {
      hide Records, RejectCount, Get;
      OneMoreLine(parse, w.handled, w.hand.line);
      if parse(w.hand.line).Reject? {
        OneMoreReject(w.rejects, parse(w.hand.line).reason);
      }
    }
  }

  lemma OneMoreLine(parse: Parser, lines: seq<Line>, line: Line)
    ensures Records(parse, lines + [line]) == Records(parse, lines) + if parse(line).Record? then [line] else []
    ensures forall r :: RejectCount(parse, lines + [line], r) == RejectCount(parse, lines, r) + if parse(line) == Reject(r) then 1 else 0
  {
    assert (lines + [line])[..|lines|] == lines;
  }

  lemma BumpOne(m: map<Reason, nat>, r: Reason)
    ensures forall q :: Get(m[r := Get(m, r) + 1], q) == Get(m, q) + if q == r then 1 else 0
  {
  }

  lemma OneMoreReject(m: map<Reason, nat>, r: Reason)
    ensures TotalRejects(m[r := Get(m, r) + 1]) == TotalRejects(m) + 1
    ensures forall q :: Get(m[r := Get(m, r) + 1], q) == Get(m, q) + if q == r then 1 else 0
  {
    hide Get;
    BumpOne(m, r);
    match r
    case WrongColumns =>
    case NonIp =>
    case BadTimestamp =>
    case BadLength =>
    case BadPort =>
    case BadIp =>
    case Validation =>
  }

  lemma HeldAppend(readers: seq<Reader>, r: Reader)
    ensures Held(readers + [r]) == Held(readers) + Holds(r)
  {
    assert (readers + [r])[..|readers|] == readers;
  }

  lemma ControlKeeps(c: Control, startOk: bool, durationUp: bool, exited: bool, exitCode: int)
    requires Budget(c) && c.phase != Crashed
    ensures Budget(ControlStep(c, startOk, durationUp, exited, exitCode))
    ensures ControlStep(c, startOk, durationUp, exited, exitCode).phase != Crashed
  {
    hide BackoffSum, Backoff;
    BackoffStep(c.restarts);
  }

  lemma BackoffStep(n: nat)
    ensures BackoffSum(n + 1) == BackoffSum(n) + Backoff(n)
    ensures BackoffSum(0) == 0 && Backoff(5) == 0
  {
  }

  lemma MainKeeps(parse: Parser, size: int, s: State, step: Step)
    requires Inv(parse, size, s) && step.Main?
    ensures Inv(parse, size, Next(parse, size, s, step))
  {
    hide PipeFlow, Fifo, Results, HandStep, ControlStep, PhaseAfterHand;
    var c := s.control;
    if c.phase != Crashed {
      if !s.work.hand.Empty? {
        HandKeeps(parse, s.pipe, s.work, c.phase, step.writeOk);
        HandControl(parse, s.work, c, step.writeOk);
      } else if Takes(s) {
        TakeKeeps(s);
        TakeRest(parse, size, s);
      } else {
        ControlKeeps(c, step.startOk, step.durationUp, step.exited, step.exitCode);
        StartedKeeps(size, s.pipe, s.work, c, ControlStep(c, step.startOk, step.durationUp, step.exited, step.exitCode));
      }
    }
  }

  lemma HandControl(parse: Parser, w: Work, c: Control, writeOk: bool)
    requires Budget(c) && HandPhase(w, c.phase) && !w.hand.Empty? && c.phase != Crashed
    ensures Budget(c.(phase := PhaseAfterHand(parse, w, c.phase, writeOk)))
  {
  }

  lemma TakeRest(parse: Parser, size: int, s: State)
    requires PipeFlow(size, s.pipe) && Results(parse, s.work) && Takes(s) && s.work.hand.Empty?
    ensures PipeFlow(size, Take(s).pipe) && Results(parse, Take(s).work) && HandPhase(Take(s).work, s.control.phase)
  {
  }

  lemma StartedKeeps(size: int, p: Pipe, w: Work, c: Control, c': Control)
    requires PipeFlow(size, p) && Fifo(p, w)
    ensures PipeFlow(size, Started(p, c, c')) && Fifo(Started(p, c, c'), w)
  {
    HeldAppend(p.readers, Waiting);
  }

  lemma NextKeeps(parse: Parser, size: int, s: State, step: Step)
    requires Inv(parse, size, s)
    ensures Inv(parse, size, Next(parse, size, s, step))
  {
    hide PipeFlow, Fifo, Results, ReaderStep, HandStep, ControlStep, Takes, BackoffSum;
    if step.Main? {
      MainKeeps(parse, size, s, step);
    } else if !step.Signal? && step.reader < |s.pipe.readers| {
      ReaderKeeps(size, s.pipe, s.work, s.control.stop, step);
    }
  }

  lemma ExecuteStep(parse: Parser, size: int, steps: seq<Step>)
    ensures steps == [] ==> Execute(parse, size, steps) == Init()
    ensures steps != [] ==> Execute(parse, size, steps) == Next(parse, size, Execute(parse, size, steps[..|steps| - 1]), steps[|steps| - 1])
  {
  }

  lemma InitInv(parse: Parser, size: int)
    ensures Inv(parse, size, Init())
  {
    hide Results, BackoffSum, Backoff;
    InitResults(parse);
    BackoffStep(0);
  }

  lemma InitResults(parse: Parser)
    ensures Results(parse, Init().work)
  {
    assert TotalRejects(map[]) == 0;
    hide TotalRejects;
  }

  /** The invariant holds in every state of every run, whatever the interleaving. */
  lemma {:induction false} Invariant(parse: Parser, size: int, steps: seq<Step>)
    ensures Inv(parse, size, Execute(parse, size, steps))
  {
    hide *;
    ExecuteStep(parse, size, steps);
    if steps != [] {
      Invariant(parse, size, steps[..|steps| - 1]);
      NextKeeps(parse, size, Execute(parse, size, steps[..|steps| - 1]), steps[|steps| - 1]);
    } else {
      InitInv(parse, size);
    }
  }

  // ---------------------------------------------------------------- what a run promises

  /** Conservation at any moment: every attempt to put a line is counted as seen, still queued,
      counted as dropped, or the one line just taken from the queue; every line counted as
      seen is written, rejected, or the one just counted. */
  lemma Conservation(parse: Parser, size: int, steps: seq<Step>)
    ensures var s := Execute(parse, size, steps);
            s.pipe.attempts == s.work.framesSeen + |s.pipe.queue| + s.pipe.dropped + if s.work.hand.Taken? then 1 else 0
    ensures var s := Execute(parse, size, steps);
            s.work.framesSeen == s.work.recordsWritten + TotalRejects(s.work.rejects) + if s.work.hand.Counted? then 1 else 0
    ensures var s := Execute(parse, size, steps);
            s.pipe.linesRead == s.pipe.attempts + s.pipe.discarded + Held(s.pipe.readers)
  {
    hide Execute, TotalRejects;
    Invariant(parse, size, steps);
  }

  /** At rest the counters add up exactly; only an exception of the writer leaves one line that
      was seen but neither written nor rejected. */
  lemma AtRest(parse: Parser, size: int, steps: seq<Step>)
    ensures var s := Execute(parse, size, steps);
            s.control.phase.Returned? ==>
              && s.work.framesSeen == s.work.recordsWritten + TotalRejects(s.work.rejects)
              && s.pipe.attempts == s.work.framesSeen + |s.pipe.queue| + s.pipe.dropped
    ensures var s := Execute(parse, size, steps);
            s.control.phase == Crashed ==> s.work.framesSeen == s.work.recordsWritten + TotalRejects(s.work.rejects) + 1
  {
    hide Execute, TotalRejects;
    Invariant(parse, size, steps);
  }

  /** Lines are handled in the order in which the queue accepted them, each once; the output is
      exactly the records among them, in that order, and each reason's counter is exact. */
  lemma InOrder(parse: Parser, size: int, steps: seq<Step>)
    ensures var s := Execute(parse, size, steps);
            s.pipe.accepted == s.work.handled + InHand(s.work.hand) + s.pipe.queue
    ensures var s := Execute(parse, size, steps);
            s.work.output == Records(parse, s.work.handled)
            && forall r :: Get(s.work.rejects, r) == RejectCount(parse, s.work.handled, r)
  {
    hide Execute, TotalRejects;
    Invariant(parse, size, steps);
  }

  /** A run starts the child at most 6 times and sleeps at most 31 seconds between starts; it
      fails with code 1 only because a start failed or the sixth child failed. */
  lemma RestartBudget(parse: Parser, size: int, steps: seq<Step>)
    ensures var c := Execute(parse, size, steps).control;
            c.launches <= 6 && c.slept <= 31 && c.restarts <= 6
    ensures var c := Execute(parse, size, steps).control;
            c.phase.Returned? && c.phase.code != 0 ==>
              c.phase.code == 1 && (c.startFailed || (c.launches == 6 && c.slept == 31))
  {
    hide Execute;
    Invariant(parse, size, steps);
    BackoffTotal(Execute(parse, size, steps).control.restarts);
  }

  lemma BackoffTotal(n: nat)
    requires n <= 6
    ensures BackoffSum(n) <= 31 && BackoffSum(6) == 31
  {
    assert BackoffSum(0) == 0 && BackoffSum(1) == 1 && BackoffSum(2) == 3;
    assert BackoffSum(3) == 7 && BackoffSum(4) == 15 && BackoffSum(5) == 31;
  }

  // ---------------------------------------------------------------- which returns drain the queue

  /** The child could not be started. */
  predicate StartFails(s: State, step: Step) {
    step.Main? && s.control.phase == Supervise && !s.control.stop && !step.startOk
  }

  /** The sixth child has failed. */
  predicate SixthFailure(s: State, step: Step) {
    step.Main? && s.control.phase == AfterExit && !s.control.stop && step.exitCode != 0 && s.control.restarts == |BACKOFFS|
  }

  /** The final drain finds the queue empty and nothing in hand. */
  predicate Drained(s: State, step: Step) {
    step.Main? && s.control.phase == FinalDrain && s.work.hand.Empty? && s.pipe.queue == []
  }

  /** When a run returns, and with which code: with 0 exactly at the end of the final drain,
      with 1, and without the drain, exactly on a start that fails or on the sixth failure. */
  lemma ReturnsWhen(parse: Parser, size: int, steps: seq<Step>, step: Step)
    requires !Execute(parse, size, steps).control.phase.Returned?
    ensures var s := Execute(parse, size, steps);
            var s' := Next(parse, size, s, step);
            && (s'.control.phase == Returned(0) <==> Drained(s, step))
            && (s'.control.phase == Returned(1) <==> StartFails(s, step) || SixthFailure(s, step))
            && (s'.control.phase.Returned? ==> s'.control.phase.code in {0, 1})
  {
    hide Execute, TotalRejects, BackoffSum, PipeFlow, Results, Fifo;
    Invariant(parse, size, steps);
  }

  /** A return handles every accepted line if and only if nothing is queued at that moment, which
      a return with code 0 guarantees. */
  lemma HandledAtReturn(parse: Parser, size: int, steps: seq<Step>, step: Step)
    requires !Execute(parse, size, steps).control.phase.Returned?
    requires Next(parse, size, Execute(parse, size, steps), step).control.phase.Returned?
    ensures var s := Next(parse, size, Execute(parse, size, steps), step);
            && s.pipe.accepted == s.work.handled + s.pipe.queue
            && (s.work.handled == s.pipe.accepted <==> s.pipe.queue == [])
            && (s.control.phase == Returned(0) ==> s.work.handled == s.pipe.accepted)
  {
    hide Execute, Next, PipeFlow, Results, Budget, HandPhase, Fifo;
    var s := Execute(parse, size, steps);
    Invariant(parse, size, steps);
    ReturnsWhen(parse, size, steps, step);
    ReturnKeepsPipe(parse, size, s, step);
    EmptyHand(s.pipe, s.work);
  }

  lemma EmptyHand(p: Pipe, w: Work)
    requires Fifo(p, w) && w.hand.Empty?
    ensures p.accepted == w.handled + p.queue
    ensures w.handled == p.accepted <==> p.queue == []
  {
    assert w.handled + [] == w.handled;
  }

  /** The step that returns takes and finishes no line. */
  lemma ReturnKeepsPipe(parse: Parser, size: int, s: State, step: Step)
    requires !s.control.phase.Returned? && Next(parse, size, s, step).control.phase.Returned?
    ensures Next(parse, size, s, step).pipe == s.pipe && Next(parse, size, s, step).work == s.work && s.work.hand.Empty?
  {
  }

  const IDLE := Main(true, true, false, true, 1)

  lemma ExecuteAppend(parse: Parser, size: int, steps: seq<Step>, step: Step)
    ensures Execute(parse, size, steps + [step]) == Next(parse, size, Execute(parse, size, steps), step)
  {
    assert (steps + [step])[..|steps|] == steps;
  }

  /** Nothing was captured and the child is about to be started for the n-th time. */
  ghost predicate Quiet(parse: Parser, size: int, steps: seq<Step>, phase: Phase, n: nat) {
    var s := Execute(parse, size, steps);
    && s.pipe.queue == [] && s.pipe.accepted == [] && s.work == Init().work
    && !s.control.stop && s.control.phase == phase && s.control.restarts == n
    && (phase == AfterExit ==> s.pipe.readers != [] && s.pipe.readers[|s.pipe.readers| - 1] == Waiting)
  }

  /** A child that fails without output, up to the handling of its exit code. */
  lemma ChildFails(parse: Parser, size: int, steps: seq<Step>, n: nat) returns (more: seq<Step>)
    requires Quiet(parse, size, steps, Supervise, n) && n <= |BACKOFFS|
    ensures Quiet(parse, size, more, AfterExit, n)
  {
    ExecuteAppend(parse, size, steps, IDLE);
    var started := steps + [IDLE];
    ExecuteAppend(parse, size, started, IDLE);
    var consumed := started + [IDLE];
    ExecuteAppend(parse, size, consumed, IDLE);
    var exited := consumed + [IDLE];
    ExecuteAppend(parse, size, exited, IDLE);
    more := exited + [IDLE];
    hide Execute;
  }

  /** Its restart, as long as there is one left. */
  lemma ChildRestarts(parse: Parser, size: int, steps: seq<Step>, n: nat) returns (more: seq<Step>)
    requires Quiet(parse, size, steps, Supervise, n) && n < |BACKOFFS|
    ensures Quiet(parse, size, more, Supervise, n + 1)
  {
    var failed := ChildFails(parse, size, steps, n);
    ExecuteAppend(parse, size, failed, IDLE);
    more := failed + [IDLE];
    hide Execute;
  }

  /** The last reader still puts a line. */
  lemma LateLine(parse: Parser, size: int, steps: seq<Step>, n: nat, line: Line) returns (more: seq<Step>)
    requires Quiet(parse, size, steps, AfterExit, n)
    ensures var s, s' := Execute(parse, size, steps), Execute(parse, size, more);
            s'.pipe.queue == s'.pipe.accepted == [line] && s'.work == Init().work && s'.control == s.control
  {
    var i := |Execute(parse, size, steps).pipe.readers| - 1;
    ExecuteAppend(parse, size, steps, Read(i, line));
    var reading := steps + [Read(i, line)];
    ExecuteAppend(parse, size, reading, TestStop(i));
    var tested := reading + [TestStop(i)];
    ExecuteAppend(parse, size, tested, Put(i));
    more := tested + [Put(i)];
    hide Execute;
  }

  /** For every parser and queue size: a run whose first child fails and whose second cannot be
      started returns 1 and leaves a line in the queue that it never handles. */
  lemma FailedStartLeavesLine(parse: Parser, size: int, line: Line) returns (steps: seq<Step>)
    ensures var s := Execute(parse, size, steps);
            s.control.phase == Returned(1) && s.control.restarts == 1 && s.pipe.queue == [line] && s.work.handled == []
  {
    NothingYet(parse, size);
    hide Execute;
    var failed := ChildFails(parse, size, [], 0);
    var late := LateLine(parse, size, failed, 0, line);
    ExecuteAppend(parse, size, late, IDLE);
    var restarted := late + [IDLE];
    var noStart := Main(false, true, false, true, 1);
    ExecuteAppend(parse, size, restarted, noStart);
    steps := restarted + [noStart];
  }

  lemma NothingYet(parse: Parser, size: int)
    ensures Quiet(parse, size, [], Supervise, 0)
  {
  }

  /** The same after six children that failed. */
  lemma SixFailuresLeaveLine(parse: Parser, size: int, line: Line) returns (steps: seq<Step>)
    ensures var s := Execute(parse, size, steps);
            s.control.phase == Returned(1) && s.control.restarts == 6 && s.pipe.queue == [line] && s.work.handled == []
  {
    var n, run: seq<Step> := 0, [];
    while n < |BACKOFFS|
      invariant n <= |BACKOFFS| && Quiet(parse, size, run, Supervise, n)
    {
      run := ChildRestarts(parse, size, run, n);
      n := n + 1;
    }
    var failed := ChildFails(parse, size, run, n);
    var late := LateLine(parse, size, failed, n, line);
    ExecuteAppend(parse, size, late, IDLE);
    steps := late + [IDLE];
    hide Execute;
  }

  // ---------------------------------------------------------------- when a line is dropped

  /** The step puts a line. */
  predicate Puts(s: State, step: Step) {
    step.Put? && step.reader < |s.pipe.readers| && s.pipe.readers[step.reader].Putting?
  }

  /** The step puts a line while the queue holds its maximal number of lines. */
  ghost predicate MeetsFullQueue(size: int, s: State, step: Step) {
    Puts(s, step) && |s.pipe.queue| == size > 0
  }

  /** How many steps of a run have met a full queue. */
  ghost function FullQueues(parse: Parser, size: int, steps: seq<Step>): nat {
    if steps == [] then 0
    else
      var init := steps[..|steps| - 1];
      FullQueues(parse, size, init) + if MeetsFullQueue(size, Execute(parse, size, init), steps[|steps| - 1]) then 1 else 0
  }

  /** A put drops its line if and only if the queue is full; otherwise the line becomes the last
      one queued and accepted. No other step drops or accepts anything. */
  lemma PutStep(parse: Parser, size: int, steps: seq<Step>, step: Step)
    ensures var s := Execute(parse, size, steps);
            var s' := Next(parse, size, s, step);
            && s'.pipe.dropped == s.pipe.dropped + (if MeetsFullQueue(size, s, step) then 1 else 0)
            && (Puts(s, step) && !MeetsFullQueue(size, s, step) ==>
                  && s'.pipe.accepted == s.pipe.accepted + [s.pipe.readers[step.reader].line]
                  && s'.pipe.queue == s.pipe.queue + [s.pipe.readers[step.reader].line])
            && (!Puts(s, step) || MeetsFullQueue(size, s, step) ==> s'.pipe.accepted == s.pipe.accepted)
  {
    hide Execute, Results, Budget, HandStep, ControlStep;
    Invariant(parse, size, steps);
  }

  /** In every run, exactly the puts that met a full queue have dropped their line. */
  lemma {:induction false} DropsAreFullQueues(parse: Parser, size: int, steps: seq<Step>)
    ensures Execute(parse, size, steps).pipe.dropped == FullQueues(parse, size, steps)
  {
    if steps != [] {
      var init := steps[..|steps| - 1];
      hide Execute, Next, MeetsFullQueue;
      DropsAreFullQueues(parse, size, init);
      PutStep(parse, size, init, steps[|steps| - 1]);
      ExecuteStep(parse, size, steps);
    } else {
      assert Execute(parse, size, []) == Init();
    }
  }

  /** A run with a dropped line was in a state with a full queue before. */
  lemma {:induction false} DropNeedsFullQueue(parse: Parser, size: int, steps: seq<Step>)
    requires Execute(parse, size, steps).pipe.dropped > 0
    ensures exists k :: 0 <= k < |steps| && |Execute(parse, size, steps[..k]).pipe.queue| == size > 0
  {
    hide Execute, Next;
    ExecuteStep(parse, size, steps);
    if steps != [] {
      var n := |steps| - 1;
      var init := steps[..n];
      PutStep(parse, size, init, steps[n]);
      if Execute(parse, size, init).pipe.dropped > 0 {
        DropNeedsFullQueue(parse, size, init);
        var k :| 0 <= k < n && |Execute(parse, size, init[..k]).pipe.queue| == size > 0;
        assert init[..k] == steps[..k];
      }
    }
  }

  /** As long as no more lines were put than the queue can hold, none is dropped. */
  lemma {:induction false} NoDropBelowSize(parse: Parser, size: int, steps: seq<Step>)
    ensures var p := Execute(parse, size, steps).pipe;
            p.dropped > 0 ==> p.attempts > size > 0
  {
    hide Next, Execute, TotalRejects, BackoffSum;
    ExecuteStep(parse, size, steps);
    if steps != [] {
      var init, step := steps[..|steps| - 1], steps[|steps| - 1];
      NoDropBelowSize(parse, size, init);
      Invariant(parse, size, init);
      PutStep(parse, size, init, step);
      AttemptsGrow(parse, size, Execute(parse, size, init), step);
      Invariant(parse, size, steps);
    }
  }

  lemma AttemptsGrow(parse: Parser, size: int, s: State, step: Step)
    ensures Next(parse, size, s, step).pipe.attempts >= s.pipe.attempts
    ensures MeetsFullQueue(size, s, step) ==> Next(parse, size, s, step).pipe.attempts == s.pipe.attempts + 1
  {
    hide HandStep, ControlStep, PhaseAfterHand;
  }

  // ---------------------------------------------------------------- supervision and shutdown

  /** The pauses double: after n restarts the supervisor has slept 2^n - 1 seconds. */
  lemma PausesDouble(parse: Parser, size: int, steps: seq<Step>)
    ensures var c := Execute(parse, size, steps).control;
            c.slept + 1 == Pow2(if c.restarts <= 5 then c.restarts else 5)
  {
    hide Execute;
    Invariant(parse, size, steps);
    BackoffPowers(Execute(parse, size, steps).control.restarts);
  }

  lemma BackoffPowers(n: nat)
    requires n <= 6
    ensures BackoffSum(n) + 1 == Pow2(if n <= 5 then n else 5)
  {
    BackoffTotal(n);
    assert BackoffSum(0) == 0 && BackoffSum(1) == 1 && BackoffSum(2) == 3;
    assert BackoffSum(3) == 7 && BackoffSum(4) == 15 && BackoffSum(5) == 31;
    assert Pow2(0) == 1 && Pow2(1) == 2 && Pow2(2) == 4 && Pow2(3) == 8 && Pow2(4) == 16 && Pow2(5) == 32;
  }

  /** Only a child that exits with a code other than 0, before any stop, is restarted; a code of 0
      leads to the final drain. */
  lemma RestartsAreFailures(parse: Parser, size: int, s: State, step: Step)
    ensures var c, c' := s.control, Next(parse, size, s, step).control;
            c'.restarts != c.restarts ==>
              step.Main? && c.phase == AfterExit && !c.stop && step.exitCode != 0 && c'.restarts == c.restarts + 1
    ensures step.Main? && s.work.hand.Empty? && s.control.phase == AfterExit && !s.control.stop && step.exitCode == 0 ==>
              Next(parse, size, s, step).control.phase == FinalDrain
  {
  }

  /** A stop is final: it stays set, and no child is started any more. */
  lemma StopIsFinal(parse: Parser, size: int, s: State, step: Step)
    ensures s.control.stop ==>
              Next(parse, size, s, step).control.stop && Next(parse, size, s, step).control.launches == s.control.launches
    ensures step == Signal ==> Next(parse, size, s, step).control.stop
  {
  }

  /** While it is not stopped, the consumer takes the oldest line at once. */
  lemma ConsumerTakes(parse: Parser, size: int, s: State, step: Step)
    requires step.Main? && s.control.phase == Consume && !s.control.stop && s.work.hand.Empty? && s.pipe.queue != []
    ensures var s' := Next(parse, size, s, step);
            s'.work.hand == Taken(s.pipe.queue[0]) && s'.pipe.queue == s.pipe.queue[1..]
  {
  }

  /** The lines of a child that has exited are taken before its exit code is handled. */
  lemma ExitDrains(parse: Parser, size: int, s: State, step: Step)
    requires s.control.phase == DrainExited && Next(parse, size, s, step).control.phase == AfterExit
    ensures s.pipe.queue == [] && s.work.hand.Empty?
  {
  }

  /** The end of the duration and the exit of the child are noticed at the next check, in this order. */
  lemma ChecksDecide(parse: Parser, size: int, s: State, step: Step)
    requires step.Main? && s.control.phase == Checks && s.work.hand.Empty?
    ensures var c := Next(parse, size, s, step).control;
            && (c.stop <==> s.control.stop || step.durationUp)
            && (c.phase == AfterExit <==> step.durationUp)
            && (c.phase == DrainExited <==> !step.durationUp && step.exited)
            && (c.phase == Consume <==> !step.durationUp && !step.exited)
  {
  }

  /** A reader gives up its line only at a stop. */
  lemma {:induction false} DiscardsAreStops(parse: Parser, size: int, steps: seq<Step>)
    ensures Execute(parse, size, steps).pipe.discarded > 0 ==> Execute(parse, size, steps).control.stop
  {
    hide HandStep, PhaseAfterHand, ControlStep;
    if steps != [] {
      var init := steps[..|steps| - 1];
      DiscardsAreStops(parse, size, init);
      StopIsFinal(parse, size, Execute(parse, size, init), steps[|steps| - 1]);
    }
  }

  function HandRank(h: Hand): nat {
    match h
    case Empty => 0
    case Taken(_) => 5
    case Counted(_) => 3
  }

  function PhaseRank(p: Phase): nat {
    match p
    case Checks => 6
    case Consume => 5
    case DrainExited => 4
    case AfterExit => 3
    case Supervise => 2
    case FinalDrain => 1
    case Returned(_) => 0
    case Crashed => 0
  }

  /** A bound on the steps the main thread still has to make once it is to stop. */
  function Remaining(s: State): nat {
    10 * |s.pipe.queue| + HandRank(s.work.hand) + PhaseRank(s.control.phase)
  }

  /** A step of the main thread on the way to the end, whatever the child does, if the writer works. */
  ghost predicate Working(step: Step) {
    step.Main? && step.writeOk
  }

  lemma MainProgress(parse: Parser, size: int, s: State, step: Step)
    requires Inv(parse, size, s) && s.control.stop && Working(step)
    requires s.control.phase != Crashed && !s.control.phase.Returned?
    ensures var s' := Next(parse, size, s, step);
            && s'.control.stop && s'.control.phase != Crashed && Remaining(s') < Remaining(s)
            && (s'.control.phase.Returned? ==> s'.control.phase == Returned(0) && s'.pipe.queue == [] && s'.work.hand.Empty?)
  {
    hide PipeFlow, Fifo, Results, Budget;
  }

  /** Clean shutdown: once the stop is set, the main thread returns 0 after at most `Remaining`
      steps, whatever the child does, and has handled every accepted line; the readers are quiet
      meanwhile and the writer works. */
  lemma {:induction false} ShutdownCompletes(parse: Parser, size: int, steps: seq<Step>, more: seq<Step>)
    requires Execute(parse, size, steps).control.stop
    requires Execute(parse, size, steps).control.phase != Crashed && !Execute(parse, size, steps).control.phase.Returned?
    requires forall i :: 0 <= i < |more| ==> Working(more[i])
    requires |more| >= Remaining(Execute(parse, size, steps))
    ensures exists n :: 0 < n <= |more| && Finished(parse, size, steps + more[..n])
    decreases |more|
  {
    hide Execute, Next, Remaining, Finished, Working;
    var s := Execute(parse, size, steps);
    Invariant(parse, size, steps);
    RemainingPositive(s);
    var first := steps + [more[0]];
    MainProgress(parse, size, s, more[0]);
    ExecuteAppend(parse, size, steps, more[0]);
    if Execute(parse, size, first).control.phase.Returned? {
      Invariant(parse, size, first);
      IsFinished(parse, size, first);
      assert steps + more[..1] == first;
    } else {
      ShutdownCompletes(parse, size, first, more[1..]);
      var n :| 0 < n <= |more[1..]| && Finished(parse, size, first + more[1..][..n]);
      assert first + more[1..][..n] == steps + more[..n + 1];
    }
  }

  lemma RemainingPositive(s: State)
    requires s.control.phase != Crashed && !s.control.phase.Returned?
    ensures Remaining(s) > 0
  {
  }

  /** The run has returned 0 and has handled every accepted line. */
  ghost predicate Finished(parse: Parser, size: int, steps: seq<Step>) {
    var s := Execute(parse, size, steps);
    s.control.phase == Returned(0) && s.work.handled == s.pipe.accepted
  }

  lemma IsFinished(parse: Parser, size: int, steps: seq<Step>)
    requires Inv(parse, size, Execute(parse, size, steps))
    requires Execute(parse, size, steps).control.phase == Returned(0)
    requires Execute(parse, size, steps).pipe.queue == [] && Execute(parse, size, steps).work.hand.Empty?
    ensures Finished(parse, size, steps)
  {
    hide Execute, PipeFlow, Results, Budget;
  }
}
