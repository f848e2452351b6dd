/** The file logger: sixteen buffers, a producer and a worker thread, as a system of atomic steps. */
module LogRing {

  const BUFFERS := 16
  const BUFFER_SIZE := 65536

  /** Where the serialized calls of Write and Flush are. */
  datatype Producer =
    | Idle
    /** Write holds the lock of the current buffer, which has become full. */
    | Full
    /** NextBuffer is looking for an empty buffer; the lock of the buffer just queued is held, and by Flush the queue's too. */
    | Advancing(held: nat, holdsQueue: bool)

  /** Where the worker's loop is. */
  datatype Worker =
    | Waiting
    /** A popped buffer is being written, the messages before next are in the file. */
    | Writing(index: nat, next: nat)
    /** The buffer is cleared under its lock, and is about to be marked as empty. */
    | Cleared(index: nat)
    | Exited

  datatype State = State(
    buffers: seq<seq<string>>,
    isEmpty: seq<bool>,
    current: nat,
    queue: seq<nat>,
    stop: bool,
    producer: Producer,
    worker: Worker,
    file: seq<string>,
    /** All messages ever passed to Write, in order. */
    log: seq<string>)

  datatype Step =
    | Push(message: string) | Enqueue | Flush | Advance | Stop
    | Pop | WriteOne | Clear | MarkEmpty | Exit

  predicate InRange(s: State) {
    && |s.buffers| == BUFFERS && |s.isEmpty| == BUFFERS && s.current < BUFFERS
    && (forall i :: 0 <= i < |s.queue| ==> s.queue[i] < BUFFERS)
    && (s.worker.Writing? ==> s.worker.index < BUFFERS && s.worker.next <= |s.buffers[s.worker.index]|)
    && (s.worker.Cleared? ==> s.worker.index < BUFFERS)
  }

  function Init(): State {
    State(seq(BUFFERS, _ => []), seq(BUFFERS, _ => true), 0, [], false, Idle, Waiting, [], [])
  }

  predicate QueueIsFree(s: State) {
    !(s.producer.Advancing? && s.producer.holdsQueue)
  }

  predicate Enabled(s: State, step: Step)
    requires InRange(s)
  {
    match step
    case Push(_) => s.producer.Idle?
    case Enqueue => s.producer.Full?
    case Flush => s.producer.Idle? && s.buffers[s.current] != []
    case Advance => s.producer.Advancing?
    case Stop => s.producer.Idle?
    case Pop => s.worker.Waiting? && s.queue != [] && QueueIsFree(s)
    case WriteOne => s.worker.Writing? && s.worker.next < |s.buffers[s.worker.index]|
    case Clear =>
      && s.worker.Writing? && s.worker.next == |s.buffers[s.worker.index]|
      && !(s.producer.Advancing? && s.producer.held == s.worker.index)
      && !(s.producer.Full? && s.current == s.worker.index)
    case MarkEmpty => s.worker.Cleared?
    case Exit => s.worker.Waiting? && s.stop && s.queue == [] && QueueIsFree(s)
  }

  function Do(s: State, step: Step): State
    requires InRange(s) && Enabled(s, step)
  {
    match step
    case Push(message) =>
      var buffer := s.buffers[s.current] + [message];
      s.(buffers := s.buffers[s.current := buffer], log := s.log + [message],
         producer := if BUFFER_SIZE <= |buffer| then Full else Idle)
    case Enqueue =>
      s.(queue := s.queue + [s.current], isEmpty := s.isEmpty[s.current := false], producer := Advancing(s.current, false))
    case Flush =>
      s.(queue := s.queue + [s.current], isEmpty := s.isEmpty[s.current := false], producer := Advancing(s.current, true))
    case Advance =>
      if s.isEmpty[s.current] then s.(producer := Idle)
      else s.(current := if 15 < s.current + 1 then 0 else s.current + 1)
    case Stop => s.(stop := true)
    case Pop => s.(worker := Writing(s.queue[0], 0), queue := s.queue[1..])
    case WriteOne =>
      s.(file := s.file + [s.buffers[s.worker.index][s.worker.next]], worker := Writing(s.worker.index, s.worker.next + 1))
    case Clear => s.(buffers := s.buffers[s.worker.index := []], worker := Cleared(s.worker.index))
    case MarkEmpty => s.(isEmpty := s.isEmpty[s.worker.index := true], worker := Waiting)
    case Exit => s.(worker := Exited)
  }

  // --- where the messages are ---

  /** The messages of the queued buffers, in the order of the queue. */
  function Queued(buffers: seq<seq<string>>, queue: seq<nat>): seq<string>
    requires forall i :: 0 <= i < |queue| ==> queue[i] < |buffers|
  {
    if queue == [] then [] else buffers[queue[0]] + Queued(buffers, queue[1..])
  }

  /** What is left of the buffer the worker is writing. */
  function InFlight(s: State): seq<string>
    requires InRange(s)
  {
    if s.worker.Writing? then s.buffers[s.worker.index][s.worker.next..] else []
  }

  /** The messages of the current buffer, unless it was just queued. */
  function Unqueued(s: State): seq<string>
    requires InRange(s)
  {
    if s.producer.Advancing? then [] else s.buffers[s.current]
  }

  /** The buffer the worker has taken off the queue and not yet given back. */
  predicate IsTaken(s: State, i: nat) {
    (s.worker.Writing? || s.worker.Cleared?) && s.worker.index == i
  }

  /** Every message is in the file, in flight, queued or in the current buffer, once and in order. */
  ghost predicate Conserved(s: State)
    requires InRange(s)
  {
    s.file + InFlight(s) + Queued(s.buffers, s.queue) + Unqueued(s) == s.log
  }

  /** No buffer is in two places, and exactly the free ones are marked as empty. */
  ghost predicate Separate(s: State)
    requires InRange(s)
  {
    && (forall i, j :: 0 <= i < j < |s.queue| ==> s.queue[i] != s.queue[j])
    && (forall i :: 0 <= i < |s.queue| ==> !IsTaken(s, s.queue[i]) && !s.isEmpty[s.queue[i]])
    && (forall i :: 0 <= i < BUFFERS ==> s.isEmpty[i] || IsTaken(s, i) || i in s.queue)
    && (forall i :: 0 <= i < BUFFERS && IsTaken(s, i) ==> !s.isEmpty[i])
  }

  /** Free buffers hold nothing; a settled current buffer is free and only it is being filled. */
  ghost predicate Clean(s: State)
    requires InRange(s)
  {
    && (forall i :: 0 <= i < BUFFERS && s.isEmpty[i] && (i != s.current || s.producer.Advancing?) ==> s.buffers[i] == [])
    && (!s.producer.Advancing? ==> s.isEmpty[s.current])
    && (s.worker.Cleared? ==> s.buffers[s.worker.index] == [])
    && (forall i :: 0 <= i < BUFFERS ==> |s.buffers[i]| <= BUFFER_SIZE)
    && (s.producer.Idle? ==> |s.buffers[s.current]| < BUFFER_SIZE)
    && (s.worker.Exited? ==> s.stop)
  }

  ghost predicate Inv(s: State) {
    InRange(s) && Conserved(s) && Separate(s) && Clean(s)
  }

  lemma {:induction false} QueuedSnoc(buffers: seq<seq<string>>, queue: seq<nat>, i: nat)
    requires i < |buffers| && forall k :: 0 <= k < |queue| ==> queue[k] < |buffers|
    ensures Queued(buffers, queue + [i]) == Queued(buffers, queue) + buffers[i]
    decreases |queue|
  {
    if queue == [] {
      assert [i][1..] == [];
    } else {
      assert (queue + [i])[1..] == queue[1..] + [i];
      QueuedSnoc(buffers, queue[1..], i);
    }
  }

  lemma {:induction false} QueuedElsewhere(buffers: seq<seq<string>>, queue: seq<nat>, i: nat, b: seq<string>)
    requires i < |buffers| && (forall k :: 0 <= k < |queue| ==> queue[k] < |buffers|) && i !in queue
    ensures Queued(buffers[i := b], queue) == Queued(buffers, queue)
    decreases |queue|
  {
    if queue != [] {
      QueuedElsewhere(buffers, queue[1..], i, b);
    }
  }

  lemma InitInv()
    ensures Inv(Init())
  {
    hide Conserved, Separate, Clean, Init, InRange;
    InitIsConserved();
    InitIsSeparate();
    InitIsClean();
  }

  lemma InitIsConserved()
    ensures InRange(Init()) && Conserved(Init())
  {
  }

  lemma InitIsSeparate()
    ensures InRange(Init()) && Separate(Init())
  {
  }

  lemma InitIsClean()
    ensures InRange(Init()) && Clean(Init())
  {
  }

  lemma StepStaysInRange(s: State, step: Step)
    requires InRange(s) && Enabled(s, step) && Separate(s)
    ensures InRange(Do(s, step))
  {
    if step.Push? && s.worker.Writing? && s.worker.index == s.current {
      assert |s.buffers[s.current]| < |Do(s, step).buffers[s.current]|;
    }
  }

  lemma StepKeepsSeparate(s: State, step: Step)
    requires Inv(s) && Enabled(s, step) && InRange(Do(s, step))
    ensures Separate(Do(s, step))
  {
    hide Conserved, Clean;
    assert step.Enqueue? || step.Flush? ==> s.isEmpty[s.current] by {
      SettledIsEmpty(s);
    }
    match step
    case Enqueue => JoinQueue(s, Do(s, step));
    case Flush => JoinQueue(s, Do(s, step));
    case Pop => LeaveQueue(s);
    case MarkEmpty => GiveBack(s);
    case _ =>
  }

  lemma SettledIsEmpty(s: State)
    requires Inv(s)
    ensures !s.producer.Advancing? ==> s.isEmpty[s.current]
  {
  }

  lemma LeaveQueue(s: State)
    requires Inv(s) && Enabled(s, Pop) && InRange(Do(s, Pop))
    ensures Separate(Do(s, Pop))
  {
    hide Conserved, Clean;
    var t := Do(s, Pop);
    assert s.queue == [s.queue[0]] + t.queue;
    assert forall i :: 0 <= i < |t.queue| ==> t.queue[i] == s.queue[i + 1];
  }

  lemma GiveBack(s: State)
    requires Inv(s) && Enabled(s, MarkEmpty) && InRange(Do(s, MarkEmpty))
    ensures Separate(Do(s, MarkEmpty))
  {
    hide Conserved, Clean;
  }

  lemma JoinQueue(s: State, t: State)
    requires Inv(s) && InRange(t) && s.isEmpty[s.current]
    requires t.queue == s.queue + [s.current] && t.isEmpty == s.isEmpty[s.current := false] && t.worker == s.worker
    ensures Separate(t)
  {
    hide Conserved, Clean;
    assert forall i :: 0 <= i < |s.queue| ==> t.queue[i] == s.queue[i];
    assert t.queue[|s.queue|] == s.current;
    forall i | 0 <= i < BUFFERS
      ensures t.isEmpty[i] || IsTaken(t, i) || i in t.queue
    {
      if i in s.queue {
        var k :| 0 <= k < |s.queue| && s.queue[k] == i;
        assert t.queue[k] == i;
      }
    }
  }

  lemma StepKeepsClean(s: State, step: Step)
    requires Inv(s) && Enabled(s, step) && InRange(Do(s, step))
    ensures Clean(Do(s, step))
  {
    hide Conserved;
  }

  lemma PushConserves(s: State, message: string)
    requires Inv(s) && Enabled(s, Push(message)) && InRange(Do(s, Push(message)))
    ensures Conserved(Do(s, Push(message)))
  {
    var t := Do(s, Push(message));
    assert !IsTaken(s, s.current) && s.current !in s.queue;
    QueuedElsewhere(s.buffers, s.queue, s.current, s.buffers[s.current] + [message]);
    assert InFlight(t) == InFlight(s) && Unqueued(t) == Unqueued(s) + [message];
    hide Queued, InFlight, Unqueued, Separate, Clean;
    Regroup(s.file + InFlight(s) + Queued(s.buffers, s.queue), Unqueued(s), [message]);
  }

  lemma Regroup(a: seq<string>, b: seq<string>, c: seq<string>)
    ensures a + (b + c) == (a + b) + c
  {
  }

  lemma QueueConserves(s: State, t: State)
    requires Inv(s) && InRange(t) && !s.producer.Advancing? && t.producer.Advancing?
    requires t.queue == s.queue + [s.current] && t.buffers == s.buffers && t.worker == s.worker
    requires t.file == s.file && t.log == s.log
    ensures Conserved(t)
  {
    QueuedSnoc(s.buffers, s.queue, s.current);
    hide Queued, Separate, Clean;
    Regroup(s.file + InFlight(s), Queued(s.buffers, s.queue), Unqueued(s));
  }

  lemma PopConserves(s: State)
    requires Inv(s) && Enabled(s, Pop) && InRange(Do(s, Pop))
    ensures Conserved(Do(s, Pop))
  {
    hide Separate, Clean;
    var t := Do(s, Pop);
    assert InFlight(t) == s.buffers[s.queue[0]];
    Regroup(s.file, InFlight(t), Queued(t.buffers, t.queue));
  }

  lemma WriteConserves(s: State)
    requires Inv(s) && Enabled(s, WriteOne) && InRange(Do(s, WriteOne))
    ensures Conserved(Do(s, WriteOne))
  {
    hide Separate, Clean, Queued;
    var t := Do(s, WriteOne);
    assert InFlight(s) == [s.buffers[s.worker.index][s.worker.next]] + InFlight(t);
    Regroup(s.file, [s.buffers[s.worker.index][s.worker.next]], InFlight(t));
  }

  lemma ClearConserves(s: State)
    requires Inv(s) && Enabled(s, Clear) && InRange(Do(s, Clear))
    ensures Conserved(Do(s, Clear))
  {
    var i := s.worker.index;
    assert IsTaken(s, i) && i !in s.queue;
    QueuedElsewhere(s.buffers, s.queue, i, []);
    hide Queued;
    assert !s.producer.Advancing? ==> i != s.current;
  }

  lemma StepConserves(s: State, step: Step)
    requires Inv(s) && Enabled(s, step) && InRange(Do(s, step))
    ensures Conserved(Do(s, step))
  {
    match step
    case Push(message) => PushConserves(s, message);
    case Enqueue => QueueConserves(s, Do(s, step));
    case Flush => QueueConserves(s, Do(s, step));
    case Pop => PopConserves(s);
    case WriteOne => WriteConserves(s);
    case Clear => ClearConserves(s);
    case _ => hide Queued, Separate, Clean;
  }

  lemma StepKeepsInv(s: State, step: Step)
    requires Inv(s) && Enabled(s, step)
    ensures Inv(Do(s, step))
  {
    hide Conserved, Separate, Clean, Do, Enabled;
    StepStaysInRange(s, step);
    StepKeepsSeparate(s, step);
    StepKeepsClean(s, step);
    StepConserves(s, step);
  }

  // --- runs ---

  ghost predicate CanRun(s: State, steps: seq<Step>)
    decreases |steps|
  {
    steps == [] || (InRange(s) && Enabled(s, steps[0]) && CanRun(Do(s, steps[0]), steps[1..]))
  }

  ghost function Run(s: State, steps: seq<Step>): State
    requires CanRun(s, steps)
    decreases |steps|
  {
    if steps == [] then s else Run(Do(s, steps[0]), steps[1..])
  }

  /** In every interleaving, no message is lost, repeated or reordered, and the indices never clash. */
  lemma {:induction false} EveryRunKeepsInv(s: State, steps: seq<Step>)
    requires Inv(s) && CanRun(s, steps)
    ensures Inv(Run(s, steps))
    decreases |steps|
  {
    if steps != [] {
      StepKeepsInv(s, steps[0]);
      EveryRunKeepsInv(Do(s, steps[0]), steps[1..]);
    }
  }

  lemma {:induction false} RunAppend(s: State, a: seq<Step>, b: seq<Step>)
    requires CanRun(s, a + b)
    ensures CanRun(s, a) && CanRun(Run(s, a), b) && Run(s, a + b) == Run(Run(s, a), b)
    decreases |a|
  {
    if a == [] {
      assert a + b == b;
    } else {
      assert (a + b)[0] == a[0] && (a + b)[1..] == a[1..] + b;
      RunAppend(Do(s, a[0]), a[1..], b);
    }
  }

  ghost predicate NoPush(steps: seq<Step>) {
    forall i :: 0 <= i < |steps| ==> !steps[i].Push?
  }

  /** Once the worker has exited, nothing more gets into the file. */
  lemma {:induction false} FileIsClosed(s: State, steps: seq<Step>)
    requires CanRun(s, steps) && s.worker.Exited?
    ensures Run(s, steps).worker.Exited? && Run(s, steps).file == s.file
    ensures |s.log| <= |Run(s, steps).log|
    ensures NoPush(steps) <==> Run(s, steps).log == s.log
    decreases |steps|
  {
    if steps != [] {
      FileIsClosed(Do(s, steps[0]), steps[1..]);
      assert forall i :: 0 < i < |steps| ==> steps[i] == steps[1..][i - 1];
      assert forall i :: 0 <= i < |steps| - 1 ==> steps[1..][i] == steps[i + 1];
    }
  }

  /**
   * The file is complete in the end if and only if the worker's exit check came after the last
   * message was queued: nothing was in the current buffer then, and no Write followed.
   */
  lemma CompleteIffQueuedBeforeExit(before: seq<Step>, after: seq<Step>)
    requires CanRun(Init(), before + ([Exit] + after))
    ensures CanRun(Init(), before) && InRange(Run(Init(), before))
    ensures var final := Run(Init(), before + ([Exit] + after));
            final.file == final.log <==> Unqueued(Run(Init(), before)) == [] && NoPush(after)
  {
    hide Inv, Init, Do, Enabled, Unqueued;
    RunAppend(Init(), before, [Exit] + after);
    InitInv();
    EveryRunKeepsInv(Init(), before);
    var s := Run(Init(), before);
    InvIsInRange(s);
    FirstStep(s, Exit, after);
    CompleteFromExit(s, after);
  }

  lemma InvIsInRange(s: State)
    requires Inv(s)
    ensures InRange(s)
  {
  }

  lemma FirstStep(s: State, step: Step, after: seq<Step>)
    requires CanRun(s, [step] + after)
    ensures InRange(s) && Enabled(s, step) && CanRun(Do(s, step), after)
    ensures Run(s, [step] + after) == Run(Do(s, step), after)
  {
    assert ([step] + after)[0] == step && ([step] + after)[1..] == after;
  }

  lemma CompleteFromExit(s: State, after: seq<Step>)
    requires Inv(s) && Enabled(s, Exit) && CanRun(Do(s, Exit), after)
    ensures Run(Do(s, Exit), after).file == Run(Do(s, Exit), after).log <==> Unqueued(s) == [] && NoPush(after)
  {
    hide Separate, Clean, NoPush;
    FileIsClosed(Do(s, Exit), after);
    assert s.file + Unqueued(s) == s.log;
  }

  /** The order of the destructor, the stop flag before the final Flush, allows the last message to be lost. */
  lemma LastMessageCanBeLost()
    ensures var steps := [Push("m"), Stop, Exit, Flush];
            CanRun(Init(), steps) && Run(Init(), steps).file == [] && Run(Init(), steps).log == ["m"]
  {
    var s0 := Init();
    var s1 := Do(s0, Push("m"));
    var s2 := Do(s1, Stop);
    var s3 := Do(s2, Exit);
    var s4 := Do(s3, Flush);
    assert CanRun(s4, []) && Run(s4, []) == s4;
    assert [Flush][1..] == [] && CanRun(s3, [Flush]) && Run(s3, [Flush]) == s4;
    assert [Exit, Flush][1..] == [Flush] && CanRun(s2, [Exit, Flush]) && Run(s2, [Exit, Flush]) == s4;
    assert [Stop, Exit, Flush][1..] == [Exit, Flush] && CanRun(s1, [Stop, Exit, Flush]);
    assert Run(s1, [Stop, Exit, Flush]) == s4;
    assert [Push("m"), Stop, Exit, Flush][1..] == [Stop, Exit, Flush];
  }

  // --- when a buffer is queued, and which one is next ---

  /** Write queues the current buffer exactly when it has got 65536 messages. */
  lemma BufferIsQueuedWhenFull(s: State, message: string)
    requires Inv(s) && s.producer.Idle?
    ensures Enabled(s, Push(message))
    ensures InRange(Do(s, Push(message)))
    ensures Enabled(Do(s, Push(message)), Enqueue) <==> |s.buffers[s.current]| == 65535
  {
    hide Conserved, Separate;
    assert |s.buffers[s.current]| < BUFFER_SIZE;
  }

  function Advances(n: nat): seq<Step> {
    seq(n, _ => Advance)
  }

  /** The buffer i places further around the ring. */
  function Around(c: nat, i: nat): (r: nat)
    ensures r < 16
  {
    (c + i) % 16
  }

  lemma AroundOnce(c: nat, i: nat)
    requires c < 16
    ensures Around(c, 0) == c && Around(c, 1) == if 15 < c + 1 then 0 else c + 1
    ensures Around(Around(c, 1), i) == Around(c, i + 1)
  {
  }

  lemma AdvanceOnce(s: State)
    requires Inv(s) && s.producer.Advancing?
    ensures InRange(s) && Enabled(s, Advance) && Inv(Do(s, Advance))
    ensures s.isEmpty[s.current] ==> Do(s, Advance) == s.(producer := Idle)
    ensures !s.isEmpty[s.current] ==> Do(s, Advance) == s.(current := Around(s.current, 1))
  {
    StepKeepsInv(s, Advance);
    AroundOnce(s.current, 0);
  }

  lemma OneMoreStep(s: State, step: Step, rest: seq<Step>)
    requires InRange(s) && Enabled(s, step) && CanRun(Do(s, step), rest)
    ensures CanRun(s, [step] + rest) && Run(s, [step] + rest) == Run(Do(s, step), rest)
  {
    assert ([step] + rest)[0] == step && ([step] + rest)[1..] == rest;
  }

  lemma NoMoreStep(s: State)
    ensures CanRun(s, []) && Run(s, []) == s
  {
  }

  /** The producer goes on with the nearest buffer around the ring that is free. */
  lemma {:induction false} NearestFreeBufferIsNext(s: State, k: nat)
    requires Inv(s) && s.producer.Advancing? && s.isEmpty[Around(s.current, k)]
    requires forall i :: 0 <= i < k ==> !s.isEmpty[Around(s.current, i)]
    ensures CanRun(s, Advances(k + 1))
    ensures Run(s, Advances(k + 1)) == s.(current := Around(s.current, k), producer := Idle)
    decreases k
  {
    hide Conserved, Separate, Clean, Do, Enabled, CanRun, Run, Around;
    AdvanceOnce(s);
    AroundOnce(s.current, 0);
    var t := Do(s, Advance);
    assert Advances(k + 1) == [Advance] + Advances(k);
    if k == 0 {
      assert Advances(0) == [];
      NoMoreStep(t);
    } else {
      forall i: nat
        ensures Around(t.current, i) == Around(s.current, i + 1)
      {
        AroundOnce(s.current, i);
      }
      NearestFreeBufferIsNext(t, k - 1);
    }
    OneMoreStep(s, Advance, Advances(k));
  }

  // --- only buffers with messages are queued ---

  ghost predicate NothingEmptyQueued(s: State)
    requires InRange(s)
  {
    && (s.producer.Full? ==> s.buffers[s.current] != [])
    && forall i :: 0 <= i < |s.queue| ==> s.buffers[s.queue[i]] != []
  }

  lemma QueueStaysFilled(s: State, step: Step)
    requires Inv(s) && Enabled(s, step) && NothingEmptyQueued(s)
    ensures InRange(Do(s, step)) && NothingEmptyQueued(Do(s, step))
  {
    StepKeepsInv(s, step);
    assert step.Clear? ==> IsTaken(s, s.worker.index);
    hide Conserved, Queued;
  }

  lemma {:induction false} QueueStaysFilledInRuns(s: State, steps: seq<Step>)
    requires Inv(s) && NothingEmptyQueued(s) && CanRun(s, steps)
    ensures InRange(Run(s, steps)) && NothingEmptyQueued(Run(s, steps))
    decreases |steps|
  {
    hide Do, Enabled, Conserved, Separate, Clean;
    if steps != [] {
      QueueStaysFilled(s, steps[0]);
      StepKeepsInv(s, steps[0]);
      QueueStaysFilledInRuns(Do(s, steps[0]), steps[1..]);
    }
  }

  /** In every run, Flush of an empty buffer queues nothing, so that the worker always finds messages. */
  lemma NoEmptyBufferIsQueued(steps: seq<Step>)
    requires CanRun(Init(), steps)
    ensures var s := Run(Init(), steps);
            InRange(s) && forall i :: 0 <= i < |s.queue| ==> s.buffers[s.queue[i]] != []
  {
    InitInv();
    QueueStaysFilledInRuns(Init(), steps);
  }
}
