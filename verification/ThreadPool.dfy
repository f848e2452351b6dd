/**
 * The thread pool as a system of atomic steps. Each happens while the task mutex is held without a break, or is the run
 * of one task; a call of enqueue gives the mutex up only where it waits for room.
 */
module ThreadPools {

  /** A task is known by its ticket, its place in the order of acceptance. */
  datatype Worker = Waiting | Running(ticket: nat) | Exited

  datatype State = State(
    tasks: seq<nat>,
    workers: seq<Worker>,
    stopPool: bool,
    maxTaskNum: int,
    curTaskNum: int,
    /** How many calls of enqueue wait for room. */
    waiting: nat,
    /** How many tasks were accepted, and the tickets dequeued and run so far, in order. */
    accepted: nat,
    dequeued: seq<nat>,
    run: seq<nat>)

  datatype Step =
    | Enqueue | Accept | Stop
    | Dequeue(worker: nat) | Finish(worker: nat) | Exit(worker: nat)

  function Init(threads: nat, maxTaskNum: int): State {
    State([], seq(threads, _ => Waiting), false, maxTaskNum, 0, 0, 0, [], [])
  }

  predicate Enabled(s: State, step: Step) {
    match step
    case Enqueue => !s.stopPool
    case Accept => 0 < s.waiting && s.curTaskNum < s.maxTaskNum
    case Stop => true
    case Dequeue(w) => w < |s.workers| && s.workers[w].Waiting? && s.tasks != []
    case Finish(w) => w < |s.workers| && s.workers[w].Running?
    case Exit(w) => w < |s.workers| && s.workers[w].Waiting? && s.stopPool && s.tasks == []
  }

  /** A task is queued last. */
  function Accepted(s: State): State {
    s.(tasks := s.tasks + [s.accepted], curTaskNum := s.curTaskNum + 1, accepted := s.accepted + 1)
  }

  /** A call of enqueue that finds room is accepted at once, any other waits; a call that waits is accepted later. */
  function Do(s: State, step: Step): State
    requires Enabled(s, step)
  {
    match step
    case Enqueue => if s.curTaskNum < s.maxTaskNum then Accepted(s) else s.(waiting := s.waiting + 1)
    case Accept => Accepted(s.(waiting := s.waiting - 1))
    case Stop => s.(stopPool := true)
    case Dequeue(w) =>
      s.(tasks := s.tasks[1..], curTaskNum := s.curTaskNum - 1, workers := s.workers[w := Running(s.tasks[0])],
         dequeued := s.dequeued + [s.tasks[0]])
    case Finish(w) => s.(workers := s.workers[w := Waiting], run := s.run + [s.workers[w].ticket])
    case Exit(w) => s.(workers := s.workers[w := Exited])
  }

  // --- invariants ---

  /** from, from + 1, ..., to - 1 */
  function Tickets(first: nat, end: nat): (s: seq<nat>)
    requires first <= end
  {
    seq(end - first, i requires 0 <= i < end - first => first + i)
  }

  /** The tickets of the tasks that are running. */
  function RunningTickets(workers: seq<Worker>): multiset<nat> {
    if workers == [] then multiset{}
    else
      RunningTickets(workers[..|workers| - 1]) + TicketOf(workers[|workers| - 1])
  }

  function TicketOf(worker: Worker): multiset<nat> {
    if worker.Running? then multiset{worker.ticket} else multiset{}
  }

  ghost predicate Inv(s: State) {
    && 0 <= s.curTaskNum == |s.tasks| <= s.maxTaskNum && 0 < s.maxTaskNum
    && |s.dequeued| <= s.accepted
    && s.dequeued == Tickets(0, |s.dequeued|)
    && s.tasks == Tickets(|s.dequeued|, s.accepted)
    && multiset(s.run) + RunningTickets(s.workers) == multiset(s.dequeued)
  }

  lemma {:induction false} WorkerChanges(workers: seq<Worker>, w: nat, after: Worker)
    requires w < |workers|
    ensures RunningTickets(workers[w := after]) + TicketOf(workers[w]) == RunningTickets(workers) + TicketOf(after)
    decreases |workers|
  {
    hide TicketOf;
    var n := |workers| - 1;
    if w == n {
      assert workers[w := after][..n] == workers[..n] && workers[w := after][n] == after;
      assert RunningTickets(workers[w := after]) == RunningTickets(workers[..n]) + TicketOf(after);
      assert RunningTickets(workers) == RunningTickets(workers[..n]) + TicketOf(workers[n]);
    } else {
      assert workers[w := after][..n] == workers[..n][w := after] && workers[w := after][n] == workers[n];
      WorkerChanges(workers[..n], w, after);
      assert RunningTickets(workers[w := after]) == RunningTickets(workers[..n][w := after]) + TicketOf(workers[n]);
      assert RunningTickets(workers) == RunningTickets(workers[..n]) + TicketOf(workers[n]);
      AddToBoth(RunningTickets(workers[..n][w := after]), RunningTickets(workers[..n]), TicketOf(workers[n]),
                TicketOf(workers[w]), TicketOf(after));
    }
  }

  lemma AddToBoth(a: multiset<nat>, b: multiset<nat>, x: multiset<nat>, y: multiset<nat>, z: multiset<nat>)
    requires a + y == b + z
    ensures (a + x) + y == (b + x) + z
  {
    assert (a + x) + y == (a + y) + x;
  }

  lemma {:induction false} NobodyRunsAtFirst(n: nat)
    ensures RunningTickets(seq(n, _ => Waiting)) == multiset{}
  {
    if 0 < n {
      NobodyRunsAtFirst(n - 1);
      assert seq(n, _ => Waiting)[..n - 1] == seq(n - 1, _ => Waiting);
    }
  }

  lemma InitInv(threads: nat, maxTaskNum: int)
    requires 0 < maxTaskNum
    ensures Inv(Init(threads, maxTaskNum))
  {
    NobodyRunsAtFirst(threads);
  }

  lemma MoreTickets(first: nat, end: nat)
    requires first <= end
    ensures Tickets(first, end) + [end] == Tickets(first, end + 1)
  {
  }

  lemma StepKeepsInv(s: State, step: Step)
    requires Inv(s) && Enabled(s, step)
    ensures Inv(Do(s, step))
  {
    match step
    case Enqueue =>
      MoreTickets(|s.dequeued|, s.accepted);
    case Accept =>
      MoreTickets(|s.dequeued|, s.accepted);
    case Dequeue(w) =>
      DequeueKeepsInv(s, w);
    case Finish(w) =>
      FinishKeepsInv(s, w);
    case Exit(w) =>
      ExitKeepsInv(s, w);
    case _ =>
  }

  lemma FinishKeepsInv(s: State, w: nat)
    requires Inv(s) && Enabled(s, Finish(w))
    ensures Inv(Do(s, Finish(w)))
  {
    var t := Do(s, Finish(w));
    WorkerChanges(s.workers, w, Waiting);
    assert multiset(t.run) == multiset(s.run) + TicketOf(s.workers[w]);
    hide RunningTickets;
    assert RunningTickets(t.workers) + TicketOf(s.workers[w]) == RunningTickets(s.workers);
  }

  lemma ExitKeepsInv(s: State, w: nat)
    requires Inv(s) && Enabled(s, Exit(w))
    ensures Inv(Do(s, Exit(w)))
  {
    WorkerChanges(s.workers, w, Exited);
    hide RunningTickets;
    assert TicketOf(s.workers[w]) == multiset{} && TicketOf(Exited) == multiset{};
    assert RunningTickets(s.workers) + multiset{} == RunningTickets(s.workers);
    assert RunningTickets(Do(s, Exit(w)).workers) == RunningTickets(s.workers);
  }

  lemma DequeueKeepsInv(s: State, w: nat)
    requires Inv(s) && Enabled(s, Dequeue(w))
    ensures Inv(Do(s, Dequeue(w)))
  {
    hide RunningTickets;
    var t := Do(s, Dequeue(w));
    var ticket := s.tasks[0];
    assert t.dequeued == Tickets(0, |t.dequeued|);
    assert t.tasks == Tickets(|t.dequeued|, t.accepted);
    hide Tickets;
    WorkerChanges(s.workers, w, Running(ticket));
    MoveTicket(multiset(s.run), RunningTickets(s.workers), RunningTickets(t.workers), s.dequeued, ticket);
  }

  lemma MoveTicket(run: multiset<nat>, before: multiset<nat>, after: multiset<nat>, dequeued: seq<nat>, ticket: nat)
    requires run + before == multiset(dequeued) && after + multiset{} == before + multiset{ticket}
    ensures run + after == multiset(dequeued + [ticket])
  {
    assert after == before + multiset{ticket};
  }

  // --- runs ---

  ghost predicate CanRun(s: State, steps: seq<Step>)
    decreases |steps|
  {
    steps == [] || (Enabled(s, steps[0]) && CanRun(Do(s, steps[0]), steps[1..]))
  }

  ghost function Run(s: State, steps: seq<Step>): State
    requires CanRun(s, steps)
    decreases |steps|
  {
    if steps == [] then s else Run(Do(s, steps[0]), steps[1..])
  }

  /** In every run, the queue respects its bound, and tasks leave it in the order of acceptance, each once. */
  lemma {:induction false} EveryRunKeepsInv(s: State, steps: seq<Step>)
    requires Inv(s) && CanRun(s, steps)
    ensures Inv(Run(s, steps))
    decreases |steps|
  {
    if steps != [] {
      StepKeepsInv(s, steps[0]);
      EveryRunKeepsInv(Do(s, steps[0]), steps[1..]);
    }
  }

  lemma {:induction false} RunAppend(s: State, a: seq<Step>, b: seq<Step>)
    requires CanRun(s, a + b)
    ensures CanRun(s, a) && CanRun(Run(s, a), b) && Run(s, a + b) == Run(Run(s, a), b)
    decreases |a|
  {
    if a == [] {
      assert a + b == b;
    } else {
      assert (a + b)[0] == a[0] && (a + b)[1..] == a[1..] + b;
      RunAppend(Do(s, a[0]), a[1..], b);
    }
  }

  lemma OneStep(s: State, step: Step)
    requires Enabled(s, step)
    ensures CanRun(s, [step]) && Run(s, [step]) == Do(s, step)
  {
    assert [step][1..] == [];
  }

  lemma RunStep(s: State, step: Step, rest: seq<Step>)
    requires Enabled(s, step) && CanRun(Do(s, step), rest)
    ensures CanRun(s, [step] + rest) && Run(s, [step] + rest) == Run(Do(s, step), rest)
  {
    assert ([step] + rest)[0] == step && ([step] + rest)[1..] == rest;
  }

  lemma {:induction false} RunJoin(s: State, a: seq<Step>, b: seq<Step>)
    requires CanRun(s, a) && CanRun(Run(s, a), b)
    ensures CanRun(s, a + b) && Run(s, a + b) == Run(Run(s, a), b)
    decreases |a|
  {
    if a == [] {
      assert a + b == b;
    } else {
      assert (a + b)[0] == a[0] && (a + b)[1..] == a[1..] + b;
      RunJoin(Do(s, a[0]), a[1..], b);
    }
  }

  // --- shutdown ---

  predicate AllExited(s: State) {
    s.workers != [] && forall w :: 0 <= w < |s.workers| ==> s.workers[w].Exited?
  }

  /** Every accepted task has run exactly once. */
  ghost predicate AllRunOnce(s: State) {
    multiset(s.run) == multiset(Tickets(0, s.accepted))
  }

  /** Nothing is accepted any more, and a worker that has exited left nothing behind. */
  ghost predicate Closing(s: State) {
    s.stopPool && s.waiting == 0 && ((exists w :: 0 <= w < |s.workers| && s.workers[w].Exited?) ==> s.tasks == [])
  }

  ghost predicate NobodyExitsBeforeStop(s: State) {
    !s.stopPool ==> forall w :: 0 <= w < |s.workers| ==> !s.workers[w].Exited?
  }

  lemma {:induction false} StaysOpenUntilStop(s: State, steps: seq<Step>)
    requires CanRun(s, steps) && NobodyExitsBeforeStop(s)
    ensures NobodyExitsBeforeStop(Run(s, steps))
    decreases |steps|
  {
    if steps != [] {
      StaysOpenUntilStop(Do(s, steps[0]), steps[1..]);
    }
  }

  lemma {:induction false} StaysClosing(s: State, steps: seq<Step>)
    requires CanRun(s, steps) && Closing(s)
    ensures Closing(Run(s, steps))
    decreases |steps|
  {
    if steps != [] {
      StaysClosing(Do(s, steps[0]), steps[1..]);
    }
  }

  lemma {:induction false} ExitedRunNothing(workers: seq<Worker>)
    requires forall w :: 0 <= w < |workers| ==> workers[w].Exited?
    ensures RunningTickets(workers) == multiset{}
  {
    if workers != [] {
      ExitedRunNothing(workers[..|workers| - 1]);
    }
  }

  /** When all workers have exited, all accepted tasks have run exactly once if and only if the queue is empty. */
  lemma RunOnceIffQueueIsEmpty(s: State)
    requires Inv(s) && AllExited(s)
    ensures AllRunOnce(s) <==> s.tasks == []
  {
    ExitedRunNothing(s.workers);
    assert |multiset(s.run)| == |multiset(s.dequeued)|;
    assert |multiset(Tickets(0, s.accepted))| == s.accepted;
  }

  /** If no call of enqueue waits when the pool is stopped, then every accepted task runs exactly once. */
  lemma ShutdownRunsEverything(threads: nat, maxTaskNum: int, before: seq<Step>, after: seq<Step>)
    requires 0 < threads && 0 < maxTaskNum
    requires CanRun(Init(threads, maxTaskNum), before + ([Stop] + after))
    requires CanRun(Init(threads, maxTaskNum), before) ==>
      !Run(Init(threads, maxTaskNum), before).stopPool && Run(Init(threads, maxTaskNum), before).waiting == 0
    requires AllExited(Run(Init(threads, maxTaskNum), before + ([Stop] + after)))
    ensures AllRunOnce(Run(Init(threads, maxTaskNum), before + ([Stop] + after)))
  {
    var init, steps := Init(threads, maxTaskNum), before + ([Stop] + after);
    InitInv(threads, maxTaskNum);
    EveryRunKeepsInv(init, steps);
    RunAppend(init, before, [Stop] + after);
    StaysOpenUntilStop(init, before);
    var s := Run(init, before);
    assert ([Stop] + after)[0] == Stop && ([Stop] + after)[1..] == after;
    StaysClosing(Do(s, Stop), after);
    var final := Run(init, steps);
    assert final.workers[0].Exited?;
    RunOnceIffQueueIsEmpty(final);
  }

  // --- a run in which the workers leave an empty queue ---

  /** Only workers, queue and records differ. */
  ghost predicate OnlyWorked(s: State, t: State) {
    t.stopPool == s.stopPool && t.waiting == s.waiting && t.maxTaskNum == s.maxTaskNum && |t.workers| == |s.workers|
  }

  ghost predicate NobodyHasExited(s: State) {
    forall w :: 0 <= w < |s.workers| ==> !s.workers[w].Exited?
  }

  ghost predicate EverybodyWaits(s: State) {
    forall w :: 0 <= w < |s.workers| ==> s.workers[w].Waiting?
  }

  /** The workers from number k on finish what they run. */
  lemma {:induction false} TasksCanFinish(s: State, k: nat) returns (steps: seq<Step>)
    requires NobodyHasExited(s) && k <= |s.workers| && forall w :: 0 <= w < k ==> s.workers[w].Waiting?
    ensures CanRun(s, steps) && OnlyWorked(s, Run(s, steps)) && EverybodyWaits(Run(s, steps))
    decreases |s.workers| - k
  {
    if k == |s.workers| {
      steps := [];
    } else if s.workers[k].Running? {
      steps := TasksCanFinish(Do(s, Finish(k)), k + 1);
      RunStep(s, Finish(k), steps);
      steps := [Finish(k)] + steps;
    } else {
      steps := TasksCanFinish(s, k + 1);
    }
  }

  /** One worker takes and runs all tasks of the queue. */
  lemma {:induction false} QueueCanEmpty(s: State) returns (steps: seq<Step>)
    requires EverybodyWaits(s) && s.workers != []
    ensures CanRun(s, steps) && OnlyWorked(s, Run(s, steps)) && EverybodyWaits(Run(s, steps)) && Run(s, steps).tasks == []
    decreases |s.tasks|
  {
    if s.tasks == [] {
      steps := [];
    } else {
      var taken := Do(s, Dequeue(0));
      var finished := Do(taken, Finish(0));
      steps := QueueCanEmpty(finished);
      RunStep(taken, Finish(0), steps);
      RunStep(s, Dequeue(0), [Finish(0)] + steps);
      steps := [Dequeue(0)] + ([Finish(0)] + steps);
    }
  }

  /** The workers from number k on exit. */
  lemma {:induction false} WorkersCanExit(s: State, k: nat) returns (steps: seq<Step>)
    requires s.stopPool && s.tasks == [] && k <= |s.workers|
    requires forall w :: 0 <= w < |s.workers| ==> if w < k then s.workers[w].Exited? else s.workers[w].Waiting?
    ensures CanRun(s, steps) && OnlyWorked(s, Run(s, steps)) && Run(s, steps).tasks == []
    ensures forall w :: 0 <= w < |s.workers| ==> Run(s, steps).workers[w].Exited?
    decreases |s.workers| - k
  {
    if k == |s.workers| {
      steps := [];
    } else {
      steps := WorkersCanExit(Do(s, Exit(k)), k + 1);
      RunStep(s, Exit(k), steps);
      steps := [Exit(k)] + steps;
    }
  }

  /** All of this one after the other, while the calls that wait go on waiting. */
  lemma PoolCanDrain(s: State) returns (steps: seq<Step>)
    requires s.stopPool && s.workers != [] && NobodyHasExited(s)
    ensures CanRun(s, steps) && OnlyWorked(s, Run(s, steps)) && AllExited(Run(s, steps)) && Run(s, steps).tasks == []
  {
    hide CanRun, Run;
    var finish := TasksCanFinish(s, 0);
    var idle := Run(s, finish);
    var empty := QueueCanEmpty(idle);
    var emptied := Run(idle, empty);
    var exit := WorkersCanExit(emptied, 0);
    RunJoin(idle, empty, exit);
    RunJoin(s, finish, empty + exit);
    steps := finish + (empty + exit);
  }

  /** However a stopped pool goes on to the exit of all workers, every accepted task runs exactly once. */
  ghost predicate ShutdownIsComplete(s: State) {
    forall after :: CanRun(s, after) && AllExited(Run(s, after)) ==> AllRunOnce(Run(s, after))
  }

  /** When the pool is stopped, this is so exactly if no call of enqueue waits. */
  lemma ShutdownIsCompleteIffNoCallWaits(s: State)
    requires Inv(s) && s.workers != [] && NobodyHasExited(s)
    ensures ShutdownIsComplete(Do(s, Stop)) <==> s.waiting == 0
  {
    var stopped := Do(s, Stop);
    StepKeepsInv(s, Stop);
    if s.waiting == 0 {
      forall after | CanRun(stopped, after) && AllExited(Run(stopped, after))
        ensures AllRunOnce(Run(stopped, after))
      {
        EveryRunKeepsInv(stopped, after);
        StaysClosing(stopped, after);
        var final := Run(stopped, after);
        assert final.workers[0].Exited?;
        RunOnceIffQueueIsEmpty(final);
      }
    } else {
      LosingRun(stopped);
    }
  }

  lemma LosingRun(s: State)
    requires Inv(s) && s.stopPool && s.workers != [] && NobodyHasExited(s) && 0 < s.waiting
    ensures !ShutdownIsComplete(s)
  {
    hide Inv, Run, CanRun;
    var drain := PoolCanDrain(s);
    var drained := Run(s, drain);
    EveryRunKeepsInv(s, drain);
    RoomWhenEmpty(drained);
    OneStep(drained, Accept);
    RunJoin(s, drain, [Accept]);
    EveryRunKeepsInv(s, drain + [Accept]);
    RunOnceIffQueueIsEmpty(Do(drained, Accept));
    assert AllExited(Run(s, drain + [Accept])) && !AllRunOnce(Run(s, drain + [Accept]));
  }

  lemma RoomWhenEmpty(s: State)
    requires Inv(s) && s.tasks == [] && 0 < s.waiting
    ensures Enabled(s, Accept)
  {
  }

  /** So it is in every run in which the pool is stopped. */
  lemma EveryShutdownIsCompleteIffNoCallWaits(threads: nat, maxTaskNum: int, before: seq<Step>)
    requires 0 < threads && 0 < maxTaskNum && CanRun(Init(threads, maxTaskNum), before)
    requires !Run(Init(threads, maxTaskNum), before).stopPool
    ensures var s := Run(Init(threads, maxTaskNum), before); ShutdownIsComplete(Do(s, Stop)) <==> s.waiting == 0
  {
    var init := Init(threads, maxTaskNum);
    InitInv(threads, maxTaskNum);
    EveryRunKeepsInv(init, before);
    StaysOpenUntilStop(init, before);
    WorkersStay(init, before);
    ShutdownIsCompleteIffNoCallWaits(Run(init, before));
  }

  lemma {:induction false} WorkersStay(s: State, steps: seq<Step>)
    requires CanRun(s, steps)
    ensures |Run(s, steps).workers| == |s.workers|
    decreases |steps|
  {
    if steps != [] {
      WorkersStay(Do(s, steps[0]), steps[1..]);
    }
  }

  // --- after the last exit ---

  ghost predicate NoAccept(steps: seq<Step>) {
    forall i :: 0 <= i < |steps| ==> !steps[i].Accept?
  }

  lemma {:induction false} AfterTheLastExit(s: State, steps: seq<Step>)
    requires CanRun(s, steps) && AllExited(s) && s.stopPool
    ensures AllExited(Run(s, steps)) && |s.tasks| <= |Run(s, steps).tasks|
    ensures NoAccept(steps) <==> Run(s, steps).tasks == s.tasks
    ensures s.waiting == 0 ==> NoAccept(steps)
    decreases |steps|
  {
    if steps != [] {
      AfterTheLastExit(Do(s, steps[0]), steps[1..]);
      assert forall i :: 0 < i < |steps| ==> steps[i] == steps[1..][i - 1];
      assert forall i :: 0 <= i < |steps| - 1 ==> steps[1..][i] == steps[i + 1];
    }
  }

  /** However the run goes on, every accepted task runs exactly once. */
  ghost predicate NothingGetsLost(s: State) {
    forall after :: CanRun(s, after) ==> AllRunOnce(Run(s, after))
  }

  /** When the last worker has left the queue empty, a task can still get lost exactly if a call of enqueue waits. */
  lemma NothingGetsLostIffNoCallWaits(s: State)
    requires Inv(s) && AllExited(s) && s.stopPool && s.tasks == []
    ensures NothingGetsLost(s) <==> s.waiting == 0
  {
    if s.waiting == 0 {
      forall after | CanRun(s, after)
        ensures AllRunOnce(Run(s, after))
      {
        EveryRunKeepsInv(s, after);
        AfterTheLastExit(s, after);
        RunOnceIffQueueIsEmpty(Run(s, after));
      }
    } else {
      OneStep(s, Accept);
      EveryRunKeepsInv(s, [Accept]);
      RunOnceIffQueueIsEmpty(Do(s, Accept));
      assert Run(s, [Accept]).tasks != [];
    }
  }

  /**
   * At the last exit: what is accepted afterwards is exactly what gets lost, and this can happen exactly if a call of
   * enqueue waits then.
   */
  lemma LostIffAcceptedAfterLastExit(threads: nat, maxTaskNum: int, before: seq<Step>, w: nat, after: seq<Step>)
    requires 0 < maxTaskNum && CanRun(Init(threads, maxTaskNum), before + ([Exit(w)] + after))
    requires CanRun(Init(threads, maxTaskNum), before) && Enabled(Run(Init(threads, maxTaskNum), before), Exit(w))
    requires AllExited(Do(Run(Init(threads, maxTaskNum), before), Exit(w)))
    ensures AllRunOnce(Run(Init(threads, maxTaskNum), before + ([Exit(w)] + after))) <==> NoAccept(after)
    ensures var s := Do(Run(Init(threads, maxTaskNum), before), Exit(w)); NothingGetsLost(s) <==> s.waiting == 0
  {
    var init, steps := Init(threads, maxTaskNum), before + ([Exit(w)] + after);
    InitInv(threads, maxTaskNum);
    EveryRunKeepsInv(init, steps);
    RunAppend(init, before, [Exit(w)] + after);
    assert ([Exit(w)] + after)[0] == Exit(w) && ([Exit(w)] + after)[1..] == after;
    var s := Do(Run(init, before), Exit(w));
    EveryRunKeepsInv(init, before);
    StepKeepsInv(Run(init, before), Exit(w));
    NothingGetsLostIffNoCallWaits(s);
    AfterTheLastExit(s, after);
    RunOnceIffQueueIsEmpty(Run(init, steps));
  }

  /**
   * The stop flag is tested only before the wait: with one worker and room for one task, a second call waits, the pool
   * is stopped, the worker runs the first task and exits, and then the second task is accepted and never runs.
   */
  lemma WaitingTaskCanBeLost()
    ensures var steps := [Enqueue, Enqueue, Stop, Dequeue(0), Finish(0), Exit(0), Accept];
            && CanRun(Init(1, 1), steps) && AllExited(Run(Init(1, 1), steps))
            && Run(Init(1, 1), steps).tasks == [1] && Run(Init(1, 1), steps).run == [0]
  {
    var s0 := Init(1, 1);
    var s1 := Do(s0, Enqueue);
    var s2 := Do(s1, Enqueue);
    var s3 := Do(s2, Stop);
    var s4 := Do(s3, Dequeue(0));
    var s5 := Do(s4, Finish(0));
    var s6 := Do(s5, Exit(0));
    OneStep(s6, Accept);
    RunStep(s5, Exit(0), [Accept]);
    RunStep(s4, Finish(0), [Exit(0)] + [Accept]);
    RunStep(s3, Dequeue(0), [Finish(0)] + ([Exit(0)] + [Accept]));
    RunStep(s2, Stop, [Dequeue(0)] + ([Finish(0)] + ([Exit(0)] + [Accept])));
    RunStep(s1, Enqueue, [Stop] + ([Dequeue(0)] + ([Finish(0)] + ([Exit(0)] + [Accept]))));
    RunStep(s0, Enqueue, [Enqueue] + ([Stop] + ([Dequeue(0)] + ([Finish(0)] + ([Exit(0)] + [Accept])))));
    assert [Enqueue, Enqueue, Stop, Dequeue(0), Finish(0), Exit(0), Accept] ==
           [Enqueue] + ([Enqueue] + ([Stop] + ([Dequeue(0)] + ([Finish(0)] + ([Exit(0)] + [Accept])))));
  }

  // --- no call waits without need ---

  /** A call of enqueue is accepted at once exactly if the queue has room, and only then; otherwise it waits. */
  lemma RoomIsUsedAtOnce(s: State)
    requires Inv(s) && !s.stopPool
    ensures Enabled(s, Enqueue)
    ensures var t := Do(s, Enqueue);
            if |s.tasks| < s.maxTaskNum then t.tasks == s.tasks + [s.accepted] && t.waiting == s.waiting
            else t.tasks == s.tasks && t.waiting == s.waiting + 1
  {
  }

  /** How many calls of enqueue got past the test of the stop flag. */
  function Calls(steps: seq<Step>): nat {
    if steps == [] then 0 else (if steps[0].Enqueue? then 1 else 0) + Calls(steps[1..])
  }

  /** In every run, each of these calls has been accepted or waits. */
  lemma {:induction false} EveryCallIsAcceptedOrWaits(s: State, steps: seq<Step>)
    requires CanRun(s, steps)
    ensures Run(s, steps).accepted + Run(s, steps).waiting == s.accepted + s.waiting + Calls(steps)
    decreases |steps|
  {
    if steps != [] {
      EveryCallIsAcceptedOrWaits(Do(s, steps[0]), steps[1..]);
    }
  }
}
