/** The task queue of Common/stepper.c under its two interrupt routines. Every rising edge of the
    step output is recorded together with the phase that it belongs to. */
module Stepper {

  /** stp_t counters wrap around at this value. */
  const WRAP := 0x1_0000
  type stp = n: nat | n < 0x1_0000

  datatype State = Accl | Runn | Decl | Idle | Hold | Done | Stop {
    predicate Moving() { Accl? || Runn? || Decl? }
  }

  datatype Task = Task(accSteps: stp, runSteps: stp, decSteps: stp, state: State)

  function Decrement(n: stp): stp { if n == 0 then WRAP - 1 else n - 1 }

  // ----- the steps that a queue still owes

  /** Steps of a phase whose counter starts at n: the counter is decremented before it is tested. */
  function PhaseLength(n: stp): nat { if n == 0 then WRAP else n }

  function Repeat(s: State, n: nat): (r: seq<State>)
    ensures |r| == n && forall i | 0 <= i < n :: r[i] == s
  {
    if n == 0 then [] else [s] + Repeat(s, n - 1)
  }

  /** What is left of a task in its present state. */
  function Owed(t: Task): seq<State> {
    match t.state
    case Accl => Repeat(Accl, PhaseLength(t.accSteps)) + Repeat(Runn, PhaseLength(t.runSteps))
                 + Repeat(Decl, PhaseLength(t.decSteps))
    case Runn => Repeat(Runn, PhaseLength(t.runSteps)) + Repeat(Decl, PhaseLength(t.decSteps))
    case Decl => Repeat(Decl, PhaseLength(t.decSteps))
    case _ => []
  }

  /** All steps of a task that waits to be started. */
  function Plan(t: Task): seq<State> {
    Owed(t.(state := Accl))
  }

  function PlanAll(tasks: seq<Task>): seq<State> {
    if tasks == [] then [] else Plan(tasks[0]) + PlanAll(tasks[1..])
  }

  /** The steps still to come: none unless the first task is moving. */
  function Remaining(queue: seq<Task>): seq<State> {
    if queue == [] || !queue[0].state.Moving() then []
    else Owed(queue[0]) + PlanAll(queue[1..])
  }

  predicate Waiting(tasks: seq<Task>) {
    forall i | 0 <= i < |tasks| :: tasks[i].state == Idle
  }

  function Steps(t: Task): nat {
    t.accSteps + t.runSteps + t.decSteps
  }

  predicate NoEmptyPhase(t: Task) {
    t.accSteps > 0 && t.runSteps > 0 && t.decSteps > 0
  }

  /** The requested number of steps is made exactly when no phase is empty. */
  lemma PlanLength(t: Task)
    ensures |Plan(t)| == t.accSteps + t.runSteps + t.decSteps
        <==> t.accSteps > 0 && t.runSteps > 0 && t.decSteps > 0
    ensures |Plan(t)| >= Steps(t) && (|Plan(t)| == Steps(t) <==> NoEmptyPhase(t))
    ensures |Plan(t)| == (if t.accSteps == 0 then 65536 else t.accSteps)
                       + (if t.runSteps == 0 then 65536 else t.runSteps)
                       + (if t.decSteps == 0 then 65536 else t.decSteps)
  {
    hide Repeat;
  }

  /** The phases come in order: acceleration, run, deceleration. */
  lemma PlanInOrder(t: Task, i: nat)
    requires NoEmptyPhase(t) && i < |Plan(t)|
    ensures Plan(t)[i] == if i < t.accSteps then Accl else if i < t.accSteps + t.runSteps then Runn else Decl
  {
    hide Repeat;
  }

  function StepsAll(tasks: seq<Task>): nat {
    if tasks == [] then 0 else Steps(tasks[0]) + StepsAll(tasks[1..])
  }

  /** The same for a whole queue. */
  lemma {:induction false} PlanAllLength(tasks: seq<Task>)
    ensures |PlanAll(tasks)| >= StepsAll(tasks)
    ensures |PlanAll(tasks)| == StepsAll(tasks) <==> forall t | t in tasks :: NoEmptyPhase(t)
  {
    hide Plan, Steps, NoEmptyPhase;
    if tasks != [] {
      PlanLength(tasks[0]);
      PlanAllLength(tasks[1..]);
      assert forall t :: t in tasks <==> t == tasks[0] || t in tasks[1..];
    }
  }

  lemma {:induction false} StepsAppend(tasks: seq<Task>, t: Task)
    ensures StepsAll(tasks + [t]) == StepsAll(tasks) + Steps(t)
  {
    if tasks != [] {
      assert (tasks + [t])[1..] == tasks[1..] + [t];
      StepsAppend(tasks[1..], t);
    }
  }

  /** What a finished task leaves at the head of the queue. */
  const Finished := Task(0, 0, 0, Idle)

  /** Run once more, it makes three full turns of the counter. */
  lemma FinishedPlan()
    ensures Plan(Finished) == Repeat(Accl, WRAP) + Repeat(Runn, WRAP) + Repeat(Decl, WRAP)
    ensures |Plan(Finished)| == 3 * 65536
  {
    hide Repeat;
  }

  // ----- one rising edge

  /** The queue after a rising edge of its first task. */
  function Advance(queue: seq<Task>): seq<Task>
    requires queue != [] && queue[0].state.Moving()
  {
    var t := queue[0];
    match t.state
    case Accl =>
      var n := Decrement(t.accSteps);
      queue[0 := t.(accSteps := n, state := if n == 0 then Runn else Accl)]
    case Runn =>
      var n := Decrement(t.runSteps);
      queue[0 := t.(runSteps := n, state := if n == 0 then Decl else Runn)]
    case Decl =>
      var n := Decrement(t.decSteps);
      if n > 0 then queue[0 := t.(decSteps := n)]
      else if |queue| > 1 then
        var next := queue[1];
        [if next.state == Idle then next.(state := Accl) else next] + queue[2..]
      else [t.(decSteps := 0, state := Idle)]
  }

  /** A counter that has not run out owes one step less; one that has runs out exactly here. */
  lemma PhaseStep(s: State, n: stp)
    ensures Repeat(s, PhaseLength(n)) ==
      [s] + if Decrement(n) == 0 then [] else Repeat(s, PhaseLength(Decrement(n)))
  {
  }

  /** The edge is the first of the steps owed by the task. */
  lemma OwedStep(t: Task)
    requires t.state.Moving()
    ensures var u := Advance([t])[0];
      Owed(t) == [t.state] + Owed(u)
  {
    hide Repeat, PhaseLength, Decrement;
    match t.state {
      case Accl => PhaseStep(Accl, t.accSteps);
      case Runn => PhaseStep(Runn, t.runSteps);
      case Decl => PhaseStep(Decl, t.decSteps);
    }
  }

  /** The counters of the phases that are over are at zero. */
  predicate Spent(t: Task) {
    (t.state == Runn ==> t.accSteps == 0) && (t.state == Decl ==> t.accSteps == 0 && t.runSteps == 0)
  }

  /** Each rising edge takes exactly the next step off what the queue owes. */
  lemma AdvanceTakesNext(queue: seq<Task>)
    requires queue != [] && queue[0].state.Moving() && Waiting(queue[1..])
    ensures Remaining(queue) == [queue[0].state] + Remaining(Advance(queue))
    ensures Advance(queue) != [] && Waiting(Advance(queue)[1..])
    ensures Spent(queue[0]) ==> Spent(Advance(queue)[0])
    ensures Spent(queue[0]) && Remaining(Advance(queue)) == [] ==> Advance(queue) == [Finished]
  {
    hide Advance, Remaining, Waiting, Spent, Finished;
    var t := queue[0];
    if t.state != Decl || Decrement(t.decSteps) != 0 {
      AdvanceWithin(queue);
    } else if |queue| > 1 {
      AdvanceToNext(queue);
    } else {
      AdvanceToEnd(queue);
    }
  }

  /** The task goes on. */
  lemma AdvanceWithin(queue: seq<Task>)
    requires queue != [] && queue[0].state.Moving() && Waiting(queue[1..])
    requires queue[0].state != Decl || Decrement(queue[0].decSteps) != 0
    ensures Remaining(queue) == [queue[0].state] + Remaining(Advance(queue)) && Remaining(Advance(queue)) != []
    ensures Advance(queue) != [] && Waiting(Advance(queue)[1..])
    ensures Spent(queue[0]) ==> Spent(Advance(queue)[0])
  {
    hide Owed, Decrement, PlanAll, Waiting;
    var t, after := queue[0], Advance(queue);
    OwedStep(t);
    assert after[1..] == queue[1..] && after[0] == Advance([t])[0];
    OwesSomething(after[0]);
    Regroup(t.state, Owed(after[0]), PlanAll(queue[1..]));
  }

  /** The task is over and the next one starts. */
  lemma AdvanceToNext(queue: seq<Task>)
    requires |queue| > 1 && Waiting(queue[1..])
    requires queue[0].state == Decl && Decrement(queue[0].decSteps) == 0
    ensures Remaining(queue) == [Decl] + Remaining(Advance(queue)) && Remaining(Advance(queue)) != []
    ensures Advance(queue) != [] && Waiting(Advance(queue)[1..]) && Spent(Advance(queue)[0])
  {
    hide Owed, Decrement, PlanAll;
    var rest, after := queue[1..], Advance(queue);
    assert rest[0].state == Idle && rest[0] == queue[1];
    assert after[0] == rest[0].(state := Accl) && after[1..] == rest[1..];
    FinishedOwesNothing(queue[0]);
    PlanAllFront(rest);
    OwesSomething(after[0]);
  }

  /** The last task is over. */
  lemma AdvanceToEnd(queue: seq<Task>)
    requires |queue| == 1 && queue[0].state == Decl && Decrement(queue[0].decSteps) == 0
    ensures Remaining(queue) == [Decl] + Remaining(Advance(queue))
    ensures Advance(queue) != [] && Waiting(Advance(queue)[1..]) && Spent(Advance(queue)[0])
    ensures Spent(queue[0]) ==> Advance(queue) == [Finished]
  {
    hide Owed, Decrement, PlanAll;
    FinishedOwesNothing(queue[0]);
    PlanAllFront(queue[1..]);
  }

  lemma Regroup(s: State, a: seq<State>, b: seq<State>)
    ensures ([s] + a) + b == [s] + (a + b)
  {
  }

  lemma PlanAllFront(tasks: seq<Task>)
    ensures tasks == [] ==> PlanAll(tasks) == []
    ensures tasks != [] ==> PlanAll(tasks) == Plan(tasks[0]) + PlanAll(tasks[1..])
  {
  }

  lemma FinishedOwesNothing(t: Task)
    requires t.state == Decl && Decrement(t.decSteps) == 0
    ensures Owed(t) == [Decl]
  {
    OwedStep(t);
  }

  // ----- the driver

  datatype Interrupt = Isr1 | Isr2(stop: bool)

  predicate NoStop(isrs: seq<Interrupt>) {
    forall i | 0 <= i < |isrs| :: isrs[i] != Isr2(true)
  }

  function CountIsr1(isrs: seq<Interrupt>): nat {
    if isrs == [] then 0
    else CountIsr1(isrs[..|isrs| - 1]) + if isrs[|isrs| - 1] == Isr1 then 1 else 0
  }

  class Motor {
    var queue: seq<Task>
    var prevState: bool
    /** The rising edges on the step output so far, each with its phase. */
    var edges: seq<State>

    constructor ()
      ensures queue == [] && edges == []
    {
      queue, prevState, edges := [], false, [];
    }

    /** All tasks behind the first one wait. */
    ghost predicate Valid()
      reads this
    {
      queue != [] ==> Waiting(queue[1..]) && Spent(queue[0])
    }

    /** stepper_clean_tasks. */
    method CleanTasks()
      modifies this`queue
      ensures Valid() && queue == []
    {
      queue := [];
    }

    /** Splits the steps and appends the task, unless the ramps leave no step to run. */
    method AddTask(accSteps: stp, decSteps: stp, steps: stp) returns (run: stp)
      requires Valid()
      modifies this`queue
      ensures Valid()
      ensures run == if accSteps + decSteps >= steps then 0 else steps - accSteps - decSteps
      ensures run == 0 ==> queue == old(queue)
      ensures run > 0 ==> queue == old(queue) + [Task(accSteps, run, decSteps, Idle)]
    {
      if accSteps + decSteps >= steps {
        return 0;
      }
      run := steps - accSteps - decSteps;
      queue := queue + [Task(accSteps, run, decSteps, Idle)];
    }

    method Run()
      requires Valid() && queue != []
      modifies this`queue
      ensures Valid()
      ensures old(queue[0].state) != Idle ==> queue == old(queue)
      ensures old(queue[0].state) == Idle ==>
        queue == old(queue)[0 := old(queue[0]).(state := Accl)] && Remaining(queue) == PlanAll(old(queue))
    {
      if queue[0].state != Idle {
        return;
      }
      assert PlanAll(queue) == Plan(queue[0]) + PlanAll(queue[1..]);
      queue := queue[0 := queue[0].(state := Accl)];
    }

    method Isr1()
      requires Valid()
      modifies this
      ensures Valid() && (old(queue) != [] ==> queue != [])
      ensures edges + Remaining(queue) == old(edges) + old(Remaining(queue))
      ensures old(Remaining(queue)) == [] ==> queue == old(queue) && prevState == old(prevState) && edges == old(edges)
      ensures old(Remaining(queue)) != [] ==>
        && prevState == !old(prevState)
        && |edges| == |old(edges)| + (if prevState then 1 else 0)
        && (Remaining(queue) == [] ==> queue == [Finished])
    {
      hide Owed, PlanAll;
      if queue == [] || !queue[0].state.Moving() {
        return;
      }
      OwesSomething(queue[0]);
      prevState := !prevState;
      if !prevState {
        return;
      }
      AdvanceTakesNext(queue);
      edges := edges + [queue[0].state];
      queue := Advance(queue);
    }

    method Isr2(stop: bool)
      requires Valid()
      modifies this`queue
      ensures Valid() && (old(queue) != [] ==> queue != [])
      ensures !stop ==> queue == old(queue)
      ensures stop && queue != [] ==> queue[0].state == Stop && Remaining(queue) == []
      ensures old(Remaining(queue)) == [] ==> Remaining(queue) == []
    {
      if queue == [] {
        return;
      }
      if stop {
        queue := queue[0 := queue[0].(state := Stop)];
      }
    }

    /** Any interleaving of the two interrupts. Without a stop, the edges made and the steps still owed
        add up to the same sequence of phases all the time, and two turns of isr1 per owed step finish
        it. With or without one, a queue that owes nothing makes no further edge. */
    method Interrupts(isrs: seq<Interrupt>)
      requires Valid()
      modifies this
      ensures Valid()
      ensures NoStop(isrs) ==> edges + Remaining(queue) == old(edges) + old(Remaining(queue))
      ensures NoStop(isrs) && CountIsr1(isrs) >= 2 * |old(Remaining(queue))| ==>
        Remaining(queue) == [] && edges == old(edges) + old(Remaining(queue))
      ensures NoStop(isrs) && old(Remaining(queue)) != [] && Remaining(queue) == [] ==> queue == [Finished]
      ensures old(Remaining(queue)) == [] ==> Remaining(queue) == [] && edges == old(edges)
    {
      hide Remaining, Owed, PlanAll;
      ghost var start, owed := edges, Remaining(queue);
      for i := 0 to |isrs|
        invariant Valid()
        invariant NoStop(isrs[..i]) ==> edges + Remaining(queue) == start + owed
        invariant NoStop(isrs[..i]) && Remaining(queue) != [] ==>
          2 * |edges| + (if prevState then 0 else 1) >= 2 * |start| + CountIsr1(isrs[..i])
        invariant NoStop(isrs[..i]) && owed != [] && Remaining(queue) == [] ==> queue == [Finished]
        invariant owed == [] ==> Remaining(queue) == [] && edges == start
      {
        assert isrs[..i + 1][..i] == isrs[..i];
        assert isrs[i] == isrs[..i + 1][i];
        match isrs[i] {
          case Isr1 => Isr1();
          case Isr2(stop) => Isr2(stop);
        }
      }
      assert isrs[..|isrs|] == isrs;
    }
  }

  lemma OwesSomething(t: Task)
    requires t.state.Moving()
    ensures Owed(t) != []
  {
    OwedStep(t);
  }

  // ----- from requests to edges

  /** A call of stepper_add_task, with the ramp lengths that its speed and acceleration amount to. */
  datatype Request = Request(accSteps: stp, decSteps: stp, steps: stp)

  predicate Accepted(q: Request) {
    q.accSteps + q.decSteps < q.steps
  }

  /** The steps asked for by the requests that were not refused. */
  function AcceptedSteps(requests: seq<Request>): nat {
    if requests == [] then 0
    else
      var n := |requests| - 1;
      AcceptedSteps(requests[..n]) + if Accepted(requests[n]) then requests[n].steps else 0
  }

  /** The queue that the accepted requests make. */
  function Tasks(requests: seq<Request>): (tasks: seq<Task>)
    ensures Waiting(tasks)
  {
    if requests == [] then []
    else
      var n := |requests| - 1;
      var q := requests[n];
      Tasks(requests[..n]) +
      if Accepted(q) then [Task(q.accSteps, q.steps - q.accSteps - q.decSteps, q.decSteps, Idle)] else []
  }

  predicate HasRamps(q: Request) {
    q.accSteps > 0 && q.decSteps > 0
  }

  lemma NoSteps()
    ensures StepsAll([]) == 0
  {
  }

  lemma RampsOf(q: Request)
    ensures Accepted(q) ==>
      var t := Task(q.accSteps, q.steps - q.accSteps - q.decSteps, q.decSteps, Idle);
      (NoEmptyPhase(t) <==> HasRamps(q)) && Steps(t) == q.steps
  {
  }

  lemma {:induction false} TasksOf(requests: seq<Request>)
    ensures StepsAll(Tasks(requests)) == AcceptedSteps(requests)
    ensures (forall t | t in Tasks(requests) :: NoEmptyPhase(t))
        <==> forall i | 0 <= i < |requests| && Accepted(requests[i]) :: HasRamps(requests[i])
    ensures Tasks(requests) == [] <==> forall i | 0 <= i < |requests| :: !Accepted(requests[i])
  {
    hide NoEmptyPhase, HasRamps, StepsAll, Steps;
    NoSteps();
    if requests != [] {
      var n := |requests| - 1;
      TasksOf(requests[..n]);
      RampsOf(requests[n]);
      var q, before := requests[n], Tasks(requests[..n]);
      assert forall i | 0 <= i < n :: requests[i] == requests[..n][i];
      if Accepted(q) {
        var t := Task(q.accSteps, q.steps - q.accSteps - q.decSteps, q.decSteps, Idle);
        StepsAppend(before, t);
        assert Tasks(requests) == before + [t];
        assert t in Tasks(requests);
      } else {
        assert Tasks(requests) == before;
      }
    }
  }

  /** Requests are queued on a motor without tasks, which is then run under any interleaving of interrupts
      that is long enough and has no stop. The rising edges are the plans of the accepted requests; they
      are as many as these asked for exactly if no accepted one has an empty ramp. */
  method Deliver(requests: seq<Request>, isrs: seq<Interrupt>) returns (edges: seq<State>)
    requires exists i | 0 <= i < |requests| :: Accepted(requests[i])
    requires NoStop(isrs) && CountIsr1(isrs) >= 2 * |PlanAll(Tasks(requests))|
    ensures edges == PlanAll(Tasks(requests))
    ensures |edges| == AcceptedSteps(requests)
        <==> forall i | 0 <= i < |requests| && Accepted(requests[i]) :: HasRamps(requests[i])
  {
    hide PlanAll, Remaining, NoStop, CountIsr1, NoEmptyPhase;
    var m := new Motor();
    for i := 0 to |requests|
      invariant m.Valid() && fresh(m) && m.edges == [] && m.queue == Tasks(requests[..i])
    {
      assert requests[..i + 1][..i] == requests[..i];
      var _ := m.AddTask(requests[i].accSteps, requests[i].decSteps, requests[i].steps);
    }
    assert requests[..|requests|] == requests;
    TasksOf(requests);
    PlanAllLength(m.queue);
    m.Run();
    m.Interrupts(isrs);
    edges := m.edges;
  }

  // ----- the finished task

  /** A task is added to a motor that owes nothing, and started. A finished task at the head of the queue
      is made again first, with 2^16 steps for each phase, and a stopped one keeps everything behind it
      from starting; the steps owed are those of the new task exactly if the queue was empty. */
  method AddAndRun(m: Motor, q: Request)
    requires m.Valid() && Remaining(m.queue) == [] && Accepted(q)
    modifies m
    ensures m.Valid() && m.edges == old(m.edges)
    ensures var plan := PlanAll(Tasks([q]));
      && (Remaining(m.queue) == plan <==> old(m.queue) == [])
      && (old(m.queue) == [Finished] ==>
            Remaining(m.queue) == Plan(Finished) + plan && |Remaining(m.queue)| == 3 * 65536 + |plan|)
      && (old(m.queue) != [] && old(m.queue[0].state) != Idle ==> Remaining(m.queue) == [])
  {
    hide Plan, Owed;
    ghost var before := m.queue;
    NothingOwed(before);
    assert [q][..0] == [];
    ghost var t := Tasks([q])[0];
    assert Tasks([q]) == [t];
    PlanAllJoin(before, [t]);
    PlanAllOne(t);
    var _ := m.AddTask(q.accSteps, q.decSteps, q.steps);
    assert m.queue == before + [t];
    if before == [Finished] {
      PlanAllOne(Finished);
      FinishedPlan();
    } else if before != [] {
      PlanAllFront(before);
      PlanNotEmpty(before[0]);
    }
    assert before != [] ==> |PlanAll(before)| > 0;
    m.Run();
  }

  lemma NothingOwed(queue: seq<Task>)
    requires Remaining(queue) == []
    ensures queue != [] ==> !queue[0].state.Moving()
  {
    if queue != [] && queue[0].state.Moving() {
      OwesSomething(queue[0]);
    }
  }

  lemma {:induction false} PlanAllJoin(a: seq<Task>, b: seq<Task>)
    ensures PlanAll(a + b) == PlanAll(a) + PlanAll(b)
  {
    hide Plan;
    if a == [] {
      assert a + b == b;
    } else {
      assert (a + b)[1..] == a[1..] + b;
      PlanAllJoin(a[1..], b);
    }
  }

  lemma PlanAllOne(t: Task)
    ensures PlanAll([t]) == Plan(t) && Plan(t) != []
  {
    PlanNotEmpty(t);
    assert [t][1..] == [];
  }

  lemma PlanNotEmpty(t: Task)
    ensures Plan(t) != []
  {
    OwesSomething(t.(state := Accl));
  }

  /** So it comes about: a motor runs until it owes nothing, and is then given another task. */
  method FinishThenAdd(m: Motor, isrs: seq<Interrupt>, q: Request)
    requires m.Valid() && Remaining(m.queue) != [] && Accepted(q)
    requires NoStop(isrs) && CountIsr1(isrs) >= 2 * |Remaining(m.queue)|
    modifies m
    ensures m.Valid() && m.edges == old(m.edges) + old(Remaining(m.queue))
    ensures |Remaining(m.queue)| == 3 * 65536 + |PlanAll(Tasks([q]))|
  {
    hide Remaining, NoStop, CountIsr1;
    m.Interrupts(isrs);
    AddAndRun(m, q);
  }
}
