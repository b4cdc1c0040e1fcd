/** What every run of the startup machine keeps. */
module StartupRuns {
  import opened Prelude
  import opened Startup

  /** A refused transition leaves the state equal. */
  function Step(s: Status, t: Transition): Status {
    match Next(s, t) case Some(next) => next case None => s
  }

  function Run(s: Status, ts: seq<Transition>): Status {
    if ts == [] then s else Step(Run(s, ts[..|ts| - 1]), ts[|ts| - 1])
  }

  /** The transitions of a run that the machine accepted, in order. */
  function Accepted(s: Status, ts: seq<Transition>): seq<Transition> {
    if ts == [] then [] else
      var init := ts[..|ts| - 1];
      Accepted(s, init) + (if Next(Run(s, init), ts[|ts| - 1]).Some? then [ts[|ts| - 1]] else [])
  }

  /** The moves on one task. */
  function EventsOf(ts: seq<Transition>, k: Task): seq<Transition> {
    if ts == [] then [] else
      var last := ts[|ts| - 1];
      EventsOf(ts[..|ts| - 1], k) + (if IsTaskMove(last) && last.task == k then [last] else [])
  }

  lemma EventsAppend(ts: seq<Transition>, t: Transition, k: Task)
    ensures EventsOf(ts + [t], k) == EventsOf(ts, k) + (if IsTaskMove(t) && t.task == k then [t] else [])
  {
    assert (ts + [t])[..|ts|] == ts;
  }

  // ----- the history a state remembers

  /** What a table entry says about the accepted moves on its task. */
  ghost predicate Tells(e: TaskStatus, events: seq<Transition>) {
    && (e.error.Some? <==> e.state == TaskState.Failed)
    && match e.state
       case Pending => events == []
       case Running => events == [StartTask(e.task)]
       case Succeeded => events == [StartTask(e.task), CompleteTask(e.task)]
       case Failed =>
         var fail := FailTask(e.task, if e.error.Some? then e.error.value else "");
         events == [fail] || events == [StartTask(e.task), fail]
  }

  ghost predicate OneFailure(tasks: seq<TaskStatus>) {
    forall i, j :: 0 <= i < j < |tasks| ==> tasks[i].state != TaskState.Failed || tasks[j].state != TaskState.Failed
  }

  ghost predicate TableTells(tasks: seq<TaskStatus>, acc: seq<Transition>) {
    && acc != [] && acc[0].SealPlan?
    && Kinds(tasks) == DistinctKinds(acc[0].tasks)
    && OneFailure(tasks)
    && (forall i :: 1 <= i < |acc| ==> IsTaskMove(acc[i]))
    && (forall i :: 0 <= i < |tasks| ==> Tells(tasks[i], EventsOf(acc, tasks[i].task)))
    && (forall k: Task :: k !in acc[0].tasks ==> EventsOf(acc, k) == [])
  }

  ghost predicate Remembers(s: Status, acc: seq<Transition>) {
    match s
    case Planning => acc == []
    case PlanningFailed(reason) => acc == [FailPlanning(reason)]
    case Sealed(tasks) => TableTells(tasks, acc)
  }

  lemma SealRemembers(tasks: seq<Task>)
    ensures TableTells(FreshTasks(DistinctKinds(tasks)), [SealPlan(tasks)])
  {
    var acc, entries := [SealPlan(tasks)], FreshTasks(DistinctKinds(tasks));
    assert Kinds(entries) == DistinctKinds(tasks);
    forall k: Task ensures EventsOf(acc, k) == [] {
      EventsAppend([], SealPlan(tasks), k);
    }
    assert forall i :: 0 <= i < |entries| ==> entries[i].state == Pending && Tells(entries[i], []);
  }

  lemma MovedEntryTells(e: TaskStatus, events: seq<Transition>, t: Transition)
    requires Tells(e, events) && IsTaskMove(t) && t.task == e.task && MoveEntry(e, t).Some?
    ensures Tells(MoveEntry(e, t).value, events + [t])
  {
  }

  lemma MovedTableTells(tasks: seq<TaskStatus>, acc: seq<Transition>, t: Transition, j: nat)
    requires TableTells(tasks, acc) && IsTaskMove(t) && MoveTask(tasks, t).Some? && j < |tasks|
    ensures var moved := MoveTask(tasks, t).value; Tells(moved[j], EventsOf(acc + [t], moved[j].task))
  {
    var i := IndexOf(tasks, t.task);
    EventsAppend(acc, t, tasks[j].task);
    if j == i {
      MovedEntryTells(tasks[i], EventsOf(acc, t.task), t);
    } else {
      assert Kinds(tasks)[Min(i, j)] != Kinds(tasks)[Max(i, j)];
    }
  }

  lemma MovedShape(tasks: seq<TaskStatus>, t: Transition)
    requires IsTaskMove(t) && MoveTask(tasks, t).Some?
    ensures var moved := MoveTask(tasks, t).value;
            && Kinds(moved) == Kinds(tasks)
            && OneFailure(moved)
            && t.task in Kinds(tasks)
            && (AnyFailed(moved) <==> t.FailTask?)
  {
    var i := IndexOf(tasks, t.task);
    var moved := MoveTask(tasks, t).value;
    KindsMembers(tasks, i);
    assert !AnyFailed(tasks);
    assert Kinds(moved) == Kinds(tasks);
    assert t.FailTask? ==> moved[i].state == TaskState.Failed;
  }

  lemma TableAfter(tasks: seq<TaskStatus>, moved: seq<TaskStatus>, acc: seq<Transition>, t: Transition)
    requires TableTells(tasks, acc) && IsTaskMove(t) && t.task in Kinds(tasks)
    requires Kinds(moved) == Kinds(tasks) && OneFailure(moved)
    requires forall j :: 0 <= j < |moved| ==> Tells(moved[j], EventsOf(acc + [t], moved[j].task))
    ensures TableTells(moved, acc + [t])
  {
    forall k: Task | k !in acc[0].tasks ensures EventsOf(acc + [t], k) == [] {
      EventsAppend(acc, t, k);
    }
  }

  lemma {:induction false} MoveRemembers(tasks: seq<TaskStatus>, acc: seq<Transition>, t: Transition)
    requires TableTells(tasks, acc) && IsTaskMove(t) && MoveTask(tasks, t).Some?
    ensures TableTells(MoveTask(tasks, t).value, acc + [t])
  {
    MovedShape(tasks, t);
    var moved := MoveTask(tasks, t).value;
    forall j | 0 <= j < |moved| ensures Tells(moved[j], EventsOf(acc + [t], moved[j].task)) {
      MovedTableTells(tasks, acc, t, j);
    }
    TableAfter(tasks, moved, acc, t);
  }

  lemma KindsMembers(tasks: seq<TaskStatus>, i: nat)
    requires i < |tasks|
    ensures Kinds(tasks)[i] == tasks[i].task && tasks[i].task in Kinds(tasks)
  {
  }

  lemma StepRemembers(s: Status, acc: seq<Transition>, t: Transition)
    requires Remembers(s, acc)
    ensures Remembers(Step(s, t), acc + (if Next(s, t).Some? then [t] else []))
  {
    if Next(s, t).None? {
      assert acc + [] == acc;
      return;
    }
    match t
    case SealPlan(tasks) =>
      assert acc + [t] == [t];
      SealRemembers(tasks);
    case FailPlanning(_) =>
    case _ => MoveRemembers(s.tasks, acc, t);
  }

  /** Every reachable state remembers exactly the transitions that were accepted. */
  lemma {:induction false} RunRemembers(ts: seq<Transition>)
    ensures Remembers(Run(Status.Planning, ts), Accepted(Status.Planning, ts))
  {
    if ts != [] {
      var init, t := ts[..|ts| - 1], ts[|ts| - 1];
      RunRemembers(init);
      StepRemembers(Run(Status.Planning, init), Accepted(Status.Planning, init), t);
    }
  }

  /** The accepted history of a plan that completed. */
  ghost predicate CompletedPlan(acc: seq<Transition>) {
    && acc != [] && acc[0].SealPlan?
    && (forall i :: 1 <= i < |acc| ==> IsTaskMove(acc[i]))
    && forall k: Task :: EventsOf(acc, k) == if k in acc[0].tasks then [StartTask(k), CompleteTask(k)] else []
  }

  lemma SucceededTells(tasks: seq<TaskStatus>, acc: seq<Transition>, i: nat)
    requires TableTells(tasks, acc) && i < |tasks|
    ensures tasks[i].task in acc[0].tasks
    ensures tasks[i].state == Succeeded <==>
      EventsOf(acc, tasks[i].task) == [StartTask(tasks[i].task), CompleteTask(tasks[i].task)]
  {
    KindsMembers(tasks, i);
  }

  lemma TableReady(tasks: seq<TaskStatus>, acc: seq<Transition>)
    requires TableTells(tasks, acc)
    ensures AllSucceeded(tasks) <==> CompletedPlan(acc)
  {
    forall i | 0 <= i < |tasks| ensures tasks[i].state == Succeeded <==>
      EventsOf(acc, tasks[i].task) == [StartTask(tasks[i].task), CompleteTask(tasks[i].task)]
      ensures tasks[i].task in acc[0].tasks
    {
      SucceededTells(tasks, acc, i);
    }
    if AllSucceeded(tasks) {
      forall k: Task | k in acc[0].tasks ensures EventsOf(acc, k) == [StartTask(k), CompleteTask(k)] {
        var i: nat :| i < |Kinds(tasks)| && Kinds(tasks)[i] == k;
      }
    }
  }

  /** In every run: ready exactly when one seal was followed, for each sealed task, by one start and then one
      complete, and by nothing else. */
  lemma ReadyIffCompleted(ts: seq<Transition>)
    ensures Run(Status.Planning, ts).GetPhase() == Ready <==> CompletedPlan(Accepted(Status.Planning, ts))
  {
    RunRemembers(ts);
    var s := Run(Status.Planning, ts);
    if s.Sealed? {
      TableReady(s.tasks, Accepted(Status.Planning, ts));
    }
  }

  // ----- canonical tables: all that later results need of a reachable state

  ghost predicate Canonical(s: Status) {
    s.Sealed? ==>
      && Distinct(Kinds(s.tasks))
      && forall i :: 0 <= i < |s.tasks| ==> (s.tasks[i].error.Some? <==> s.tasks[i].state == TaskState.Failed)
  }

  lemma ReachableCanonical(ts: seq<Transition>)
    ensures Canonical(Run(Status.Planning, ts))
  {
    RunRemembers(ts);
  }

  lemma CanonicalKept(s: Status, t: Transition)
    requires Canonical(s)
    ensures Canonical(Step(s, t))
  {
    if Next(s, t).Some? {
      match t
      case SealPlan(tasks) => assert Kinds(FreshTasks(DistinctKinds(tasks))) == DistinctKinds(tasks);
      case FailPlanning(_) =>
      case _ => assert Kinds(MoveTask(s.tasks, t).value) == Kinds(s.tasks);
    }
  }

  // ----- refusals and their names

  datatype Attempt = Start | Complete | Fail

  datatype ErrorKind =
    | AlreadySealed(phase: Phase)
    | NotSealed
    | AlreadyTerminal(phase: Phase)
    | TaskNotPlanned(task: Task)
    | TaskInState(task: Task, attempted: Attempt, from: TaskState)
    | NotPlanning(phase: Phase)

  function TaskKind(tasks: seq<TaskStatus>, task: Task, attempted: Attempt): ErrorKind {
    var i := IndexOf(tasks, task);
    if i == |tasks| then TaskNotPlanned(task) else TaskInState(task, attempted, tasks[i].state)
  }

  /** `StartupError::kind`; `None` stands for its two `unreachable!` arms. */
  function Kind(e: StartupError): Option<ErrorKind> {
    var phase := e.from.GetPhase();
    if Terminal(phase) then Some(AlreadyTerminal(phase)) else
      match (e.attempted, e.from)
      case (SealPlan(_), Planning) => None
      case (FailPlanning(_), Planning) => None
      case (SealPlan(_), Sealed(_)) => Some(AlreadySealed(phase))
      case (FailPlanning(_), Sealed(_)) => Some(NotPlanning(phase))
      case (_, Planning) => Some(NotSealed)
      case (_, PlanningFailed(_)) => None
      case (StartTask(task), Sealed(tasks)) => Some(TaskKind(tasks, task, Start))
      case (CompleteTask(task), Sealed(tasks)) => Some(TaskKind(tasks, task, Complete))
      case (FailTask(task, _), Sealed(tasks)) => Some(TaskKind(tasks, task, Fail))
  }

  /** The fact about the state that a name reports. */
  ghost predicate Truthful(k: ErrorKind, t: Transition, s: Status) {
    match k
    case AlreadySealed(phase) => s.Sealed? && t.SealPlan? && phase == s.GetPhase() && !Terminal(phase)
    case NotSealed => s.Planning? && IsTaskMove(t)
    case AlreadyTerminal(phase) => phase == s.GetPhase() && Terminal(phase)
    case TaskNotPlanned(task) => s.Sealed? && IsTaskMove(t) && t.task == task && task !in Kinds(s.tasks)
    case TaskInState(task, attempted, from) =>
      && s.Sealed? && IsTaskMove(t) && t.task == task
      && attempted == (if t.StartTask? then Start else if t.CompleteTask? then Complete else Fail)
      && exists e :: e in s.tasks && e.task == task && e.state == from && MoveEntry(e, t).None?
    case NotPlanning(phase) => s.Sealed? && t.FailPlanning? && phase == s.GetPhase() && !Terminal(phase)
  }

  /** No refusal reaches an `unreachable!` arm, and the name it gets is true of the state. */
  lemma RefusalNamed(s: Status, t: Transition)
    requires Next(s, t).None?
    ensures var k := Kind(StartupError(t, s)); k.Some? && Truthful(k.value, t, s)
  {
    if s.Sealed? && IsTaskMove(t) && !Terminal(s.GetPhase()) {
      var i := IndexOf(s.tasks, t.task);
      if i < |s.tasks| {
        assert s.tasks[i] in s.tasks;
      }
    }
  }

  /** Nothing is accepted from a terminal state, now or later. */
  lemma {:induction false} TerminalStuck(s: Status, ts: seq<Transition>)
    requires Terminal(s.GetPhase())
    ensures Run(s, ts) == s && Accepted(s, ts) == []
  {
    if ts != [] {
      TerminalStuck(s, ts[..|ts| - 1]);
    }
  }

  lemma LiveCanMove(s: Status) returns (t: Transition)
    requires Canonical(s) && !Terminal(s.GetPhase())
    ensures Next(s, t).Some?
  {
    if s.Planning? {
      t := FailPlanning("");
    } else {
      var i :| 0 <= i < |s.tasks| && s.tasks[i].state != Succeeded;
      t := FailTask(s.tasks[i].task, "");
      var j := IndexOf(s.tasks, s.tasks[i].task);
      assert Kinds(s.tasks)[j] == Kinds(s.tasks)[i];
    }
  }

  lemma TerminalName(s: Status, t: Transition)
    requires Next(s, t).None?
    ensures var k := Kind(StartupError(t, s)); k.Some? && (k.value.AlreadyTerminal? <==> Terminal(s.GetPhase()))
  {
  }

  /** Every attempt, in any order, is refused. */
  ghost predicate Stuck(s: Status) {
    forall ts :: Accepted(s, ts) == []
  }

  lemma LiveIsNotStuck(s: Status)
    requires Canonical(s) && !Terminal(s.GetPhase())
    ensures !Stuck(s)
  {
    var move := LiveCanMove(s);
    var ts := [move];
    assert ts[..0] == [] && Run(s, ts[..0]) == s;
    assert Accepted(s, ts)[0] == move;
  }

  /** On reachable states, "already terminal" is a complete stop-retrying signal: it is the name of a refusal
      exactly when no sequence of attempts will ever have one accepted. */
  lemma TerminalNameExact(s: Status, t: Transition)
    requires Canonical(s) && Next(s, t).None?
    ensures Kind(StartupError(t, s)).Some?
    ensures Kind(StartupError(t, s)).value.AlreadyTerminal? <==> Stuck(s)
  {
    TerminalName(s, t);
    if Terminal(s.GetPhase()) {
      forall ts ensures Accepted(s, ts) == [] {
        TerminalStuck(s, ts);
      }
    } else {
      LiveIsNotStuck(s);
    }
  }

  // ----- the measure

  function Work(tasks: seq<TaskStatus>): nat {
    if tasks == [] then 0 else
      var w := match tasks[|tasks| - 1].state case Pending => 2 case Running => 1 case _ => 0;
      Work(tasks[..|tasks| - 1]) + w
  }

  /** Five while planning: at most two tasks can be sealed, each worth two moves. */
  function Measure(s: Status): nat {
    match s
    case Planning => 5
    case PlanningFailed(_) => 0
    case Sealed(tasks) => Work(tasks)
  }

  lemma {:induction false} WorkUpdate(tasks: seq<TaskStatus>, i: nat, e: TaskStatus)
    requires i < |tasks|
    ensures Work(tasks[i := e]) - Work(tasks) == Work([e]) - Work([tasks[i]])
  {
    var n := |tasks| - 1;
    assert [e][..0] == [] && [tasks[i]][..0] == [];
    if i == n {
      assert tasks[i := e][..n] == tasks[..n];
    } else {
      assert tasks[i := e][..n] == tasks[..n][i := e];
      WorkUpdate(tasks[..n], i, e);
    }
  }

  lemma MoveWork(tasks: seq<TaskStatus>, t: Transition)
    requires IsTaskMove(t) && MoveTask(tasks, t).Some?
    ensures Work(MoveTask(tasks, t).value) < Work(tasks)
    ensures !t.FailTask? ==> Work(MoveTask(tasks, t).value) == Work(tasks) - 1
  {
    var i := IndexOf(tasks, t.task);
    var e := MoveEntry(tasks[i], t).value;
    WorkUpdate(tasks, i, e);
    assert [e][..0] == [] && [tasks[i]][..0] == [];
  }

  lemma {:induction false} FreshWork(kinds: seq<Task>)
    ensures Work(FreshTasks(kinds)) == 2 * |kinds|
  {
    if kinds != [] {
      FreshWork(kinds[..|kinds| - 1]);
      assert FreshTasks(kinds)[..|kinds| - 1] == FreshTasks(kinds[..|kinds| - 1]);
    }
  }

  lemma TwoValues(a: Task, b: Task, c: Task)
    ensures a == b || b == c || a == c
  {
  }

  lemma AtMostTwoKinds(d: seq<Task>)
    requires Distinct(d)
    ensures |d| <= 2
  {
    if |d| > 2 {
      TwoValues(d[0], d[1], d[2]);
    }
  }

  /** Every accepted transition decreases the measure. */
  lemma AcceptedDecreases(s: Status, t: Transition)
    requires Next(s, t).Some?
    ensures Measure(Next(s, t).value) < Measure(s)
  {
    match t
    case SealPlan(tasks) =>
      FreshWork(DistinctKinds(tasks));
      AtMostTwoKinds(DistinctKinds(tasks));
    case FailPlanning(_) =>
    case _ => MoveWork(s.tasks, t);
  }

  ghost predicate Counted(s: Status, accepted: nat) {
    match s
    case Planning => accepted == 0
    case PlanningFailed(_) => accepted == 1
    case Sealed(tasks) =>
      && accepted + Work(tasks) <= 1 + 2 * |tasks|
      && (!AnyFailed(tasks) ==> accepted + Work(tasks) == 1 + 2 * |tasks|)
  }

  lemma CountStep(s: Status, accepted: nat, t: Transition)
    requires Counted(s, accepted) && Next(s, t).Some?
    ensures Counted(Next(s, t).value, accepted + 1)
  {
    match t
    case SealPlan(tasks) => FreshWork(DistinctKinds(tasks));
    case FailPlanning(_) =>
    case _ =>
      MoveWork(s.tasks, t);
      MovedShape(s.tasks, t);
  }

  lemma {:induction false} AcceptedCount(ts: seq<Transition>)
    ensures Counted(Run(Status.Planning, ts), |Accepted(Status.Planning, ts)|)
  {
    if ts != [] {
      var init, t := ts[..|ts| - 1], ts[|ts| - 1];
      AcceptedCount(init);
      if Next(Run(Status.Planning, init), t).Some? {
        CountStep(Run(Status.Planning, init), |Accepted(Status.Planning, init)|, t);
      }
    }
  }

  /** A run accepts at most one transition, plus two for each distinct task it sealed; a ready run exactly that many. */
  lemma RunBound(ts: seq<Transition>)
    ensures var s, acc := Run(Status.Planning, ts), Accepted(Status.Planning, ts);
            var kinds := if acc != [] && acc[0].SealPlan? then |DistinctKinds(acc[0].tasks)| else 0;
            && |acc| <= 1 + 2 * kinds <= 5
            && (s.GetPhase() == Ready ==> |acc| == 1 + 2 * kinds)
  {
    AcceptedCount(ts);
    RunRemembers(ts);
    var s, acc := Run(Status.Planning, ts), Accepted(Status.Planning, ts);
    if s.Sealed? {
      AtMostTwoKinds(DistinctKinds(acc[0].tasks));
      assert |Kinds(s.tasks)| == |s.tasks|;
      if s.GetPhase() == Ready {
        NoWork(s.tasks);
      }
    }
  }

  lemma {:induction false} NoWork(tasks: seq<TaskStatus>)
    requires AllSucceeded(tasks)
    ensures Work(tasks) == 0
  {
    if tasks != [] {
      NoWork(tasks[..|tasks| - 1]);
    }
  }

  // ----- the phase never moves backwards

  function Rank(phase: Phase): nat {
    match phase
    case Planning => 0
    case CloningRemoteAccounts => 1
    case ExecutingRunbooks => 2
    case Ready => 3
    case Failed => 3
  }

  /** `later` is no earlier a phase, and the same state if the phase is terminal. */
  ghost predicate Forward(earlier: Status, later: Status) {
    && Rank(earlier.GetPhase()) <= Rank(later.GetPhase())
    && (Terminal(earlier.GetPhase()) ==> later == earlier)
  }

  lemma StepForward(s: Status, t: Transition)
    ensures Forward(s, Step(s, t))
  {
    if IsTaskMove(t) && Next(s, t).Some? {
      var moved := MoveTask(s.tasks, t).value;
      var i := IndexOf(s.tasks, t.task);
      if CloningOutstanding(moved) {
        var j :| 0 <= j < |moved| && moved[j].task == RemoteAccounts && moved[j].state != Succeeded;
        assert s.tasks[j].task == RemoteAccounts && s.tasks[j].state != Succeeded;
      }
    }
  }

  lemma ForwardTransitive(a: Status, b: Status, c: Status)
    requires Forward(a, b) && Forward(b, c)
    ensures Forward(a, c)
  {
  }

  /** Along every run, whatever order tasks start and finish in, the phase only moves forwards, and Ready or Failed
      is for good. */
  lemma {:induction false} PhaseForward(s: Status, ts: seq<Transition>, i: nat, j: nat)
    requires i <= j <= |ts|
    ensures Forward(Run(s, ts[..i]), Run(s, ts[..j]))
    decreases j
  {
    if i < j {
      PhaseForward(s, ts, i, j - 1);
      assert ts[..j][..j - 1] == ts[..j - 1];
      StepForward(Run(s, ts[..j - 1]), ts[j - 1]);
      ForwardTransitive(Run(s, ts[..i]), Run(s, ts[..j - 1]), Run(s, ts[..j]));
    }
  }

  // ----- failures

  lemma {:induction false} NoErrors(tasks: seq<TaskStatus>)
    requires forall i :: 0 <= i < |tasks| ==> tasks[i].error.None? && tasks[i].state != TaskState.Failed
    ensures Errors(tasks) == [] && FirstFailure(tasks) == None
  {
    if tasks != [] {
      NoErrors(tasks[1..]);
    }
  }

  lemma {:induction false} OneError(tasks: seq<TaskStatus>, i: nat)
    requires i < |tasks| && tasks[i].state == TaskState.Failed && tasks[i].error.Some?
    requires forall j :: 0 <= j < |tasks| && j != i ==> tasks[j].error.None? && tasks[j].state != TaskState.Failed
    ensures FirstFailure(tasks) == tasks[i].error && Errors(tasks) == [tasks[i].error.value]
  {
    if i == 0 {
      NoErrors(tasks[1..]);
    } else {
      OneError(tasks[1..], i - 1);
    }
  }

  lemma EntryFailure(tasks: seq<TaskStatus>, acc: seq<Transition>, i: nat)
    requires TableTells(tasks, acc) && i < |tasks|
    ensures tasks[i].error.Some? <==> tasks[i].state == TaskState.Failed
    ensures tasks[i].error.Some? ==> FailTask(tasks[i].task, tasks[i].error.value) in acc
  {
    var e := tasks[i];
    var events := EventsOf(acc, e.task);
    assert Tells(e, events);
    if e.error.Some? {
      assert events[|events| - 1] == FailTask(e.task, e.error.value);
      EventsFrom(acc, e.task, events[|events| - 1]);
    }
  }

  lemma ErrorsOfTable(tasks: seq<TaskStatus>)
    requires OneFailure(tasks)
    requires forall i :: 0 <= i < |tasks| ==> (tasks[i].error.Some? <==> tasks[i].state == TaskState.Failed)
    ensures AnyFailed(tasks) <==> FirstFailure(tasks).Some?
    ensures Errors(tasks) == if FirstFailure(tasks).Some? then [FirstFailure(tasks).value] else []
    ensures FirstFailure(tasks).Some? ==> exists i :: 0 <= i < |tasks| && tasks[i].error == FirstFailure(tasks)
  {
    if AnyFailed(tasks) {
      var i :| 0 <= i < |tasks| && tasks[i].state == TaskState.Failed;
      OneError(tasks, i);
    } else {
      NoErrors(tasks);
    }
  }

  lemma TableFailure(tasks: seq<TaskStatus>, acc: seq<Transition>)
    requires TableTells(tasks, acc)
    ensures AnyFailed(tasks) <==> FirstFailure(tasks).Some?
    ensures Errors(tasks) == if FirstFailure(tasks).Some? then [FirstFailure(tasks).value] else []
    ensures FirstFailure(tasks).Some? ==> exists t :: t in acc && t.FailTask? && t.error == FirstFailure(tasks).value
  {
    forall i | 0 <= i < |tasks| ensures tasks[i].error.Some? <==> tasks[i].state == TaskState.Failed {
      EntryFailure(tasks, acc, i);
    }
    ErrorsOfTable(tasks);
    if FirstFailure(tasks).Some? {
      var i :| 0 <= i < |tasks| && tasks[i].error == FirstFailure(tasks);
      EntryFailure(tasks, acc, i);
    }
  }

  ghost predicate IsReason(acc: seq<Transition>, reason: string) {
    exists t :: t in acc && (t.FailTask? || t.FailPlanning?) && t.error == reason
  }

  /** In every run at most one failure is recorded: it is the machine's error and its only message, exactly when the
      phase is Failed, and it is the reason an accepted failure gave. */
  lemma FailureTold(ts: seq<Transition>)
    ensures var s, acc := Run(Status.Planning, ts), Accepted(Status.Planning, ts);
            && (s.GetPhase() == Phase.Failed <==> s.GetError().Some?)
            && s.FailureMessages() == (if s.GetError().Some? then [s.GetError().value] else [])
            && (s.GetError().Some? ==> IsReason(acc, s.GetError().value))
  {
    RunRemembers(ts);
    var s, acc := Run(Status.Planning, ts), Accepted(Status.Planning, ts);
    if s.Sealed? {
      TableFailure(s.tasks, acc);
    } else if s.PlanningFailed? {
      assert acc[0] in acc;
    }
  }

  lemma {:induction false} EventsFrom(ts: seq<Transition>, k: Task, t: Transition)
    requires t in EventsOf(ts, k)
    ensures t in ts
  {
    if t in EventsOf(ts[..|ts| - 1], k) {
      EventsFrom(ts[..|ts| - 1], k, t);
    }
  }

  // ----- the compatibility projection

  datatype Execution =
    Execution(startedAt: nat, completedAt: Option<nat>, runbookId: string, errors: Option<seq<string>>)

  const COMPAT_ID := "surfpool-startup"

  /** `with_startup`: startup shown as one synthetic runbook execution. */
  function WithStartup(executions: seq<Execution>, s: Status, startedAt: nat): seq<Execution> {
    match s.GetPhase()
    case Ready => executions
    case Failed => executions + [Execution(startedAt, Some(startedAt), COMPAT_ID, Some(s.FailureMessages()))]
    case _ => executions + [Execution(startedAt, None, COMPAT_ID, None)]
  }

  ghost predicate AllComplete(executions: seq<Execution>) {
    forall i :: 0 <= i < |executions| ==> executions[i].completedAt.Some?
  }

  /** A client that waits until every execution is complete waits exactly while startup is non-terminal, and once it
      stops waiting no later transition makes it wait again. */
  lemma ReadinessLoop(own: seq<Execution>, ts: seq<Transition>, i: nat, j: nat, startedAt: nat)
    requires AllComplete(own) && i <= j <= |ts|
    ensures var early, late := Run(Status.Planning, ts[..i]), Run(Status.Planning, ts[..j]);
            && (AllComplete(WithStartup(own, early, startedAt)) <==> Terminal(early.GetPhase()))
            && (AllComplete(WithStartup(own, early, startedAt)) ==> AllComplete(WithStartup(own, late, startedAt)))
            && own <= WithStartup(own, early, startedAt)
  {
    PhaseForward(Status.Planning, ts, i, j);
    var shown := WithStartup(own, Run(Status.Planning, ts[..i]), startedAt);
    assert !Terminal(Run(Status.Planning, ts[..i]).GetPhase()) ==> shown[|own|].completedAt.None?;
  }
}
