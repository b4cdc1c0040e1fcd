/** The hand-written wire form of the startup status, and the decoder that trusts nothing it claims. */
module StartupWire {
  import opened Prelude
  import opened Startup
  import opened StartupRuns
  import opened StartupHistory

  /** The flat object on the wire; `phase` is `None` when its name is unknown to this build. */
  datatype Wire = Wire(phase: Option<Phase>, planSealed: bool, tasks: seq<TaskStatus>, error: Option<string>)

  datatype DecodeError = ErrorWithoutFailedTask

  const PLACEHOLDER := "failure reason not reported"

  function Encode(s: Status): Wire {
    Wire(Some(s.GetPhase()), s.Sealed?, if s.Sealed? then s.tasks else [], s.GetError())
  }

  /** The entries that are the first of their kind, in order. */
  function FirstWins(tasks: seq<TaskStatus>): seq<TaskStatus> {
    if tasks == [] then [] else
      var last := tasks[|tasks| - 1];
      var kept := FirstWins(tasks[..|tasks| - 1]);
      if last.task in Kinds(kept) then kept else kept + [last]
  }

  /** A failed entry has a reason, and no other entry has one. */
  function Sanitize(e: TaskStatus): TaskStatus {
    if e.state == TaskState.Failed
    then e.(error := if e.error.None? then Some(PLACEHOLDER) else e.error)
    else e.(error := None)
  }

  function SanitizeAll(tasks: seq<TaskStatus>): seq<TaskStatus> {
    seq(|tasks|, i requires 0 <= i < |tasks| => Sanitize(tasks[i]))
  }

  function Decode(w: Wire): Result<Status, DecodeError> {
    if !w.planSealed then
      Ok(if w.error.Some? then PlanningFailed(w.error.value) else Status.Planning)
    else
      var tasks := SanitizeAll(FirstWins(w.tasks));
      if w.error.Some? && !AnyFailed(tasks) then Err(ErrorWithoutFailedTask) else Ok(Sealed(tasks))
  }

  /** The decoder as written: one pass that drops repeats, one that edits each entry. */
  method DecodeStatus(w: Wire) returns (r: Result<Status, DecodeError>)
    ensures r == Decode(w)
  {
    if !w.planSealed {
      return Ok(if w.error.Some? then PlanningFailed(w.error.value) else Status.Planning);
    }
    var tasks: seq<TaskStatus> := [];
    var kindsSeen: seq<Task> := [];
    for i := 0 to |w.tasks|
      invariant tasks == FirstWins(w.tasks[..i]) && kindsSeen == Kinds(tasks)
    {
      assert w.tasks[..i + 1][..i] == w.tasks[..i];
      if w.tasks[i].task !in kindsSeen {
        kindsSeen := kindsSeen + [w.tasks[i].task];
        tasks := tasks + [w.tasks[i]];
        assert kindsSeen == Kinds(tasks);
      }
    }
    assert w.tasks[..|w.tasks|] == w.tasks;
    ghost var kept := tasks;
    for i := 0 to |tasks|
      invariant |tasks| == |kept|
      invariant forall j :: 0 <= j < |kept| ==> tasks[j] == if j < i then Sanitize(kept[j]) else kept[j]
    {
      if tasks[i].state == TaskState.Failed && tasks[i].error.None? {
        tasks := tasks[i := tasks[i].(error := Some(PLACEHOLDER))];
      }
      if tasks[i].state != TaskState.Failed {
        tasks := tasks[i := tasks[i].(error := None)];
      }
    }
    assert tasks == SanitizeAll(kept);
    return if w.error.Some? && !AnyFailed(tasks) then Err(ErrorWithoutFailedTask) else Ok(Sealed(tasks));
  }

  /** Entry `i` is the one its kind is judged by. */
  ghost predicate IsFirst(tasks: seq<TaskStatus>, i: nat) {
    i < |tasks| && forall j :: 0 <= j < i ==> tasks[j].task != tasks[i].task
  }

  lemma KindsAppend(tasks: seq<TaskStatus>, e: TaskStatus)
    ensures Kinds(tasks + [e]) == Kinds(tasks) + [e.task]
  {
  }

  lemma {:induction false} FirstWinsDistinct(tasks: seq<TaskStatus>)
    ensures Distinct(Kinds(FirstWins(tasks)))
  {
    if tasks != [] {
      var init, last := tasks[..|tasks| - 1], tasks[|tasks| - 1];
      FirstWinsDistinct(init);
      KindsAppend(FirstWins(init), last);
    }
  }

  lemma {:induction false} FirstWinsKinds(tasks: seq<TaskStatus>, k: Task)
    ensures k in Kinds(FirstWins(tasks)) <==> k in Kinds(tasks)
  {
    if tasks != [] {
      var init, last := tasks[..|tasks| - 1], tasks[|tasks| - 1];
      FirstWinsKinds(init, k);
      KindsAppend(FirstWins(init), last);
      KindsAppend(init, last);
      assert tasks == init + [last];
    }
  }

  lemma {:induction false} FirstWinsSound(tasks: seq<TaskStatus>, e: TaskStatus) returns (i: nat)
    requires e in FirstWins(tasks)
    ensures IsFirst(tasks, i) && tasks[i] == e
  {
    var init, last := tasks[..|tasks| - 1], tasks[|tasks| - 1];
    if e in FirstWins(init) {
      i := FirstWinsSound(init, e);
    } else {
      i := |tasks| - 1;
      FirstWinsKinds(init, last.task);
      FirstIsNew(tasks);
    }
  }

  lemma {:induction false} FirstWinsComplete(tasks: seq<TaskStatus>, i: nat)
    requires IsFirst(tasks, i)
    ensures tasks[i] in FirstWins(tasks)
  {
    var init, last := tasks[..|tasks| - 1], tasks[|tasks| - 1];
    if i < |init| {
      FirstWinsComplete(init, i);
    } else {
      FirstWinsKinds(init, last.task);
      FirstIsNew(tasks);
    }
  }

  lemma FirstIsNew(tasks: seq<TaskStatus>)
    requires tasks != []
    ensures IsFirst(tasks, |tasks| - 1) <==> tasks[|tasks| - 1].task !in Kinds(tasks[..|tasks| - 1])
  {
    var init := tasks[..|tasks| - 1];
    assert forall j :: 0 <= j < |init| ==> Kinds(init)[j] == tasks[j].task;
  }

  lemma {:induction false} FirstWinsIdentity(tasks: seq<TaskStatus>)
    requires Distinct(Kinds(tasks))
    ensures FirstWins(tasks) == tasks
  {
    if tasks != [] {
      var n := |tasks| - 1;
      var init, last := tasks[..n], tasks[n];
      assert Kinds(init) == Kinds(tasks)[..n];
      FirstWinsIdentity(init);
      assert last.task == Kinds(tasks)[n] && last.task !in Kinds(init);
      assert tasks == init + [last];
    }
  }

  lemma {:induction false} FailureReported(tasks: seq<TaskStatus>)
    requires FirstFailure(tasks).Some?
    ensures AnyFailed(tasks)
  {
    if tasks[0].state != TaskState.Failed {
      FailureReported(tasks[1..]);
      var i :| 0 <= i < |tasks[1..]| && tasks[1..][i].state == TaskState.Failed;
      assert tasks[i + 1].state == TaskState.Failed;
    }
  }

  lemma SanitizedFromFirstWins(tasks: seq<TaskStatus>)
    ensures Canonical(Sealed(SanitizeAll(FirstWins(tasks))))
  {
    FirstWinsDistinct(tasks);
    assert Kinds(SanitizeAll(FirstWins(tasks))) == Kinds(FirstWins(tasks));
  }

  lemma CanonicalUntouched(tasks: seq<TaskStatus>)
    requires Canonical(Sealed(tasks))
    ensures SanitizeAll(FirstWins(tasks)) == tasks
  {
    FirstWinsIdentity(tasks);
    forall i | 0 <= i < |tasks| ensures Sanitize(tasks[i]) == tasks[i] {
      SanitizeIdentity(tasks[i]);
    }
    assert SanitizeAll(tasks) == tasks;
  }

  lemma SanitizeIdentity(e: TaskStatus)
    requires e.error.Some? <==> e.state == TaskState.Failed
    ensures Sanitize(e) == e
  {
  }

  /** Encoding then decoding returns the status exactly when its table is canonical, as every reachable one is. */
  lemma RoundTrip(s: Status)
    ensures Decode(Encode(s)) == Ok(s) <==> Canonical(s)
  {
    if s.Sealed? {
      SanitizedFromFirstWins(s.tasks);
      if Canonical(s) {
        CanonicalUntouched(s.tasks);
        if FirstFailure(s.tasks).Some? {
          FailureReported(s.tasks);
        }
      }
    }
  }

  lemma RoundTripReachable(ts: seq<Transition>)
    ensures var s := Run(Status.Planning, ts); Decode(Encode(s)) == Ok(s)
  {
    ReachableCanonical(ts);
    RoundTrip(Run(Status.Planning, ts));
  }

  /** Whatever arrived, decoding, encoding and decoding again changes nothing more. */
  lemma DecodeStable(w: Wire)
    requires Decode(w).Ok?
    ensures Canonical(Decode(w).value)
    ensures Decode(Encode(Decode(w).value)) == Decode(w)
  {
    SanitizedFromFirstWins(w.tasks);
    RoundTrip(Decode(w).value);
  }

  /** Readiness is earned: the plan is sealed, the first entry of every kind succeeded, and no error came along. */
  lemma ReadyOnlyIfEarned(w: Wire)
    ensures (Decode(w).Ok? && Decode(w).value.GetPhase() == Ready) <==>
      (w.planSealed && w.error.None? && forall i: nat :: IsFirst(w.tasks, i) ==> w.tasks[i].state == Succeeded)
  {
    var kept := FirstWins(w.tasks);
    var clean := SanitizeAll(kept);
    forall e | e in kept ensures exists i: nat :: IsFirst(w.tasks, i) && w.tasks[i] == e {
      var i := FirstWinsSound(w.tasks, e);
    }
    forall i: nat | IsFirst(w.tasks, i) ensures w.tasks[i] in kept {
      FirstWinsComplete(w.tasks, i);
    }
    assert forall j :: 0 <= j < |kept| ==> clean[j].state == kept[j].state && kept[j] in kept;
    if AllSucceeded(clean) {
      forall i: nat | IsFirst(w.tasks, i) ensures w.tasks[i].state == Succeeded {
        var j :| 0 <= j < |kept| && kept[j] == w.tasks[i];
      }
    }
  }

  /** The one refusal: a sealed status with an error although no kind's first entry failed. */
  lemma DecodeRefusals(w: Wire)
    ensures Decode(w).Err? <==>
      w.planSealed && w.error.Some? && forall i: nat :: IsFirst(w.tasks, i) ==> w.tasks[i].state != TaskState.Failed
  {
    var kept := FirstWins(w.tasks);
    var clean := SanitizeAll(kept);
    forall i: nat | IsFirst(w.tasks, i) ensures w.tasks[i] in kept {
      FirstWinsComplete(w.tasks, i);
    }
    assert forall j :: 0 <= j < |kept| ==> clean[j].state == kept[j].state;
    if AnyFailed(clean) {
      var j :| 0 <= j < |clean| && clean[j].state == TaskState.Failed;
      var i := FirstWinsSound(w.tasks, kept[j]);
    } else {
      forall i: nat | IsFirst(w.tasks, i) ensures w.tasks[i].state != TaskState.Failed {
        var j :| 0 <= j < |kept| && kept[j] == w.tasks[i];
        assert clean[j].state != TaskState.Failed;
      }
    }
  }

  /** In every run, each field that is sent tells about the accepted moves: the phase is the one they stand for, sealed
      means that a plan was, and the error is the reason of an accepted failure. */
  lemma EncodedFields(ts: seq<Transition>)
    ensures var w, acc := Encode(Run(Status.Planning, ts)), Accepted(Status.Planning, ts);
            && w.phase.Some? && TellsPhase(acc, w.phase.value)
            && (w.planSealed <==> WasSealed(acc))
            && (w.error.Some? <==> HasFailure(acc))
            && (w.error.Some? ==> IsReason(acc, w.error.value))
            && (w.planSealed ==> TableTells(w.tasks, acc)) && (!w.planSealed ==> w.tasks == [])
  {
    var s, acc := Run(Status.Planning, ts), Accepted(Status.Planning, ts);
    RunRemembers(ts);
    PhaseTold(ts, s.GetPhase());
    PhaseTold(ts, Phase.Failed);
    FailureTold(ts);
    if s.Sealed? {
      OnlySeal(s.tasks, acc);
    } else {
      NothingPlanned(acc, RemoteAccounts);
    }
  }

  /** Entry `e` is what decoding makes of entry `w`. */
  ghost predicate CleanedFrom(e: TaskStatus, w: TaskStatus) {
    && e.task == w.task && e.state == w.state
    && if w.state != TaskState.Failed then e.error == None
       else e.error == Some(if w.error.Some? then w.error.value else "failure reason not reported")
  }

  lemma {:induction false} FirstsInOrder(tasks: seq<TaskStatus>, i: nat, j: nat) returns (m: nat, n: nat)
    requires i <= j < |FirstWins(tasks)|
    ensures IsFirst(tasks, m) && tasks[m] == FirstWins(tasks)[i]
    ensures IsFirst(tasks, n) && tasks[n] == FirstWins(tasks)[j]
    ensures i < j ==> m < n
  {
    var last := |tasks| - 1;
    var init := tasks[..last];
    if j < |FirstWins(init)| {
      m, n := FirstsInOrder(init, i, j);
    } else {
      n := last;
      FirstWinsKinds(init, tasks[last].task);
      FirstIsNew(tasks);
      m := n;
      if i < j {
        m := FirstWinsSound(init, FirstWins(init)[i]);
      }
    }
  }

  /** A sealed status decodes to the first entry of each kind, cleaned, in the order they arrived in. */
  lemma DecodedInOrder(w: Wire, i: nat, j: nat) returns (m: nat, n: nat)
    requires w.planSealed && Decode(w).Ok? && i <= j < |Decode(w).value.tasks|
    ensures IsFirst(w.tasks, m) && CleanedFrom(Decode(w).value.tasks[i], w.tasks[m])
    ensures IsFirst(w.tasks, n) && CleanedFrom(Decode(w).value.tasks[j], w.tasks[n])
    ensures i < j ==> m < n
  {
    m, n := FirstsInOrder(w.tasks, i, j);
  }

  /** No kind is lost; an unsealed status is a planning failure if it has an error and planning otherwise. */
  lemma DecodedComplete(w: Wire, m: nat)
    requires Decode(w).Ok?
    ensures !w.planSealed ==>
      Decode(w).value == if w.error.Some? then PlanningFailed(w.error.value) else Status.Planning
    ensures w.planSealed && IsFirst(w.tasks, m) ==>
      var tasks := Decode(w).value.tasks;
      exists i :: 0 <= i < |tasks| && CleanedFrom(tasks[i], w.tasks[m])
  {
    if w.planSealed && IsFirst(w.tasks, m) {
      FirstWinsComplete(w.tasks, m);
      var kept := FirstWins(w.tasks);
      var i :| 0 <= i < |kept| && kept[i] == w.tasks[m];
      assert CleanedFrom(SanitizeAll(kept)[i], w.tasks[m]);
    }
  }
}
