/** The cheatcode access table: which RPC methods are disabled, and which of those for good. */
module Cheatcodes {
  import opened Prelude

  const ENABLE := "surfnet_enableCheatcode"
  const DISABLE := "surfnet_disableCheatcode"

  datatype Entry = Entry(name: string, locked: bool)

  datatype Disabled = All | Methods(entries: seq<Entry>)

  datatype Config = Config(lockout: bool, disabled: Disabled)
  {
    predicate IsLocked(m: string) {
      disabled.All? || LockedIn(disabled.entries, m)
    }

    predicate IsDisabled(m: string) {
      disabled.All? || Listed(disabled.entries, m)
    }
  }

  datatype Op =
    | LockAll
    | LockMethods(methods: seq<string>)
    | Lockout
    | DisableAll(lockout: bool, available: seq<string>)
    | Disable(name: string)
    | EnableAll
    | Enable(name: string)

  predicate Listed(entries: seq<Entry>, m: string) {
    exists i :: 0 <= i < |entries| && entries[i].name == m
  }

  predicate LockedIn(entries: seq<Entry>, m: string) {
    exists i :: 0 <= i < |entries| && entries[i].locked && entries[i].name == m
  }

  predicate IsControl(m: string) {
    m == ENABLE || m == DISABLE
  }

  /** The first entry for `m`; the length of the table when there is none. */
  function IndexOf(entries: seq<Entry>, m: string): (i: nat)
    ensures i <= |entries|
    ensures i < |entries| ==> entries[i].name == m
    ensures forall j :: 0 <= j < i ==> entries[j].name != m
  {
    FirstIndex(entries, (e: Entry) => e.name == m)
  }

  function LockOne(entries: seq<Entry>, m: string): seq<Entry> {
    PutAt(entries, IndexOf(entries, m), Entry(m, true))
  }

  function LockEach(entries: seq<Entry>, methods: seq<string>): seq<Entry> {
    if methods == [] then entries else
      LockOne(LockEach(entries, methods[..|methods| - 1]), methods[|methods| - 1])
  }

  function OnlyLocked(entries: seq<Entry>): seq<Entry> {
    if entries == [] then [] else
      (if entries[0].locked then [entries[0]] else []) + OnlyLocked(entries[1..])
  }

  function WithoutControl(methods: seq<string>): seq<string> {
    if methods == [] then [] else
      (if IsControl(methods[0]) then [] else [methods[0]]) + WithoutControl(methods[1..])
  }

  function Relisted(methods: seq<string>, before: seq<Entry>): seq<Entry> {
    seq(|methods|, i requires 0 <= i < |methods| => Entry(methods[i], LockedIn(before, methods[i])))
  }

  /** Locks survive a relisting, also on methods it does not mention. */
  function WithSurvivors(listed: seq<Entry>, before: seq<Entry>): seq<Entry> {
    if before == [] then listed else
      var last := before[|before| - 1];
      var rest := WithSurvivors(listed, before[..|before| - 1]);
      if last.locked && !Listed(rest, last.name) then rest + [last] else rest
  }

  /** The table after an operation; `None` when it is refused. */
  function Next(c: Config, op: Op): Option<Config> {
    match op
    case LockAll => Some(Config(true, All))
    case LockMethods(methods) =>
      Some(Config(true, if c.disabled.All? then All else Methods(LockEach(c.disabled.entries, methods))))
    case Lockout => Some(c.(lockout := true))
    case DisableAll(lockout, available) =>
      if lockout then Some(Config(true, All))
      else if c.disabled.All? then Some(c)
      else
        var relisted := Relisted(WithoutControl(available), c.disabled.entries);
        Some(c.(disabled := Methods(WithSurvivors(relisted, c.disabled.entries))))
    case Disable(m) =>
      if (!c.lockout && IsControl(m)) || c.disabled.All? || Listed(c.disabled.entries, m) then None
      else Some(c.(disabled := Methods(c.disabled.entries + [Entry(m, false)])))
    case EnableAll => if c.disabled.All? then None else Some(c.(disabled := Methods(OnlyLocked(c.disabled.entries))))
    case Enable(m) =>
      if c.IsLocked(m) || !Listed(c.disabled.entries, m) then None
      else
        var i := IndexOf(c.disabled.entries, m);
        Some(c.(disabled := Methods(c.disabled.entries[..i] + c.disabled.entries[i + 1..])))
  }

  class CheatcodeConfig {
    var lockout: bool
    var disabled: Disabled

    function State(): Config
      reads this
    {
      Config(lockout, disabled)
    }

    constructor ()
      ensures State() == Config(false, Methods([]))
    {
      lockout, disabled := false, Methods([]);
    }

    method LockAll()
      modifies this
      ensures Next(old(State()), Op.LockAll) == Some(State())
    {
      lockout := true;
      disabled := All;
    }

    method LockMethods(methods: seq<string>)
      modifies this
      ensures Next(old(State()), Op.LockMethods(methods)) == Some(State())
    {
      lockout := true;
      if disabled.All? { return; }
      var entries := disabled.entries;
      for n := 0 to |methods|
        invariant entries == LockEach(disabled.entries, methods[..n])
      {
        assert methods[..n + 1][..n] == methods[..n];
        var i := IndexOf(entries, methods[n]);
        if i < |entries| {
          entries := entries[i := entries[i].(locked := true)];
        } else {
          entries := entries + [Entry(methods[n], true)];
        }
      }
      assert methods[..|methods|] == methods;
      disabled := Methods(entries);
    }

    method SetLockout()
      modifies this
      ensures Next(old(State()), Op.Lockout) == Some(State())
    {
      lockout := true;
    }

    method DisableAll(lock: bool, available: seq<string>)
      modifies this
      ensures Next(old(State()), Op.DisableAll(lock, available)) == Some(State())
    {
      if lock {
        LockAll();
        return;
      }
      if disabled.All? { return; }
      var before := disabled.entries;
      var all := Relisted(WithoutControl(available), before);
      for n := 0 to |before|
        invariant all == WithSurvivors(Relisted(WithoutControl(available), before), before[..n])
      {
        assert before[..n + 1][..n] == before[..n];
        if before[n].locked && !Listed(all, before[n].name) {
          all := all + [before[n]];
        }
      }
      assert before[..|before|] == before;
      disabled := Methods(all);
    }

    method Disable(m: string) returns (ok: bool)
      modifies this
      ensures ok <==> Next(old(State()), Op.Disable(m)).Some?
      ensures State() == if ok then Next(old(State()), Op.Disable(m)).value else old(State())
    {
      if !lockout && IsControl(m) { return false; }
      if disabled.All? || Listed(disabled.entries, m) { return false; }
      disabled := Methods(disabled.entries + [Entry(m, false)]);
      return true;
    }

    method EnableAll() returns (ok: bool)
      modifies this
      ensures ok <==> Next(old(State()), Op.EnableAll).Some?
      ensures State() == if ok then Next(old(State()), Op.EnableAll).value else old(State())
    {
      if disabled.All? { return false; }
      disabled := Methods(OnlyLocked(disabled.entries));
      return true;
    }

    method Enable(m: string) returns (ok: bool)
      modifies this
      ensures ok <==> Next(old(State()), Op.Enable(m)).Some?
      ensures State() == if ok then Next(old(State()), Op.Enable(m)).value else old(State())
    {
      if State().IsLocked(m) { return false; }
      var i := IndexOf(disabled.entries, m);
      if i == |disabled.entries| { return false; }
      disabled := Methods(disabled.entries[..i] + disabled.entries[i + 1..]);
      return true;
    }
  }

  // ----- runs

  function Step(c: Config, op: Op): Config {
    match Next(c, op) case Some(d) => d case None => c
  }

  function Run(c: Config, ops: seq<Op>): Config {
    if ops == [] then c else Step(Run(c, ops[..|ops| - 1]), ops[|ops| - 1])
  }

  const INITIAL := Config(false, Methods([]))

  // ----- locks are one-way

  lemma ListedAppend(a: seq<Entry>, b: seq<Entry>, m: string)
    ensures Listed(a + b, m) <==> Listed(a, m) || Listed(b, m)
    ensures LockedIn(a + b, m) <==> LockedIn(a, m) || LockedIn(b, m)
  {
    if Listed(b, m) {
      var i :| 0 <= i < |b| && b[i].name == m;
      assert (a + b)[|a| + i] == b[i];
    }
    if LockedIn(b, m) {
      var i :| 0 <= i < |b| && b[i].locked && b[i].name == m;
      assert (a + b)[|a| + i] == b[i];
    }
    assert forall i :: 0 <= i < |a| ==> (a + b)[i] == a[i];
  }

  lemma LockOneExact(entries: seq<Entry>, lock: string, m: string)
    ensures Listed(LockOne(entries, lock), m) <==> Listed(entries, m) || m == lock
    ensures LockedIn(LockOne(entries, lock), m) <==> LockedIn(entries, m) || m == lock
  {
    var i := IndexOf(entries, lock);
    var after := LockOne(entries, lock);
    assert after[i] == Entry(lock, true);
    assert forall j :: 0 <= j < |entries| && j != i ==> after[j] == entries[j];
  }

  lemma {:induction false} LockEachExact(entries: seq<Entry>, methods: seq<string>, m: string)
    ensures Listed(LockEach(entries, methods), m) <==> Listed(entries, m) || m in methods
    ensures LockedIn(LockEach(entries, methods), m) <==> LockedIn(entries, m) || m in methods
  {
    if methods != [] {
      var init, last := methods[..|methods| - 1], methods[|methods| - 1];
      assert methods == init + [last];
      LockEachExact(entries, init, m);
      LockOneExact(LockEach(entries, init), last, m);
    }
  }

  lemma {:induction false} OnlyLockedExact(entries: seq<Entry>, m: string)
    ensures Listed(OnlyLocked(entries), m) <==> LockedIn(entries, m)
    ensures LockedIn(OnlyLocked(entries), m) <==> LockedIn(entries, m)
  {
    if entries != [] {
      OnlyLockedExact(entries[1..], m);
      var head, rest := if entries[0].locked then [entries[0]] else [], OnlyLocked(entries[1..]);
      ListedAppend(head, rest, m);
      ListedAppend([entries[0]], entries[1..], m);
      assert entries == [entries[0]] + entries[1..];
    }
  }

  /** What the relisted table holds: the new list, and every lock. */
  lemma {:induction false} SurvivorsExact(listed: seq<Entry>, before: seq<Entry>, m: string)
    ensures Listed(WithSurvivors(listed, before), m) <==> Listed(listed, m) || LockedIn(before, m)
    ensures LockedIn(WithSurvivors(listed, before), m) <==>
      LockedIn(listed, m) || (!Listed(listed, m) && LockedIn(before, m))
  {
    if before != [] {
      var init, last := before[..|before| - 1], before[|before| - 1];
      SurvivorsExact(listed, init, m);
      SurvivorsExact(listed, init, last.name);
      var rest := WithSurvivors(listed, init);
      ListedAppend(rest, [last], m);
      ListedAppend(init, [last], m);
      assert before == init + [last];
      assert [last][0] == last;
    }
  }

  lemma {:induction false} WithoutControlMembers(methods: seq<string>, m: string)
    ensures m in WithoutControl(methods) <==> m in methods && !IsControl(m)
  {
    if methods != [] {
      WithoutControlMembers(methods[1..], m);
    }
  }

  lemma RelistedExact(methods: seq<string>, before: seq<Entry>, m: string)
    ensures Listed(Relisted(methods, before), m) <==> m in methods
    ensures LockedIn(Relisted(methods, before), m) <==> m in methods && LockedIn(before, m)
  {
    var r := Relisted(methods, before);
    if m in methods {
      var i :| 0 <= i < |methods| && methods[i] == m;
      assert r[i] == Entry(m, LockedIn(before, m));
    }
  }

  lemma RemovalExact(entries: seq<Entry>, i: nat, m: string)
    requires i < |entries|
    ensures var after := entries[..i] + entries[i + 1..];
            && (m != entries[i].name ==> (Listed(after, m) <==> Listed(entries, m)))
            && (m != entries[i].name ==> (LockedIn(after, m) <==> LockedIn(entries, m)))
            && (Listed(after, m) ==> Listed(entries, m)) && (LockedIn(after, m) ==> LockedIn(entries, m))
  {
    ListedAppend(entries[..i], entries[i + 1..], m);
    ListedAppend(entries[..i], [entries[i]], m);
    ListedAppend(entries[..i] + [entries[i]], entries[i + 1..], m);
    assert entries == entries[..i] + [entries[i]] + entries[i + 1..];
  }

  /** What an accepted operation does to one method, said without the table. */
  ghost predicate Means(c: Config, op: Op, after: Config, m: string) {
    match op
    case LockAll => after.IsLocked(m) && after.IsDisabled(m)
    case LockMethods(methods) =>
      && (after.IsLocked(m) <==> c.IsLocked(m) || m in methods)
      && (after.IsDisabled(m) <==> c.IsDisabled(m) || m in methods)
    case Lockout => (after.IsLocked(m) <==> c.IsLocked(m)) && (after.IsDisabled(m) <==> c.IsDisabled(m))
    case DisableAll(lockout, available) =>
      && (after.IsLocked(m) <==> lockout || c.IsLocked(m))
      && (after.IsDisabled(m) <==> lockout || c.IsLocked(m) || (m in available && !IsControl(m)))
    case Disable(name) =>
      (after.IsLocked(m) <==> c.IsLocked(m)) && (after.IsDisabled(m) <==> c.IsDisabled(m) || m == name)
    case EnableAll => (after.IsLocked(m) <==> c.IsLocked(m)) && (after.IsDisabled(m) <==> c.IsLocked(m))
    case Enable(name) =>
      && !c.IsLocked(name) && (after.IsLocked(m) <==> c.IsLocked(m))
      && (m != name ==> (after.IsDisabled(m) <==> c.IsDisabled(m)))
  }

  lemma OperationMeaning(c: Config, op: Op, m: string)
    requires Next(c, op).Some?
    ensures Means(c, op, Next(c, op).value, m)
    ensures Next(c, op).value.lockout <==>
      c.lockout || op.LockAll? || op.LockMethods? || op.Lockout? || (op.DisableAll? && op.lockout)
  {
    if c.disabled.Methods? {
      var before := c.disabled.entries;
      match op
      case LockMethods(methods) => LockEachExact(before, methods, m);
      case DisableAll(lockout, available) =>
        WithoutControlMembers(available, m);
        RelistedExact(WithoutControl(available), before, m);
        SurvivorsExact(Relisted(WithoutControl(available), before), before, m);
      case Disable(name) =>
        ListedAppend(before, [Entry(name, false)], m);
        assert [Entry(name, false)][0] == Entry(name, false);
      case EnableAll => OnlyLockedExact(before, m);
      case Enable(name) =>
        RemovalExact(before, IndexOf(before, name), m);
      case _ =>
    }
  }

  /** When each operation is accepted: the two control methods answer until lockout, nothing is disabled twice, and
      what is locked, or everything, cannot be enabled. */
  lemma AcceptedExactly(c: Config, op: Op)
    ensures Next(c, op).Some? <==>
      match op
      case Disable(m) =>
        !c.IsDisabled(m) && (c.lockout || (m != "surfnet_enableCheatcode" && m != "surfnet_disableCheatcode"))
      case Enable(m) => c.IsDisabled(m) && !c.IsLocked(m)
      case EnableAll => c.disabled != All
      case _ => true
  {
  }

  function Names(entries: seq<Entry>): seq<string> {
    seq(|entries|, i requires 0 <= i < |entries| => entries[i].name)
  }

  lemma {:induction false} LockEachOrder(entries: seq<Entry>, methods: seq<string>)
    ensures Names(entries) <= Names(LockEach(entries, methods))
  {
    if methods != [] {
      LockEachOrder(entries, methods[..|methods| - 1]);
    }
  }

  lemma {:induction false} SurvivorsOrder(listed: seq<Entry>, before: seq<Entry>)
    ensures listed <= WithSurvivors(listed, before)
  {
    if before != [] {
      SurvivorsOrder(listed, before[..|before| - 1]);
    }
  }

  /** The order of the table: a new method goes last, an enabled one leaves a gap that closes, and a relisting starts
      with the available methods in their order. */
  lemma TableOrder(c: Config, op: Op)
    requires Next(c, op).Some? && c.disabled.Methods? && Next(c, op).value.disabled.Methods?
    ensures var before, after := Names(c.disabled.entries), Names(Next(c, op).value.disabled.entries);
            match op
            case LockMethods(_) => before <= after
            case Disable(m) => after == before + [m]
            case Enable(m) => exists i :: 0 <= i < |before| && before[i] == m && after == before[..i] + before[i + 1..]
            case DisableAll(_, available) => WithoutControl(available) <= after
            case _ => true
  {
    var entries := c.disabled.entries;
    match op
    case LockMethods(methods) => LockEachOrder(entries, methods);
    case Enable(m) =>
      var i := IndexOf(entries, m);
      assert Names(entries)[i] == m;
    case DisableAll(_, available) =>
      var relisted := Relisted(WithoutControl(available), entries);
      SurvivorsOrder(relisted, entries);
      assert Names(relisted) == WithoutControl(available);
    case _ =>
  }

  /** Disabling a method and enabling it again gives the table back. */
  lemma DisableEnable(c: Config, m: string)
    requires Next(c, Disable(m)).Some?
    ensures Next(Step(c, Disable(m)), Enable(m)) == Some(c)
  {
    var before := c.disabled.entries;
    var entries := before + [Entry(m, false)];
    ListedAppend(before, [Entry(m, false)], m);
    assert entries[|before|].name == m;
    assert forall i :: 0 <= i < |before| ==> entries[i].name != m;
    assert IndexOf(entries, m) == |before|;
    assert entries[..|before|] + entries[|before| + 1..] == before;
  }

  /** Whatever follows, a locked method stays locked and disabled for ever. */
  lemma {:induction false} LockedForever(c: Config, ops: seq<Op>, m: string)
    requires c.IsLocked(m)
    ensures Run(c, ops).IsLocked(m) && Run(c, ops).IsDisabled(m)
  {
    if ops != [] {
      LockedForever(c, ops[..|ops| - 1], m);
      if Next(Run(c, ops[..|ops| - 1]), ops[|ops| - 1]).Some? {
        OperationMeaning(Run(c, ops[..|ops| - 1]), ops[|ops| - 1], m);
      }
    }
  }

  // ----- before lockout, everything can be undone

  /** Nothing is locked and both control methods still answer. */
  ghost predicate Reversible(c: Config) {
    && (forall m: string :: !c.IsLocked(m))
    && !c.IsDisabled(ENABLE) && !c.IsDisabled(DISABLE)
  }

  lemma ReversibleKept(c: Config, op: Op)
    requires c.lockout || Reversible(c)
    ensures Step(c, op).lockout || Reversible(Step(c, op))
  {
    if Next(c, op).Some? {
      OperationMeaning(c, op, "");
      forall m: string | !Step(c, op).lockout
        ensures !Step(c, op).IsLocked(m) && (IsControl(m) ==> !Step(c, op).IsDisabled(m))
      {
        assert !c.IsLocked(m);
        OperationMeaning(c, op, m);
        if op.Disable? {
          assert !IsControl(op.name);
        } else if op.Enable? && m == op.name && IsControl(m) {
          ControlStaysListed(c, m);
        }
      }
    }
  }

  lemma ControlStaysListed(c: Config, m: string)
    requires Reversible(c) && IsControl(m)
    ensures Next(c, Enable(m)).None?
  {
  }

  /** In every run, while `lockout` is false nothing is locked and neither control method is disabled. */
  lemma {:induction false} ReversibleUntilLockout(ops: seq<Op>)
    ensures !Run(INITIAL, ops).lockout ==> Reversible(Run(INITIAL, ops))
  {
    if ops != [] {
      ReversibleUntilLockout(ops[..|ops| - 1]);
      ReversibleKept(Run(INITIAL, ops[..|ops| - 1]), ops[|ops| - 1]);
    }
  }

  // ----- no method twice

  ghost predicate NamesDistinct(entries: seq<Entry>) {
    forall i, j :: 0 <= i < j < |entries| ==> entries[i].name != entries[j].name
  }

  ghost predicate NoRepeats(c: Config) {
    c.disabled.Methods? ==> NamesDistinct(c.disabled.entries)
  }

  ghost predicate RepeatFree(op: Op) {
    op.DisableAll? ==> Distinct(op.available)
  }

  lemma {:induction false} LockEachDistinct(entries: seq<Entry>, methods: seq<string>)
    requires NamesDistinct(entries)
    ensures NamesDistinct(LockEach(entries, methods))
  {
    if methods != [] {
      LockEachDistinct(entries, methods[..|methods| - 1]);
    }
  }

  lemma {:induction false} OnlyLockedDistinct(entries: seq<Entry>)
    requires NamesDistinct(entries)
    ensures NamesDistinct(OnlyLocked(entries))
  {
    if entries != [] {
      OnlyLockedDistinct(entries[1..]);
      OnlyLockedExact(entries[1..], entries[0].name);
    }
  }

  lemma {:induction false} WithoutControlDistinct(methods: seq<string>)
    requires Distinct(methods)
    ensures Distinct(WithoutControl(methods))
  {
    if methods != [] {
      WithoutControlDistinct(methods[1..]);
      WithoutControlMembers(methods[1..], methods[0]);
    }
  }

  lemma {:induction false} SurvivorsDistinct(listed: seq<Entry>, before: seq<Entry>)
    requires NamesDistinct(listed)
    ensures NamesDistinct(WithSurvivors(listed, before))
  {
    if before != [] {
      SurvivorsDistinct(listed, before[..|before| - 1]);
    }
  }

  lemma AppendDistinct(entries: seq<Entry>, e: Entry)
    requires NamesDistinct(entries) && !Listed(entries, e.name)
    ensures NamesDistinct(entries + [e])
  {
  }

  lemma RemovalDistinct(entries: seq<Entry>, i: nat)
    requires NamesDistinct(entries) && i < |entries|
    ensures NamesDistinct(entries[..i] + entries[i + 1..])
  {
  }

  lemma NoRepeatsKept(c: Config, op: Op)
    requires NoRepeats(c) && RepeatFree(op)
    ensures NoRepeats(Step(c, op))
  {
    if c.disabled.Methods? && Next(c, op).Some? {
      var before := c.disabled.entries;
      match op
      case LockMethods(methods) => LockEachDistinct(before, methods);
      case DisableAll(_, available) =>
        WithoutControlDistinct(available);
        SurvivorsDistinct(Relisted(WithoutControl(available), before), before);
      case Disable(name) => AppendDistinct(before, Entry(name, false));
      case EnableAll => OnlyLockedDistinct(before);
      case Enable(name) => RemovalDistinct(before, IndexOf(before, name));
      case _ =>
    }
  }

  /** With repeat-free lists of available methods, no method is ever listed twice. */
  lemma {:induction false} NoRepeatsInRuns(ops: seq<Op>)
    requires forall i :: 0 <= i < |ops| ==> RepeatFree(ops[i])
    ensures NoRepeats(Run(INITIAL, ops))
  {
    if ops != [] {
      NoRepeatsInRuns(ops[..|ops| - 1]);
      NoRepeatsKept(Run(INITIAL, ops[..|ops| - 1]), ops[|ops| - 1]);
    }
  }

  /** `m` is listed, and once only. */
  ghost predicate ListedOnce(entries: seq<Entry>, m: string) {
    Listed(entries, m) && forall i, j :: 0 <= i < j < |entries| ==> entries[i].name != m || entries[j].name != m
  }

  lemma RemovedIfOnce(entries: seq<Entry>, m: string)
    requires IndexOf(entries, m) < |entries|
    ensures var i := IndexOf(entries, m);
            !Listed(entries[..i] + entries[i + 1..], m) <==> ListedOnce(entries, m)
  {
    var i := IndexOf(entries, m);
    var rest := entries[i + 1..];
    ListedAppend(entries[..i], rest, m);
    if Listed(rest, m) {
      var j :| 0 <= j < |rest| && rest[j].name == m;
      assert entries[i + 1 + j].name == m;
    } else {
      forall j, k | 0 <= j < k < |entries| ensures entries[j].name != m || entries[k].name != m {
        if k > i {
          assert entries[k] == rest[k - i - 1];
        }
      }
      assert Listed(entries, m);
    }
  }

  /** A successful enable clears the method exactly when it was listed once, and touches no other method. */
  lemma EnableClears(c: Config, m: string, other: string)
    requires Next(c, Enable(m)).Some?
    ensures !Step(c, Enable(m)).IsDisabled(m) <==> ListedOnce(c.disabled.entries, m)
    ensures other != m ==> (Step(c, Enable(m)).IsDisabled(other) <==> c.IsDisabled(other))
    ensures NoRepeats(c) ==> ListedOnce(c.disabled.entries, m)
  {
    var before := c.disabled.entries;
    var i := IndexOf(before, m);
    RemovalExact(before, i, other);
    RemovedIfOnce(before, m);
  }

  /** The condition is needed: a list with a repeat leaves the method disabled after a successful enable. */
  lemma RepeatSurvivesEnable()
    ensures var c := Step(INITIAL, DisableAll(false, ["surfnet_setAccount", "surfnet_setAccount"]));
            && Next(c, Enable("surfnet_setAccount")).Some?
            && Step(c, Enable("surfnet_setAccount")).IsDisabled("surfnet_setAccount")
  {
    var m := "surfnet_setAccount";
    assert [m, m][1..] == [m] && [m][1..] == [];
    assert |m| != |ENABLE| && |m| != |DISABLE|;
    assert WithoutControl([m]) == [m] + WithoutControl([]) == [m];
    assert WithoutControl([m, m]) == [m] + WithoutControl([m]);
    var c := Step(INITIAL, DisableAll(false, [m, m]));
    assert c.disabled.entries == [Entry(m, false), Entry(m, false)];
    assert !c.IsLocked(m) && c.disabled.entries[0].name == m;
    EnableClears(c, m, "");
    assert c.disabled.entries[0].name == c.disabled.entries[1].name == m;
  }
}
