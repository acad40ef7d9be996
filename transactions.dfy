/** The batch of `Schema.Apply` and `Schema.Rollback` (schema.go) as a function: what one
    transaction does to a staged copy of the ledger, step by step, and where it stops. */
module Transactions {
  import opened Errors
  import opened Migrations
  import opened Ordering

  /** The `applied_at` value; `time.Now()` is read once per `Apply` and passed in. */
  type Timestamp = int

  /** The rows of the ledger table: each recorded name with its `applied_at`. */
  type Ledger = map<string, Timestamp>

  datatype Direction = Up | Down

  /** What the schema asks of the database and of the callbacks, in order. */
  datatype Event =
    | Began
    | Invoked(dir: Direction, name: string)
    | Inserted(name: string, at: Timestamp)
    | Deleted(name: string)
    | Selected(desc: bool)
    | Committed
    | RolledBack

  /** The outcome of a batch loop: `done` units completed, the staged ledger, the error that
      stopped the loop (if any) and the events issued. */
  datatype Run = Run(done: nat, staged: Ledger, failure: MaybeError, events: seq<Event>)

  function Names(ms: seq<Migration>): (r: seq<string>)
    ensures |r| == |ms| && forall i :: 0 <= i < |ms| ==> r[i] == ms[i].Name()
  {
    if ms == [] then [] else [ms[0].Name()] + Names(ms[1..])
  }

  /** The names of the migrations whose callback was invoked, in invocation order. */
  function Invocations(events: seq<Event>): seq<string>
  {
    if events == [] then []
    else (if events[0].Invoked? then [events[0].name] else []) + Invocations(events[1..])
  }

  /** The callback the loop invokes: `m.Apply(tx)` going up, `m.Rollback(tx)` going down. */
  function Callback(dir: Direction, m: Migration): MaybeError
  {
    if dir == Up then m.Apply() else m.Rollback()
  }

  /** The ledger statement that follows a successful callback. */
  function Statement(dir: Direction, m: Migration, now: Timestamp): Event
  {
    if dir == Up then Inserted(m.Name(), now) else Deleted(m.Name())
  }

  /** The database's answer to that statement: `reported`, except that an INSERT of a name
      already recorded breaks the table's `UNIQUE` constraint.  A DELETE of an absent name
      removes nothing and is no error. */
  function ExecOutcome(dir: Direction, staged: Ledger, m: Migration, reported: MaybeError): MaybeError
  {
    if dir == Up && m.Name() in staged then Failed(UniqueViolation(m.Name())) else reported
  }

  /** The staged ledger after a successful statement. */
  function Update(dir: Direction, staged: Ledger, m: Migration, now: Timestamp): Ledger
  {
    if dir == Up then staged[m.Name() := now] else staged - {m.Name()}
  }

  /** The error of one step, callback first and statement second; `NoError` if both succeed. */
  function StepFailure(dir: Direction, staged: Ledger, m: Migration, reported: MaybeError): MaybeError
  {
    if Callback(dir, m).Failed? then Callback(dir, m) else ExecOutcome(dir, staged, m, reported)
  }

  /** The loop of `Apply` (schema.go:68-80) and `Rollback` (schema.go:109-121): `exec[i]` is
      the database's answer to the statement for `ms[i]`. */
  function RunBatch(dir: Direction, staged: Ledger, ms: seq<Migration>, exec: seq<MaybeError>, now: Timestamp): (r: Run)
    requires |exec| == |ms|
    ensures r.done <= |ms|
    ensures r.failure.NoError? <==> r.done == |ms|
    decreases |ms|
  {
    if ms == [] then Run(0, staged, NoError, [])
    else
      var m := ms[0];
      if Callback(dir, m).Failed? then Run(0, staged, Callback(dir, m), [Invoked(dir, m.Name())])
      else if ExecOutcome(dir, staged, m, exec[0]).Failed? then
        Run(0, staged, ExecOutcome(dir, staged, m, exec[0]), [Invoked(dir, m.Name()), Statement(dir, m, now)])
      else
        var rest := RunBatch(dir, Update(dir, staged, m, now), ms[1..], exec[1..], now);
        Run(rest.done + 1, rest.staged, rest.failure, [Invoked(dir, m.Name()), Statement(dir, m, now)] + rest.events)
  }

  /** One step of the loop, at index `i`. */
  lemma RunUnfold(dir: Direction, staged: Ledger, ms: seq<Migration>, exec: seq<MaybeError>, now: Timestamp, i: nat)
    requires |exec| == |ms| && i < |ms|
    ensures var m := ms[i];
      RunBatch(dir, staged, ms[i..], exec[i..], now) ==
        if Callback(dir, m).Failed? then Run(0, staged, Callback(dir, m), [Invoked(dir, m.Name())])
        else if ExecOutcome(dir, staged, m, exec[i]).Failed? then
          Run(0, staged, ExecOutcome(dir, staged, m, exec[i]), [Invoked(dir, m.Name()), Statement(dir, m, now)])
        else
          var rest := RunBatch(dir, Update(dir, staged, m, now), ms[i + 1..], exec[i + 1..], now);
          Run(rest.done + 1, rest.staged, rest.failure, [Invoked(dir, m.Name()), Statement(dir, m, now)] + rest.events)
  {
    assert ms[i..][0] == ms[i] && exec[i..][0] == exec[i];
    assert ms[i..][1..] == ms[i + 1..] && exec[i..][1..] == exec[i + 1..];
  }

  lemma AppendAssoc(a: seq<Event>, b: seq<Event>, c: seq<Event>)
    ensures a + (b + c) == (a + b) + c
  {
  }

  lemma {:induction false} InvocationsAppend(a: seq<Event>, b: seq<Event>)
    ensures Invocations(a + b) == Invocations(a) + Invocations(b)
    decreases |a|
  {
    if a == [] {
      assert a + b == b;
    } else {
      assert (a + b)[1..] == a[1..] + b;
      InvocationsAppend(a[1..], b);
    }
  }

  /** The names of a non-empty prefix: the first name, then the names of the rest's prefix. */
  lemma NamesCons(ms: seq<Migration>, k: nat)
    requires 0 < k <= |ms|
    ensures Names(ms[..k]) == [ms[0].Name()] + Names(ms[1..][..k - 1])
  {
    assert forall j :: 0 < j < k ==> ms[..k][j] == ms[1..][..k - 1][j - 1];
  }

  /** One step of the loop invokes exactly the callback of its unit. */
  lemma StepInvokes(dir: Direction, m: Migration, now: Timestamp)
    ensures Invocations([Invoked(dir, m.Name())]) == [m.Name()]
    ensures Invocations([Invoked(dir, m.Name()), Statement(dir, m, now)]) == [m.Name()]
  {
    assert [Invoked(dir, m.Name())][1..] == [];
    assert [Invoked(dir, m.Name()), Statement(dir, m, now)][1..] == [Statement(dir, m, now)];
    assert [Statement(dir, m, now)][1..] == [];
  }

  /** Each unit's callback is invoked once, in input order; a batch that fails at unit `k`
      invokes the callbacks of units 0..k and none after. */
  lemma {:induction false} RunInvokesInOrder(dir: Direction, staged: Ledger, ms: seq<Migration>, exec: seq<MaybeError>, now: Timestamp)
    requires |exec| == |ms|
    ensures var r := RunBatch(dir, staged, ms, exec, now);
      Invocations(r.events) == Names(ms[..if r.failure.NoError? then |ms| else r.done + 1])
    decreases |ms|
  {
    if ms == [] {
      assert ms[..0] == [];
    } else {
      var m := ms[0];
      StepInvokes(dir, m, now);
      var r := RunBatch(dir, staged, ms, exec, now);
      if Callback(dir, m).Failed? || ExecOutcome(dir, staged, m, exec[0]).Failed? {
        NamesCons(ms, 1);
        assert Names(ms[1..][..0]) == [];
      } else {
        var head := [Invoked(dir, m.Name()), Statement(dir, m, now)];
        var rest := RunBatch(dir, Update(dir, staged, m, now), ms[1..], exec[1..], now);
        assert r.events == head + rest.events && r.failure == rest.failure && r.done == rest.done + 1;
        RunInvokesInOrder(dir, Update(dir, staged, m, now), ms[1..], exec[1..], now);
        InvocationsAppend(head, rest.events);
        var k := if rest.failure.NoError? then |ms| - 1 else rest.done + 1;
        NamesCons(ms, k + 1);
      }
    }
  }

  /** A failed batch reports the error of step `done`, taken against the ledger it staged. */
  lemma {:induction false} RunFailsAtDone(dir: Direction, staged: Ledger, ms: seq<Migration>, exec: seq<MaybeError>, now: Timestamp)
    requires |exec| == |ms|
    ensures var r := RunBatch(dir, staged, ms, exec, now);
      r.failure.Failed? ==> r.failure == StepFailure(dir, r.staged, ms[r.done], exec[r.done])
    decreases |ms|
  {
    var r := RunBatch(dir, staged, ms, exec, now);
    if ms != [] && r.failure.Failed? {
      var m := ms[0];
      if Callback(dir, m).NoError? && ExecOutcome(dir, staged, m, exec[0]).NoError? {
        RunFailsAtDone(dir, Update(dir, staged, m, now), ms[1..], exec[1..], now);
        assert ms[r.done] == ms[1..][r.done - 1] && exec[r.done] == exec[1..][r.done - 1];
      }
    }
  }

  /** The steps before a failure all succeeded: the batch of the first `done` units alone
      would have completed, staging the same ledger. */
  lemma {:induction false} RunPrefixSucceeds(dir: Direction, staged: Ledger, ms: seq<Migration>, exec: seq<MaybeError>, now: Timestamp)
    requires |exec| == |ms|
    ensures var r := RunBatch(dir, staged, ms, exec, now);
      var p := RunBatch(dir, staged, ms[..r.done], exec[..r.done], now);
      p.failure.NoError? && p.staged == r.staged
    decreases |ms|
  {
    var r := RunBatch(dir, staged, ms, exec, now);
    if r.done == 0 {
      assert ms[..0] == [] && exec[..0] == [];
    } else {
      var m := ms[0];
      var st := Update(dir, staged, m, now);
      assert Callback(dir, m).NoError? && ExecOutcome(dir, staged, m, exec[0]).NoError?;
      var rest := RunBatch(dir, st, ms[1..], exec[1..], now);
      assert r.done == rest.done + 1 && r.staged == rest.staged;
      RunPrefixSucceeds(dir, st, ms[1..], exec[1..], now);
      var pre := ms[..r.done];
      var preExec := exec[..r.done];
      assert pre[0] == m && preExec[0] == exec[0];
      assert pre[1..] == ms[1..][..rest.done] && preExec[1..] == exec[1..][..rest.done];
      var p := RunBatch(dir, st, ms[1..][..rest.done], exec[1..][..rest.done], now);
      assert RunBatch(dir, staged, pre, preExec, now) == Run(p.done + 1, p.staged, p.failure, [Invoked(dir, m.Name()), Statement(dir, m, now)] + p.events);
    }
  }

  /** The loop stops at the FIRST failing step: every unit before `k = done` completed, and
      the returned failure is the error of step `k` against the ledger they staged. */
  lemma RunStopsAtFirstFailure(dir: Direction, staged: Ledger, ms: seq<Migration>, exec: seq<MaybeError>, now: Timestamp)
    requires |exec| == |ms|
    ensures var r := RunBatch(dir, staged, ms, exec, now);
      r.failure.Failed? ==>
        var p := RunBatch(dir, staged, ms[..r.done], exec[..r.done], now);
        p.failure.NoError? && r.failure == StepFailure(dir, p.staged, ms[r.done], exec[r.done])
  {
    RunFailsAtDone(dir, staged, ms, exec, now);
    RunPrefixSucceeds(dir, staged, ms, exec, now);
  }

  /** The rows a committed `Apply` records: one per migration, each stamped with `now`. */
  function Stamped(ms: seq<Migration>, now: Timestamp): (r: Ledger)
    ensures forall n :: n in r <==> n in Names(ms)
    ensures forall n :: n in r ==> r[n] == now
    decreases |ms|
  {
    if ms == [] then map[]
    else
      var rest := Stamped(ms[1..], now);
      assert Names(ms) == [ms[0].Name()] + Names(ms[1..]);
      rest[ms[0].Name() := now]
  }

  lemma StampFirst(staged: Ledger, ms: seq<Migration>, now: Timestamp)
    requires ms != []
    ensures staged[ms[0].Name() := now] + Stamped(ms[1..], now) == staged + Stamped(ms, now)
  {
    var n := ms[0].Name();
    var lhs := staged[n := now] + Stamped(ms[1..], now);
    var rhs := staged + Stamped(ms, now);
    assert Stamped(ms, now) == Stamped(ms[1..], now)[n := now];
    assert lhs.Keys == rhs.Keys;
    forall k | k in lhs ensures lhs[k] == rhs[k] {
    }
  }

  /** A batch that applies without failure added exactly the names of `ms`, each with
      `applied_at == now`, and kept every earlier row. */
  lemma {:induction false} RunApplied(staged: Ledger, ms: seq<Migration>, exec: seq<MaybeError>, now: Timestamp)
    requires |exec| == |ms|
    ensures var r := RunBatch(Up, staged, ms, exec, now);
      r.failure.NoError? ==> r.staged == staged + Stamped(ms, now)
    decreases |ms|
  {
    var r := RunBatch(Up, staged, ms, exec, now);
    if ms != [] && r.failure.NoError? {
      RunApplied(Update(Up, staged, ms[0], now), ms[1..], exec[1..], now);
      StampFirst(staged, ms, now);
    }
  }

  /** A batch can apply without failure only if its names are distinct and none of them is
      recorded yet: the table's `UNIQUE` constraint stops it otherwise. */
  lemma {:induction false} RunAppliedFresh(staged: Ledger, ms: seq<Migration>, exec: seq<MaybeError>, now: Timestamp)
    requires |exec| == |ms|
    ensures var r := RunBatch(Up, staged, ms, exec, now);
      r.failure.NoError? ==> DistinctNames(ms) && forall i :: 0 <= i < |ms| ==> ms[i].Name() !in staged
    decreases |ms|
  {
    var r := RunBatch(Up, staged, ms, exec, now);
    if ms != [] && r.failure.NoError? {
      var m := ms[0];
      RunAppliedFresh(Update(Up, staged, m, now), ms[1..], exec[1..], now);
      forall i | 1 <= i < |ms| ensures ms[i].Name() != m.Name() && ms[i].Name() !in staged {
        assert ms[i] == ms[1..][i - 1];
      }
      forall i, j | 0 <= i < j < |ms| ensures ms[i].Name() != ms[j].Name() {
        if i > 0 { assert ms[i] == ms[1..][i - 1] && ms[j] == ms[1..][j - 1]; }
      }
    }
  }

  /** A batch that rolls back without failure removed exactly the names of `ms`. */
  lemma {:induction false} RunRolledBack(staged: Ledger, ms: seq<Migration>, exec: seq<MaybeError>, now: Timestamp)
    requires |exec| == |ms|
    ensures var r := RunBatch(Down, staged, ms, exec, now);
      r.failure.NoError? ==> r.staged == staged - (set n | n in Names(ms))
    decreases |ms|
  {
    var r := RunBatch(Down, staged, ms, exec, now);
    if ms != [] && r.failure.NoError? {
      var m := ms[0];
      RunRolledBack(Update(Down, staged, m, now), ms[1..], exec[1..], now);
      assert Names(ms) == [m.Name()] + Names(ms[1..]);
    }
  }

  /** Applying a list and then rolling the same list back, both without failure, gives back
      the ledger the batch started from. */
  lemma ApplyRollbackRoundTrip(ledger: Ledger, ms: seq<Migration>, up: seq<MaybeError>, down: seq<MaybeError>, now: Timestamp, later: Timestamp)
    requires |up| == |ms| && |down| == |ms|
    requires RunBatch(Up, ledger, ms, up, now).failure.NoError?
    requires RunBatch(Down, RunBatch(Up, ledger, ms, up, now).staged, ms, down, later).failure.NoError?
    ensures RunBatch(Down, RunBatch(Up, ledger, ms, up, now).staged, ms, down, later).staged == ledger
  {
    var applied := RunBatch(Up, ledger, ms, up, now).staged;
    RunApplied(ledger, ms, up, now);
    RunAppliedFresh(ledger, ms, up, now);
    RunRolledBack(applied, ms, down, later);
    forall n | n in Names(ms) ensures n !in ledger {
      var i :| 0 <= i < |ms| && Names(ms)[i] == n;
    }
  }
}
