/** `Schema` (schema.go): one database's ledger table and the operations on it.  The
    database is abstract: its ledger rows are a field, and what each query, statement,
    commit or rollback answers is passed in by the caller. */
module Store {
  import opened Errors
  import opened Migrations
  import opened Ordering
  import opened Transactions
  import opened Reconcile

  const DefaultMigrationTableName: string := "schema_migrations"
  const DefaultSchemaName: string := "public"

  /** What the database answers during one batch: to `Begin`, to the ledger statement of
      each unit (in input order), to `Commit` and to `Rollback`. */
  datatype TxOutcomes = TxOutcomes(begin: MaybeError, exec: seq<MaybeError>, commit: MaybeError, rollback: MaybeError)

  /** What the database answers to a finder's `SELECT name`: the query fails, or it yields a
      cursor over the ledger's names, after which iteration (`Scan` or `rows.Err()`) reports
      `iterErr` and `rows.Close()` reports `closeErr`. */
  datatype Cursor = QueryFailed(error: Error) | Rows(iterErr: MaybeError, closeErr: MaybeError)

  /** The answer of a finder: Go's pair `(res, err)`. */
  datatype Found = Found(res: seq<Migration>, err: MaybeError)

  /** `FindOne` (schema.go:162-169): the first migration with the name, as a one-element
      list, or an empty (nil) list with `ErrMigrationNotFound`. */
  function FindOne(migrations: seq<Migration>, name: string): (r: Found)
    ensures r.err.NoError? || r.err == Failed(MigrationNotFound)
    ensures r.err.Failed? <==> forall i :: 0 <= i < |migrations| ==> migrations[i].Name() != name
    ensures r.err.Failed? ==> r.res == []
    ensures r.err.NoError? ==> exists i :: 0 <= i < |migrations| && r.res == [migrations[i]] && migrations[i].Name() == name &&
                                          forall j :: 0 <= j < i ==> migrations[j].Name() != name
  {
    match FindByName(migrations, name)
    case Some(m) => Found([m], NoError)
    case None => Found([], Failed(MigrationNotFound))
  }

  /** The loop that builds `migByName` (schema.go:177-185, 253-261): each migration under its
      name, stopping at the first name seen twice. */
  method IndexByName(ms: seq<Migration>) returns (migByName: map<string, Migration>, repeat: Option<nat>)
    ensures repeat == FirstRepeat(ms)
    ensures repeat.None? ==> forall x :: x in migByName <==> x in Names(ms)
    ensures repeat.None? ==> forall j :: 0 <= j < |ms| ==> migByName[ms[j].Name()] == ms[j]
    ensures forall x :: x in migByName ==> migByName[x].Name() == x
  {
    var names: seq<string> := [];  // built as in the source, never read
    migByName := map[];
    for i := 0 to |ms|
      invariant DistinctNames(ms[..i])
      invariant forall x :: x in migByName <==> x in Names(ms[..i])
      invariant forall j :: 0 <= j < i ==> ms[j].Name() in migByName && migByName[ms[j].Name()] == ms[j]
      invariant forall x :: x in migByName ==> migByName[x].Name() == x
    {
      var m := ms[i];
      names := names + [m.Name()];
      if m.Name() in migByName {
        FirstRepeatAt(ms, i);
        return migByName, Some(i);
      }
      ghost var before := migByName;
      migByName := migByName[m.Name() := m];
      NamesSnoc(ms, i);
      DistinctNamesSnoc(ms, i);
      forall j | 0 <= j < i + 1
        ensures ms[j].Name() in migByName && migByName[ms[j].Name()] == ms[j]
      {
        if j < i {
          assert ms[j].Name() in before;
          assert ms[j].Name() != m.Name();
        }
      }
    }
    assert ms[..|ms|] == ms;
    FirstRepeatSpec(ms);
    repeat := None;
  }

  /** The filter loop of `FindUnapplied` (schema.go:220-224): every ledger name still in the
      map is deleted from it. */
  method DeleteRecorded(migByName: map<string, Migration>, resNames: seq<string>) returns (r: map<string, Migration>)
    ensures forall k :: k in r <==> k in migByName && k !in resNames
    ensures forall k :: k in r ==> r[k] == migByName[k]
  {
    r := migByName;
    for i := 0 to |resNames|
      invariant forall k :: k in r <==> k in migByName && k !in resNames[..i]
      invariant forall k :: k in r ==> r[k] == migByName[k]
    {
      if resNames[i] in r {
        r := r - {resNames[i]};
      }
      assert resNames[..i + 1] == resNames[..i] + [resNames[i]];
    }
    assert resNames[..|resNames|] == resNames;
  }

  /** The filter loop of `FindUnrolled` as written (schema.go:296-300): a name is deleted
      only when it is absent from the map, so nothing is ever deleted. */
  method DeleteIfAbsent(migByName: map<string, Migration>, resNames: seq<string>) returns (r: map<string, Migration>)
    ensures r == migByName
  {
    r := migByName;
    for i := 0 to |resNames|
      invariant r == migByName
    {
      if resNames[i] !in r {
        r := r - {resNames[i]};
      }
    }
  }

  /** The filter `FindUnrolled` is documented to apply: every map entry whose name the
      ledger does not list is deleted. */
  method DeleteUnrecorded(migByName: map<string, Migration>, resNames: seq<string>) returns (r: map<string, Migration>)
    ensures forall k :: k in r <==> k in migByName && k in resNames
    ensures forall k :: k in r ==> r[k] == migByName[k]
  {
    r := migByName;
    var keys := migByName.Keys;
    while keys != {}
      invariant keys <= migByName.Keys
      invariant forall k :: k in r <==> k in migByName && (k in keys || k in resNames)
      invariant forall k :: k in r ==> r[k] == migByName[k]
      decreases keys
    {
      var k :| k in keys;
      if k !in resNames {
        r := r - {k};
      }
      keys := keys - {k};
    }
  }

  /** The `for _, m := range migByName` loop (schema.go:226-228, 302-304): the values in
      whatever order the map yields them. */
  method Values(migByName: map<string, Migration>) returns (res: seq<Migration>)
    requires forall x :: x in migByName ==> migByName[x].Name() == x
    ensures forall m :: m in res <==> m.Name() in migByName && migByName[m.Name()] == m
    ensures Distinct(res)
  {
    res := [];
    var keys := migByName.Keys;
    while keys != {}
      invariant keys <= migByName.Keys
      invariant forall m :: m in res ==> m.Name() in migByName && m.Name() !in keys && migByName[m.Name()] == m
      invariant forall k :: k in migByName && k !in keys ==> migByName[k] in res
      invariant Distinct(res)
      decreases keys
    {
      var k :| k in keys;
      assert migByName[k] !in res;
      res := res + [migByName[k]];
      keys := keys - {k};
    }
  }

  /** `sort.Sort` on the gathered values (schema.go:230, 306): since every value is the map's
      entry for its own name, the sorted list is strictly ordered. */
  method SortValues(res: seq<Migration>, desc: bool, ghost migByName: map<string, Migration>) returns (sorted: seq<Migration>)
    requires forall m :: m in res <==> m.Name() in migByName && migByName[m.Name()] == m
    requires Distinct(res)
    ensures forall m :: m in sorted <==> m in res
    ensures StrictlySorted(desc, sorted)
  {
    var a := new Migration[|res|](j requires 0 <= j < |res| => res[j]);
    assert a[..] == res;
    Sort(a, desc);
    sorted := a[..];
    assert forall m :: m in sorted <==> m in multiset(sorted);
    assert forall m :: m in res <==> m in multiset(res);
    PermutationKeepsDistinct(res, sorted);
    forall i, j | 0 <= i < j < |sorted| ensures sorted[i].Name() != sorted[j].Name() {
      assert sorted[i] in sorted && sorted[j] in sorted;
    }
    SortedDistinctIsStrict(desc, sorted);
  }

  /** The rows of a finder's `SELECT name` (schema.go:206-214, 282-290): every name the
      ledger records, in whatever order the cursor yields them. */
  method LedgerNames(ledger: Ledger) returns (resNames: seq<string>)
    ensures forall x :: x in resNames <==> x in ledger
  {
    resNames := [];
    var pending := ledger.Keys;
    while pending != {}
      invariant pending <= ledger.Keys
      invariant forall x :: x in resNames <==> x in ledger && x !in pending
      decreases pending
    {
      var name :| name in pending;
      resNames := resNames + [name];
      pending := pending - {name};
    }
  }

  /** The end of a finder (schema.go:220-230, 296-306): filter `migByName` by the ledger's
      names, gather the values and sort them. */
  method Reconciled(ms: seq<Migration>, migByName: map<string, Migration>, resNames: seq<string>, desc: bool,
                    filter: Filter, ghost recorded: set<string>) returns (res: seq<Migration>)
    requires DistinctNames(ms)
    requires forall x :: x in migByName <==> x in Names(ms)
    requires forall j :: 0 <= j < |ms| ==> migByName[ms[j].Name()] == ms[j]
    requires forall x :: x in migByName ==> migByName[x].Name() == x
    requires forall x :: x in resNames <==> x in recorded
    ensures StrictlySorted(desc, res)
    ensures forall m :: m in res <==> m in ms && Kept(filter, m.Name(), recorded)
    ensures multiset(res) == multiset(Selection(ms, filter, recorded))
  {
    var kept: map<string, Migration>;
    match filter {
      case DropRecorded => kept := DeleteRecorded(migByName, resNames);
      case DropIfAbsent => kept := DeleteIfAbsent(migByName, resNames);
      case KeepRecorded => kept := DeleteUnrecorded(migByName, resNames);
    }
    assert forall x :: x in kept <==> x in migByName && Kept(filter, x, recorded);
    var values := Values(kept);
    res := SortValues(values, desc, kept);
    forall m | m in ms && Kept(filter, m.Name(), recorded) ensures m in res {
      var j :| 0 <= j < |ms| && ms[j] == m;
    }
    ResultIsPermutation(desc, res, ms, filter, recorded);
  }

  /** The loop of `Apply` (schema.go:65-82) and `Rollback` (schema.go:107-123) inside the
      transaction, on the transaction's staged copy of the ledger: it computes `RunBatch`,
      and the count it returns is 0 after a failure. */
  method RunLoop(dir: Direction, ledger: Ledger, ms: seq<Migration>, exec: seq<MaybeError>, now: Timestamp)
    returns (n: int, failed: MaybeError, staged: Ledger, ghost evs: seq<Event>)
    requires |exec| == |ms|
    ensures failed == RunBatch(dir, ledger, ms, exec, now).failure
    ensures staged == RunBatch(dir, ledger, ms, exec, now).staged
    ensures n == (if failed.NoError? then |ms| else 0)
    ensures evs == RunBatch(dir, ledger, ms, exec, now).events
  {
    staged := ledger;
    n := 0;
    evs := [];
    ghost var full := RunBatch(dir, ledger, ms, exec, now);
    assert ms[0..] == ms && exec[0..] == exec;
    var i := 0;
    while i < |ms|
      invariant 0 <= i <= |ms| && n == i
      invariant var r := RunBatch(dir, staged, ms[i..], exec[i..], now);
        full == Run(i + r.done, r.staged, r.failure, evs + r.events)
    {
      var m := ms[i];
      RunUnfold(dir, staged, ms, exec, now, i);
      var cbErr := if dir == Up then m.Apply() else m.Rollback();
      if cbErr.Failed? {
        return 0, cbErr, staged, evs + [Invoked(dir, m.Name())];
      }
      var execErr := ExecOutcome(dir, staged, m, exec[i]);
      if execErr.Failed? {
        return 0, execErr, staged, evs + [Invoked(dir, m.Name()), Statement(dir, m, now)];
      }
      ghost var head := [Invoked(dir, m.Name()), Statement(dir, m, now)];
      ghost var rest := RunBatch(dir, Update(dir, staged, m, now), ms[i + 1..], exec[i + 1..], now);
      AppendAssoc(evs, head, rest.events);
      evs := evs + head;
      staged := Update(dir, staged, m, now);
      n := n + 1;
      i := i + 1;
    }
    failed := NoError;
    assert ms[i..] == [] && exec[i..] == [];
  }

  class Schema {
    const schemaName: string
    const migTableName: string
    /** The committed rows of the ledger table. */
    var ledger: Ledger
    /** Every request the schema has made of the database and of the callbacks: an
        observation of the model, not state of the source. */
    ghost var log: seq<Event>

    /** `NewSchema` over a database whose ledger currently holds `rows`. */
    constructor (schemaName: string, migTableName: string, rows: Ledger)
      ensures this.schemaName == schemaName && this.migTableName == migTableName
      ensures ledger == rows && log == []
    {
      this.schemaName := schemaName;
      this.migTableName := migTableName;
      ledger := rows;
      log := [];
    }

    /** `Apply` (schema.go:45-83): apply every migration and record it, in one transaction. */
    method Apply(migrations: seq<Migration>, now: Timestamp, tx: TxOutcomes) returns (n: int, err: MaybeError)
      requires |tx.exec| == |migrations|
      modifies this
      ensures tx.begin.Failed? ==> n == 0 && err == tx.begin && ledger == old(ledger) && log == old(log) + [Began]
      ensures tx.begin.NoError? ==>
        var r := RunBatch(Up, old(ledger), migrations, tx.exec, now);
        && log == old(log) + [Began] + r.events + [if r.failure.NoError? then Committed else RolledBack]
        && n == (if r.failure.NoError? then |migrations| else 0)
        && err == (if r.failure.NoError? then tx.commit else Combine(r.failure, tx.rollback))
        && ledger == (if r.failure.NoError? && tx.commit.NoError? then r.staged else old(ledger))
    {
      n, err := InTransaction(Up, migrations, now, tx);
    }

    /** `Rollback` (schema.go:87-124): roll every migration back and delete its row, in one
        transaction. */
    method Rollback(migrations: seq<Migration>, tx: TxOutcomes) returns (n: int, err: MaybeError)
      requires |tx.exec| == |migrations|
      modifies this
      ensures tx.begin.Failed? ==> n == 0 && err == tx.begin && ledger == old(ledger) && log == old(log) + [Began]
      ensures tx.begin.NoError? ==>
        var r := RunBatch(Down, old(ledger), migrations, tx.exec, 0);
        && log == old(log) + [Began] + r.events + [if r.failure.NoError? then Committed else RolledBack]
        && n == (if r.failure.NoError? then |migrations| else 0)
        && err == (if r.failure.NoError? then tx.commit else Combine(r.failure, tx.rollback))
        && ledger == (if r.failure.NoError? && tx.commit.NoError? then r.staged else old(ledger))
    {
      n, err := InTransaction(Down, migrations, 0, tx);
    }

    /** The body shared by `Apply` and `Rollback`: begin, the loop, and the deferred
        commit-or-rollback closure. */
    method InTransaction(dir: Direction, ms: seq<Migration>, now: Timestamp, tx: TxOutcomes) returns (n: int, err: MaybeError)
      requires |tx.exec| == |ms|
      modifies this
      ensures tx.begin.Failed? ==> n == 0 && err == tx.begin && ledger == old(ledger) && log == old(log) + [Began]
      ensures tx.begin.NoError? ==>
        var r := RunBatch(dir, old(ledger), ms, tx.exec, now);
        && log == old(log) + [Began] + r.events + [if r.failure.NoError? then Committed else RolledBack]
        && n == (if r.failure.NoError? then |ms| else 0)
        && err == (if r.failure.NoError? then tx.commit else Combine(r.failure, tx.rollback))
        && ledger == (if r.failure.NoError? && tx.commit.NoError? then r.staged else old(ledger))
    {
      if tx.begin.Failed? {
        log := log + [Began];
        return 0, tx.begin;
      }
      // The transaction's own view of the ledger; it replaces the ledger only on commit.
      var failed, staged;
      ghost var evs;
      n, failed, staged, evs := RunLoop(dir, ledger, ms, tx.exec, now);
      if failed.NoError? {
        log := log + [Began] + evs + [Committed];
        err := tx.commit;
        if tx.commit.NoError? {
          ledger := staged;
        }
      } else {
        log := log + [Began] + evs + [RolledBack];
        err := Combine(failed, tx.rollback);
      }
    }

    /** `FindUnapplied` (schema.go:172-233): the migrations the ledger does not record,
        ascending by name. */
    method FindUnapplied(migrations: seq<Migration>, rows: Cursor) returns (res: seq<Migration>, err: MaybeError)
      modifies this`log
      ensures |migrations| == 0 ==> res == [] && err == NoError && log == old(log)
      ensures |migrations| > 0 && FirstRepeat(migrations).Some? ==>
        res == [] && err == Failed(NameNotUnique(migrations[FirstRepeat(migrations).value].Name())) && log == old(log)
      ensures |migrations| > 0 && FirstRepeat(migrations).None? ==> log == old(log) + [Selected(false)]
      ensures |migrations| > 0 && FirstRepeat(migrations).None? && rows.QueryFailed? ==> res == [] && err == Failed(rows.error)
      ensures |migrations| > 0 && FirstRepeat(migrations).None? && rows.Rows? && rows.iterErr.Failed? ==>
        res == [] && err == Combine(rows.iterErr, rows.closeErr)
      ensures |migrations| > 0 && FirstRepeat(migrations).None? && rows.Rows? && rows.iterErr.NoError? ==>
        && err == rows.closeErr
        && StrictlySorted(false, res)
        && (forall m :: m in res <==> m in migrations && m.Name() !in ledger)
        && multiset(res) == multiset(Selection(migrations, DropRecorded, ledger.Keys))
    {
      res, err := Find(migrations, rows, false, DropRecorded);
    }

    /** `FindUnrolled` (schema.go:248-309) as written: whatever the ledger records, every
        migration, descending by name. */
    method FindUnrolled(migrations: seq<Migration>, rows: Cursor) returns (res: seq<Migration>, err: MaybeError)
      modifies this`log
      ensures |migrations| == 0 ==> res == [] && err == NoError && log == old(log)
      ensures |migrations| > 0 && FirstRepeat(migrations).Some? ==>
        res == [] && err == Failed(NameNotUnique(migrations[FirstRepeat(migrations).value].Name())) && log == old(log)
      ensures |migrations| > 0 && FirstRepeat(migrations).None? ==> log == old(log) + [Selected(true)]
      ensures |migrations| > 0 && FirstRepeat(migrations).None? && rows.QueryFailed? ==> res == [] && err == Failed(rows.error)
      ensures |migrations| > 0 && FirstRepeat(migrations).None? && rows.Rows? && rows.iterErr.Failed? ==>
        res == [] && err == Combine(rows.iterErr, rows.closeErr)
      ensures |migrations| > 0 && FirstRepeat(migrations).None? && rows.Rows? && rows.iterErr.NoError? ==>
        && err == rows.closeErr
        && StrictlySorted(true, res)
        && (forall m :: m in res <==> m in migrations)
        && multiset(res) == multiset(migrations)
    {
      res, err := Find(migrations, rows, true, DropIfAbsent);
      UnrolledAsWrittenKeepsAll(migrations, old(ledger).Keys);
    }

    /** `FindUnrolled` as documented (schema.go:247): the migrations the ledger records,
        descending by name. */
    method FindUnrolledIntended(migrations: seq<Migration>, rows: Cursor) returns (res: seq<Migration>, err: MaybeError)
      modifies this`log
      ensures |migrations| == 0 ==> res == [] && err == NoError && log == old(log)
      ensures |migrations| > 0 && FirstRepeat(migrations).Some? ==>
        res == [] && err == Failed(NameNotUnique(migrations[FirstRepeat(migrations).value].Name())) && log == old(log)
      ensures |migrations| > 0 && FirstRepeat(migrations).None? ==> log == old(log) + [Selected(true)]
      ensures |migrations| > 0 && FirstRepeat(migrations).None? && rows.QueryFailed? ==> res == [] && err == Failed(rows.error)
      ensures |migrations| > 0 && FirstRepeat(migrations).None? && rows.Rows? && rows.iterErr.Failed? ==>
        res == [] && err == Combine(rows.iterErr, rows.closeErr)
      ensures |migrations| > 0 && FirstRepeat(migrations).None? && rows.Rows? && rows.iterErr.NoError? ==>
        && err == rows.closeErr
        && StrictlySorted(true, res)
        && (forall m :: m in res <==> m in migrations && m.Name() in ledger)
        && multiset(res) == multiset(Selection(migrations, KeepRecorded, ledger.Keys))
    {
      res, err := Find(migrations, rows, true, KeepRecorded);
    }

    /** The body shared by the finders: duplicate check, the ledger query with its deferred
        `rows.Close()`, the map filter, and the sort. */
    method Find(ms: seq<Migration>, rows: Cursor, desc: bool, filter: Filter) returns (res: seq<Migration>, err: MaybeError)
      modifies this`log
      ensures |ms| == 0 ==> res == [] && err == NoError && log == old(log)
      ensures |ms| > 0 && FirstRepeat(ms).Some? ==>
        res == [] && err == Failed(NameNotUnique(ms[FirstRepeat(ms).value].Name())) && log == old(log)
      ensures |ms| > 0 && FirstRepeat(ms).None? ==> log == old(log) + [Selected(desc)]
      ensures |ms| > 0 && FirstRepeat(ms).None? && rows.QueryFailed? ==> res == [] && err == Failed(rows.error)
      ensures |ms| > 0 && FirstRepeat(ms).None? && rows.Rows? && rows.iterErr.Failed? ==>
        res == [] && err == Combine(rows.iterErr, rows.closeErr)
      ensures |ms| > 0 && FirstRepeat(ms).None? && rows.Rows? && rows.iterErr.NoError? ==>
        && err == rows.closeErr
        && StrictlySorted(desc, res)
        && (forall m :: m in res <==> m in ms && Kept(filter, m.Name(), ledger.Keys))
        && multiset(res) == multiset(Selection(ms, filter, ledger.Keys))
    {
      if |ms| == 0 {
        return [], NoError;
      }
      var migByName, repeat := IndexByName(ms);
      if repeat.Some? {
        return [], Failed(NameNotUnique(ms[repeat.value].Name()));
      }

      log := log + [Selected(desc)];
      if rows.QueryFailed? {
        return [], Failed(rows.error);
      }
      var resNames := LedgerNames(ledger);
      if rows.iterErr.Failed? {
        return [], Combine(rows.iterErr, rows.closeErr);
      }
      FirstRepeatSpec(ms);
      res := Reconciled(ms, migByName, resNames, desc, filter, ledger.Keys);
      err := Combine(NoError, rows.closeErr);
    }
  }
}
