/** The pure facts behind `FindUnapplied` and `FindUnrolled` (schema.go): duplicate
    detection, which migrations each filter keeps, and why the sorted result is a
    permutation of the kept migrations. */
module Reconcile {
  import opened Errors
  import opened Migrations
  import opened Ordering
  import opened Transactions

  /** The names of a prefix one longer. */
  lemma NamesSnoc(ms: seq<Migration>, i: nat)
    requires i < |ms|
    ensures Names(ms[..i + 1]) == Names(ms[..i]) + [ms[i].Name()]
  {
    assert forall j :: 0 <= j < i ==> ms[..i + 1][j] == ms[..i][j];
  }

  /** A prefix keeps distinct names when the next name is new. */
  lemma DistinctNamesSnoc(ms: seq<Migration>, i: nat)
    requires i < |ms| && DistinctNames(ms[..i]) && ms[i].Name() !in Names(ms[..i])
    ensures DistinctNames(ms[..i + 1])
  {
    var t := ms[..i + 1];
    forall p, q | 0 <= p < q < |t| ensures t[p].Name() != t[q].Name() {
      assert t[p] == ms[p] && t[q] == ms[q];
      if q < i { assert ms[..i][p] == ms[p] && ms[..i][q] == ms[q]; }
      else { assert Names(ms[..i])[p] == ms[p].Name(); }
    }
  }

  /** Inside a prefix with distinct names, no name occurs earlier. */
  lemma FreshInPrefix(ms: seq<Migration>, i0: nat, i: nat)
    requires i0 < i <= |ms| && DistinctNames(ms[..i])
    ensures ms[i0].Name() !in Names(ms[..i0])
  {
    forall j | 0 <= j < i0 ensures Names(ms[..i0])[j] != ms[i0].Name() {
      assert ms[..i][j] == ms[j] && ms[..i][i0] == ms[i0];
      assert Names(ms[..i0])[j] == ms[j].Name();
    }
  }

  /** The scan that builds `migByName` (schema.go:179-185, 255-261), from index `i` on with
      the names `seen` so far: the index of the first migration whose name was already seen,
      or `None`. */
  function RepeatFrom(ms: seq<Migration>, i: nat, seen: set<string>): (r: Option<nat>)
    requires i <= |ms|
    ensures r.Some? ==> i <= r.value < |ms|
    decreases |ms| - i
  {
    if i == |ms| then None
    else if ms[i].Name() in seen then Some(i)
    else RepeatFrom(ms, i + 1, seen + {ms[i].Name()})
  }

  /** The index of the first migration, in input order, that repeats an earlier name. */
  function FirstRepeat(ms: seq<Migration>): (r: Option<nat>)
    ensures r.Some? ==> r.value < |ms|
  {
    RepeatFrom(ms, 0, {})
  }

  lemma {:induction false} RepeatFromSpec(ms: seq<Migration>, i: nat, seen: set<string>)
    requires i <= |ms|
    requires forall x :: x in seen <==> x in Names(ms[..i])
    requires DistinctNames(ms[..i])
    ensures RepeatFrom(ms, i, seen).None? ==> DistinctNames(ms)
    ensures RepeatFrom(ms, i, seen).Some? ==>
      var k := RepeatFrom(ms, i, seen).value;
      DistinctNames(ms[..k]) && ms[k].Name() in Names(ms[..k])
    decreases |ms| - i
  {
    if i < |ms| && ms[i].Name() in seen {
    } else if i == |ms| {
      assert ms[..i] == ms;
    } else {
      NamesSnoc(ms, i);
      DistinctNamesSnoc(ms, i);
      RepeatFromSpec(ms, i + 1, seen + {ms[i].Name()});
    }
  }

  /** `FirstRepeat` finds nothing exactly when all names are distinct; otherwise the index
      `k` it finds repeats a name of `ms[..k]`, whose names are still distinct. */
  lemma FirstRepeatSpec(ms: seq<Migration>)
    ensures FirstRepeat(ms).None? <==> DistinctNames(ms)
    ensures FirstRepeat(ms).Some? ==>
      var k := FirstRepeat(ms).value;
      DistinctNames(ms[..k]) && ms[k].Name() in Names(ms[..k])
  {
    assert Names(ms[..0]) == [];
    RepeatFromSpec(ms, 0, {});
    if FirstRepeat(ms).Some? {
      var k := FirstRepeat(ms).value;
      var j :| 0 <= j < k && Names(ms[..k])[j] == ms[k].Name();
      assert ms[j].Name() == ms[k].Name();
    }
  }

  lemma {:induction false} RepeatFromAt(ms: seq<Migration>, i0: nat, seen: set<string>, i: nat)
    requires i0 <= i < |ms|
    requires forall x :: x in seen <==> x in Names(ms[..i0])
    requires DistinctNames(ms[..i]) && ms[i].Name() in Names(ms[..i])
    ensures RepeatFrom(ms, i0, seen) == Some(i)
    decreases i - i0
  {
    if i0 < i {
      NamesSnoc(ms, i0);
      FreshInPrefix(ms, i0, i);
      RepeatFromAt(ms, i0 + 1, seen + {ms[i0].Name()}, i);
    } else {
      assert ms[..i0] == ms[..i];
    }
  }

  /** The first repeat is where the names stop being distinct. */
  lemma FirstRepeatAt(ms: seq<Migration>, i: nat)
    requires i < |ms| && DistinctNames(ms[..i]) && ms[i].Name() in Names(ms[..i])
    ensures FirstRepeat(ms) == Some(i)
  {
    assert Names(ms[..0]) == [];
    RepeatFromAt(ms, 0, {}, i);
  }

  /** The map filter of a finder: `DropRecorded` is `FindUnapplied`'s (schema.go:220-224),
      `DropIfAbsent` is `FindUnrolled`'s as written (schema.go:296-300), `KeepRecorded` is
      what `FindUnrolled` is documented to do. */
  datatype Filter = DropRecorded | DropIfAbsent | KeepRecorded

  predicate Kept(f: Filter, name: string, recorded: set<string>)
  {
    match f
    case DropRecorded => name !in recorded
    case DropIfAbsent => true
    case KeepRecorded => name in recorded
  }

  /** The kept migrations in input order, the reference against which a finder's sorted
      result is a permutation. */
  function Selection(ms: seq<Migration>, f: Filter, recorded: set<string>): (r: seq<Migration>)
    ensures forall m :: m in r <==> m in ms && Kept(f, m.Name(), recorded)
    ensures Distinct(ms) ==> Distinct(r)
  {
    if ms == [] then []
    else
      var rest := Selection(ms[1..], f, recorded);
      assert forall m :: m in ms <==> m == ms[0] || m in ms[1..];
      DistinctTail(ms);
      if Kept(f, ms[0].Name(), recorded) then [ms[0]] + rest else rest
  }

  /** `FindUnrolled` as written keeps everything, whatever the ledger records.  That the `!ok`
      guard deletes nothing from the map is proved by `Store.DeleteIfAbsent`; this lemma
      carries the fact over to the selection in input order. */
  lemma {:induction false} UnrolledAsWrittenKeepsAll(ms: seq<Migration>, recorded: set<string>)
    ensures Selection(ms, DropIfAbsent, recorded) == ms
    decreases |ms|
  {
    if ms != [] {
      UnrolledAsWrittenKeepsAll(ms[1..], recorded);
      assert [ms[0]] + ms[1..] == ms;
    }
  }

  /** When the ledger records none of the names, `FindUnapplied`'s filter keeps the whole list. */
  lemma {:induction false} UnappliedKeepsFresh(ms: seq<Migration>, recorded: set<string>)
    requires forall i :: 0 <= i < |ms| ==> ms[i].Name() !in recorded
    ensures Selection(ms, DropRecorded, recorded) == ms
    decreases |ms|
  {
    if ms != [] {
      assert forall i :: 0 <= i < |ms[1..]| ==> ms[1..][i] == ms[i + 1];
      UnappliedKeepsFresh(ms[1..], recorded);
      assert [ms[0]] + ms[1..] == ms;
    }
  }

  /** Applying a list and rolling it back, both successfully, restores the ledger, and
      `FindUnapplied`'s filter then keeps the whole list again. */
  lemma ApplyRollbackFindsAllUnapplied(ledger: Ledger, ms: seq<Migration>, up: seq<MaybeError>, down: seq<MaybeError>, now: Timestamp, later: Timestamp)
    requires |up| == |ms| && |down| == |ms|
    requires RunBatch(Up, ledger, ms, up, now).failure.NoError?
    requires RunBatch(Down, RunBatch(Up, ledger, ms, up, now).staged, ms, down, later).failure.NoError?
    ensures var restored := RunBatch(Down, RunBatch(Up, ledger, ms, up, now).staged, ms, down, later).staged;
      restored == ledger && Selection(ms, DropRecorded, restored.Keys) == ms
  {
    ApplyRollbackRoundTrip(ledger, ms, up, down, now, later);
    RunAppliedFresh(ledger, ms, up, now);
    UnappliedKeepsFresh(ms, ledger.Keys);
  }

  /** A ledger recording only `a`, and the list `[a, b]`: as written, `FindUnrolled` still
      returns `b`, which was never applied; the documented filter returns `a` alone. */
  lemma UnrolledAsWrittenReturnsUnapplied()
    ensures var a := Struct("a", NoError, NoError);
      var b := Struct("b", NoError, NoError);
      && b in Selection([a, b], DropIfAbsent, {"a"})
      && "b" !in {"a"}
      && Selection([a, b], KeepRecorded, {"a"}) == [a]
  {
    var a := Struct("a", NoError, NoError);
    var b := Struct("b", NoError, NoError);
    assert "b"[0] != "a"[0];
    assert [a, b][1..] == [b];
    assert [b][1..] == [];
    assert Selection([b], KeepRecorded, {"a"}) == [];
  }

  /** No element occurs twice. */
  ghost predicate Distinct(s: seq<Migration>)
  {
    forall i, j :: 0 <= i < j < |s| ==> s[i] != s[j]
  }

  lemma DistinctNamesDistinct(s: seq<Migration>)
    requires DistinctNames(s)
    ensures Distinct(s)
  {
  }

  lemma DistinctTail(s: seq<Migration>)
    requires s != []
    ensures Distinct(s) ==> Distinct(s[1..]) && s[0] !in s[1..]
  {
    if Distinct(s) {
      forall i, j | 0 <= i < j < |s| - 1 ensures s[1..][i] != s[1..][j] {
        assert s[1..][i] == s[i + 1] && s[1..][j] == s[j + 1];
      }
      forall i | 0 <= i < |s| - 1 ensures s[1..][i] != s[0] { assert s[1..][i] == s[i + 1]; }
    }
  }

  lemma {:induction false} DistinctCount(s: seq<Migration>, x: Migration)
    requires Distinct(s)
    ensures multiset(s)[x] == if x in s then 1 else 0
    decreases |s|
  {
    if s != [] {
      assert s == [s[0]] + s[1..];
      DistinctTail(s);
      DistinctCount(s[1..], x);
    }
  }

  lemma DuplicateCount(s: seq<Migration>, i: nat, j: nat)
    requires i < j < |s| && s[i] == s[j]
    ensures multiset(s)[s[i]] >= 2
  {
    assert s == s[..j] + [s[j]] + s[j + 1..];
    assert s[..j][i] == s[i];
    assert multiset(s) == multiset(s[..j]) + multiset{s[j]} + multiset(s[j + 1..]);
  }

  /** A permutation of a list without repeats has no repeats either. */
  lemma PermutationKeepsDistinct(s: seq<Migration>, t: seq<Migration>)
    requires Distinct(s) && multiset(s) == multiset(t)
    ensures Distinct(t)
  {
    forall i, j | 0 <= i < j < |t| ensures t[i] != t[j] {
      if t[i] == t[j] {
        DuplicateCount(t, i, j);
        DistinctCount(s, t[i]);
      }
    }
  }

  /** Two lists without repeats holding the same elements are permutations of each other. */
  lemma SameElementsPermutation(s: seq<Migration>, t: seq<Migration>)
    requires Distinct(s) && Distinct(t)
    requires forall m :: m in s <==> m in t
    ensures multiset(s) == multiset(t)
  {
    forall x ensures multiset(s)[x] == multiset(t)[x] {
      DistinctCount(s, x);
      DistinctCount(t, x);
    }
  }

  /** A finder's result, strictly sorted and holding exactly the kept migrations, is a
      permutation of the kept migrations in input order. */
  lemma ResultIsPermutation(desc: bool, res: seq<Migration>, ms: seq<Migration>, f: Filter, recorded: set<string>)
    requires DistinctNames(ms) && StrictlySorted(desc, res)
    requires forall m :: m in res <==> m in ms && Kept(f, m.Name(), recorded)
    ensures multiset(res) == multiset(Selection(ms, f, recorded))
  {
    DistinctNamesDistinct(ms);
    assert Distinct(res) by {
      forall i, j | 0 <= i < j < |res| ensures res[i] != res[j] {
        BeforeStrictOrder(desc, res[i], res[j], res[j]);
      }
    }
    SameElementsPermutation(res, Selection(ms, f, recorded));
  }
}
