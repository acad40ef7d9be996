# Restream/migration — a Dafny model of the schema ledger and its batch executor

The Go package `migration` keeps a *ledger table*, one row `(name, applied_at)` per applied
migration. It offers the following operations:

- **Reconciliation**. `FindUnapplied` and `FindUnrolled` compare a declared list of
  migrations with the ledger. `FindOne` and `FindByName` look a migration up by name.
- **Batch execution**. `Apply` and `Rollback` run every migration's callback and insert or
  delete its ledger row, all inside one database transaction. A deferred closure commits
  the transaction, or rolls it back and pairs a rollback failure with the original error
  (`ErrorPair`).

The model keeps the package's structure:

| module | file | models |
|---|---|---|
| `Errors` | `errors.dfy` | `ErrorPair`, `ErrNameNotUnique`, `ErrMigrationNotFound`, Go's nil/non-nil `error`, and the deferred pairing of cleanup errors |
| `Migrations` | `migration.dfy` | the `Struct` migration and `FindByName` |
| `Ordering` | `ordering.dfy` | Go's `<` on strings, the `migrationsByName` / `migrationsByNameDesc` orders, and `sort.Sort` as an in-place sort of an array |
| `Transactions` | `transactions.dfy` | the loop of `Apply` / `Rollback` as a specification function `RunBatch`, with its lemmas |
| `Reconcile` | `reconcile.dfy` | duplicate detection, the finders' map filters, and the permutation argument |
| `Store` | `schema.dfy` | the `Schema` class: the ledger as a field, and the imperative bodies of `Apply`, `Rollback`, `FindUnapplied`, `FindUnrolled` and `FindOne` |

The database itself is abstract:

- The ledger rows are the field `Schema.ledger: map<string, Timestamp>`.
- The database's success or failure answers are passed in by the caller:
  - `TxOutcomes` holds the answers to `Begin`, to each statement, to `Commit` and to `Rollback`.
  - `Cursor` holds only the errors of a finder's query, of its iteration (`Scan` or
    `rows.Err()`) and of `rows.Close()`.
- The rows a finder's `SELECT` yields are not passed in. They are the names in the
  `ledger` field (`Store.LedgerNames`).
- A migration callback is modelled by the outcome it reports.
- `time.Now()` becomes the parameter `now`.
- One answer is computed, not passed in. An INSERT of a name that is already recorded
  fails with `UniqueViolation` whatever the caller supplied. This is the table's
  `name TEXT UNIQUE` column (schema.go:137).
- The ghost field `Schema.log` records, in order:
  - `Begin`, each callback invocation, each INSERT or DELETE, and the commit or rollback;
  - each finder's `SELECT`.

  It does not record cursor iteration (`rows.Next`, `Scan`, `rows.Err()`) or
  `rows.Close()`. It makes two things observable: "each callback is invoked once, in
  order" and "an empty list never queries the ledger".

Places where the code disagrees with its own documentation, or with itself:

- **`FindUnrolled` (the main one).** Its doc comment (schema.go:247) says it "finds
  migrations that were not rolled back", that is, the migrations the ledger records. The
  code's filter (schema.go:296-300) deletes nothing, so it returns every migration. The model follows the code (`Store.Schema.FindUnrolled`) and
  states the documented behaviour separately (`Store.Schema.FindUnrolledIntended`). See
  "## Findings".
- **Callback arity.** `Migration.Apply` and `Migration.Rollback` take `(tx, isDry)`
  (migration.go:9-10), while schema.go:69 and schema.go:110 call them with one argument.
  Callbacks are opaque outcomes here, and `isDry` plays no part.
- **Commit failure.** When `Commit` fails, the code still returns the full count
  (schema.go:53, schema.go:82). The model keeps that count and leaves the ledger as it was
  before the batch: the transaction is treated as not durable.

## Model

| member | source | states |
|---|---|---|
| Errors.Combine | schema.go:51-62 | the deferred cleanup: a successful cleanup returns the original error unchanged; a failing cleanup with no earlier error is returned exactly; a failing cleanup after an error gives exactly `ErrorPair{Err1: original, Err2: cleanup}`; the result is nil exactly when both are nil, and no cause of either error is lost |
| Migrations.StructDelegates | migration.go:23-35 | `Name`, `Apply` and `Rollback` of a `Struct` return exactly its `NameString` and the outcomes of its `ApplyFunc` and `RollbackFunc` |
| Migrations.FindByName | migration.go:40-47 | nil exactly when no element has the name; otherwise an element with the name, the earliest in list order |
| Ordering.LessIrreflexive | schema.go:238 | no string is less than itself under Go's `<` |
| Ordering.LessTransitive | schema.go:238 | Go's `<` on strings is transitive |
| Ordering.LessTotal | schema.go:238 | of two different strings, one is less than the other |
| Ordering.BeforeStrictOrder | schema.go:235-245 | `migrationsByName.Less` and `migrationsByNameDesc.Less` are strict orders (irreflexive, asymmetric, transitive) and total on differently named migrations |
| Ordering.NotBeforeTransitive | schema.go:235-245 | "not after" is transitive, which is what the sort relies on |
| Ordering.SortedDistinctIsStrict | schema.go:230 | a sorted list with distinct names is strictly sorted |
| Ordering.StrictlySortedUnique | schema.go:226-230 | two strictly sorted lists with the same elements are equal, so the map's iteration order cannot change a finder's result |
| Ordering.Sort | schema.go:230 | `sort.Sort`: the array ends up sorted in the chosen order and is a permutation of its old contents |
| Ordering.InsertLast | schema.go:230 | one pass of the sort: after it the first i+1 elements are in order, and the array is a permutation of its old contents |
| Ordering.Swap | schema.go:239 | `Swap(i, j)`: exchanges the two elements, changes no other element, and keeps the multiset of elements |
| Transactions.RunBatch | schema.go:68-80 | the loop completes exactly when no step fails, and never reports more units than it was given |
| Transactions.RunInvokesInOrder | schema.go:68-72 | the callbacks invoked are those of the units in input order, each once; after the first failure at unit k, none after k |
| Transactions.RunStopsAtFirstFailure | schema.go:68-77 | the returned error is that of the first failing step, whose predecessors all succeeded |
| Transactions.RunFailsAtDone | schema.go:68-77 | a failed batch reports the error of step `done`, the callback's error first and the statement's second |
| Transactions.RunPrefixSucceeds | schema.go:68-80 | the units before the stopping point all succeed: the batch of that prefix alone completes and stages the same ledger |
| Transactions.Stamped | schema.go:65-74 | the rows of one `Apply`: exactly the names of the batch, each with the one timestamp `now` |
| Transactions.RunApplied | schema.go:65-80 | a successful apply batch adds exactly the batch's names, each with `applied_at == now`, and keeps every earlier row |
| Transactions.RunAppliedFresh | schema.go:74-77 | a successful apply batch had distinct names, none recorded before (otherwise the `UNIQUE` column stops it) |
| Transactions.RunRolledBack | schema.go:107-121 | a successful rollback batch removes exactly the batch's names and nothing else |
| Transactions.ApplyRollbackRoundTrip | schema.go:45-124 | applying a list and then rolling it back, both successfully, restores the original ledger |
| Reconcile.FirstRepeat | schema.go:179-185 | the index found, if any, lies inside the list |
| Reconcile.FirstRepeatSpec | schema.go:179-185 | no repeat is found exactly when all names are distinct; a found index k repeats an earlier name, and the names before k are distinct |
| Reconcile.FirstRepeatAt | schema.go:181-182 | the first index whose name occurs earlier is the one reported |
| Reconcile.Selection | schema.go:220-228 | the migrations a filter keeps, in input order: exactly the input migrations it keeps, with no repeats if the input has none |
| Reconcile.UnrolledAsWrittenKeepsAll | schema.go:296-300 | the as-written filter's selection is the whole list whatever the ledger holds; that the `!ok` guard deletes nothing is proved by Store.DeleteIfAbsent, and this lemma carries it over to the selection |
| Reconcile.UnappliedKeepsFresh | schema.go:220-224 | when the ledger records none of the names, `FindUnapplied`'s filter keeps the whole list |
| Reconcile.ApplyRollbackFindsAllUnapplied | schema.go:45-124 | the round trip's second half: after a successful apply and a successful rollback the ledger is the original one, and `FindUnapplied`'s filter then keeps the whole list |
| Reconcile.UnrolledAsWrittenReturnsUnapplied | schema.go:296-300 | concrete case: with ledger `{a}` and list `[a, b]`, the filter as written keeps `b`, which the ledger does not record; the documented filter keeps only `a` |
| Reconcile.ResultIsPermutation | schema.go:226-230 | a strictly sorted result that holds exactly the kept migrations is a permutation of them |
| Store.FindOne | schema.go:162-169 | the first migration with the name, as a one-element list; otherwise an empty list and `ErrMigrationNotFound` exactly when no migration has the name |
| Store.IndexByName | schema.go:177-185 | builds `migByName` and stops at the first repeated name; without a repeat, the map holds every migration under its own name and nothing else |
| Store.DeleteRecorded | schema.go:220-224 | deletes exactly the names the query returned; every other entry is kept unchanged |
| Store.DeleteIfAbsent | schema.go:296-300 | the `!ok` guard lets through only names that are absent from the map, so the map comes back unchanged |
| Store.DeleteUnrecorded | schema.go:247 | the documented filter of `FindUnrolled`: keeps exactly the entries whose names the query returned |
| Store.Values | schema.go:226-228 | the map's values without repeats, in any order |
| Store.SortValues | schema.go:230 | the gathered values, sorted strictly by name, with the same elements |
| Store.LedgerNames | schema.go:206-214 | the cursor's rows: exactly the names the ledger records |
| Store.Reconciled | schema.go:220-230 | filter, gather and sort: the result is strictly sorted, holds exactly the input migrations the filter keeps, and is a permutation of them |
| Store.RunLoop | schema.go:68-80 | the loop on the staged ledger computes `RunBatch`: the same error, staged ledger and events; the count is `len(migrations)` on success and 0 after a failure |
| Store.Schema.constructor | schema.go:25-31 | `NewSchema` keeps the schema and table names; the ledger is the database's current rows |
| Store.Schema.Apply | schema.go:45-83 | see Store.Schema.InTransaction, going up with one timestamp `now` |
| Store.Schema.Rollback | schema.go:87-124 | see Store.Schema.InTransaction, going down |
| Store.Schema.InTransaction | schema.go:45-83 | a failed `Begin` gives `(0, err)` and no change; otherwise the loop equals `RunBatch`; on success the count is `len(migrations)`, the error is the commit's, and the ledger becomes the staged one only if the commit succeeds; on failure the count is 0, the error is the original or `ErrorPair{original, rollbackErr}`, and the ledger is unchanged |
| Store.Schema.FindUnapplied | schema.go:172-233 | an empty list gives nothing and no query; a repeated name gives `ErrNameNotUnique` for the first repeat and nothing; a query error gives nothing and that error; an iteration error gives nothing and that error, paired with the close error if closing fails; otherwise the result is exactly the input migrations the ledger does not record, strictly ascending, a permutation of them, with the close error as the error |
| Store.Schema.FindUnrolled | schema.go:248-309 | as written: the same error cases as `FindUnapplied`; otherwise every input migration, strictly descending, a permutation of the input, whatever the ledger holds |
| Store.Schema.FindUnrolledIntended | schema.go:247 | the documented behaviour: exactly the input migrations the ledger records, strictly descending, a permutation of them |
| Store.Schema.Find | schema.go:172-233 | the shared body of the finders, with the filter as a parameter; states all of the above for any filter |

## Left out

- `Init` (schema.go:127-143) is left out. It only issues two `CREATE ... IF NOT EXISTS`
  statements, whose behaviour lives in the database.
- SQL text and quoting are not modelled (schema.go:66-67, 107-108, 187-188, 263-264).
  Statements appear only as the events `Inserted`, `Deleted` and `Selected`.
- Real `*sql.DB`, `*sql.Tx` and `*sql.Rows` handles are not modelled. The database's answers
  are parameters (`TxOutcomes`, `Cursor`). Driver errors are the opaque `Driver(code)`.
- `time.Now()` is not modelled. It is the parameter `now`, read once per `Apply`.
- The bodies of the user's callbacks and the `isDry` flag are not modelled. A callback is the
  outcome it reports; its schema changes are not part of the ledger.
- The `Error()` strings of `ErrorPair` and `ErrNameNotUnique` are not modelled
  (schema.go:39-41, 151-153). Errors are values that carry their fields.
- Implementations of the `Migration` interface other than `Struct` are not modelled, and
  neither is a nil `Migration` in the list. The check `migByName[m.Name()] != nil` is
  modelled as "the name is already a key".
- The `ORDER BY` of the finders' queries is not modelled. The cursor yields the ledger's
  names in any order. The finders' results do not depend on that order.
- A failing `Scan` and a failing `rows.Err()` are one case, `Cursor.iterErr`. Both return
  nothing and the error.
- Migration names are sequences of Unicode scalar values (`seq<char>`), not Go's arbitrary
  byte strings. Comparing characters agrees with Go's byte order only for valid UTF-8, so
  names that are not valid UTF-8 are not modelled.
- Concurrent access to the ledger is not modelled. The code takes no locks and assumes it
  has the database to itself.
- Store.Schema.Apply, Store.Schema.Rollback, Store.Schema.InTransaction: these require the
  caller's list of statement answers to be as long as the batch. This is a property of the
  modelled database, not a demand the Go code makes.
- Store.Schema.InTransaction: when `Commit` fails, the Go code leaves durability open. The
  model chooses "nothing was committed".

## Findings

| source | as written | input that shows it | evidently intended | confidence | as-written member | corrected member |
|---|---|---|---|---|---|---|
| schema.go:296-300 | `if _, ok := migByName[name]; !ok { delete(migByName, name) }` deletes only names that are not in the map, so nothing is deleted and `FindUnrolled` returns every migration | ledger records only `a`, migrations `[a, b]`: the result is `[b, a]`, although `b` was never applied | keep only the migrations the ledger records (schema.go:247, "finds migrations that were not rolled back"), giving `[a]` | not executed | Store.Schema.FindUnrolled | Store.Schema.FindUnrolledIntended |
