/** The migration unit (migration.go): a name and its two callbacks.  The callbacks are
    opaque; each is modelled by the outcome it reports when the executor invokes it. */
module Migrations {
  import opened Errors

  /** `Struct`, the simple implementation of the `Migration` interface. */
  datatype Migration = Struct(nameString: string, applyFunc: MaybeError, rollbackFunc: MaybeError)
  {
    function Name(): string { nameString }
    function Apply(): MaybeError { applyFunc }
    function Rollback(): MaybeError { rollbackFunc }
  }

  datatype Option<T> = None | Some(value: T)

  /** `Struct`'s interface methods hand back exactly what it was built with. */
  lemma StructDelegates(name: string, up: MaybeError, down: MaybeError)
    ensures Struct(name, up, down).Name() == name
    ensures Struct(name, up, down).Apply() == up
    ensures Struct(name, up, down).Rollback() == down
  {
  }

  /** `FindByName`: the first migration of the list, in list order, with the given name,
      or `None` (Go's nil) when there is none. */
  function FindByName(migrations: seq<Migration>, name: string): (r: Option<Migration>)
    ensures r.None? <==> forall i :: 0 <= i < |migrations| ==> migrations[i].Name() != name
    ensures r.Some? ==> exists i :: 0 <= i < |migrations| && migrations[i] == r.value && r.value.Name() == name &&
                                    forall j :: 0 <= j < i ==> migrations[j].Name() != name
  {
    if migrations == [] then None
    else if migrations[0].Name() == name then Some(migrations[0])
    else
      var r := FindByName(migrations[1..], name);
      assert forall i :: 1 <= i < |migrations| ==> migrations[i] == migrations[1..][i - 1];
      r
  }
}
