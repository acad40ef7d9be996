/** The orderings `migrationsByName` and `migrationsByNameDesc` of schema.go, and the
    in-place sort that `sort.Sort` performs with them. */
module Ordering {
  import opened Migrations

  /** Go's `<` on strings: lexicographic, character by character.  Go compares the UTF-8
      bytes; for valid UTF-8, which preserves the order of code points, comparing characters
      agrees.  Names that are not valid UTF-8 cannot be written as a `string` here. */
  predicate Less(a: string, b: string)
    decreases |a|
  {
    if |a| == 0 then |b| > 0
    else if |b| == 0 then false
    else if a[0] != b[0] then a[0] < b[0]
    else Less(a[1..], b[1..])
  }

  lemma {:induction false} LessIrreflexive(a: string)
    ensures !Less(a, a)
    decreases |a|
  {
    if |a| > 0 { LessIrreflexive(a[1..]); }
  }

  lemma {:induction false} LessTransitive(a: string, b: string, c: string)
    requires Less(a, b) && Less(b, c)
    ensures Less(a, c)
    decreases |a|
  {
    if |a| > 0 && |b| > 0 && |c| > 0 && a[0] == b[0] == c[0] {
      LessTransitive(a[1..], b[1..], c[1..]);
    }
  }

  lemma {:induction false} LessTotal(a: string, b: string)
    requires a != b
    ensures Less(a, b) || Less(b, a)
    decreases |a|
  {
    if |a| > 0 && |b| > 0 && a[0] == b[0] {
      assert a[1..] != b[1..] by {
        assert a == [a[0]] + a[1..] && b == [b[0]] + b[1..];
      }
      LessTotal(a[1..], b[1..]);
    }
  }

  /** `Less(i, j)` of `migrationsByName` (`desc == false`) and of `migrationsByNameDesc`
      (`desc == true`), stated on the two migrations themselves. */
  predicate Before(desc: bool, x: Migration, y: Migration)
  {
    if desc then Less(y.Name(), x.Name()) else Less(x.Name(), y.Name())
  }

  /** Both comparators are strict total orders on names. */
  lemma BeforeStrictOrder(desc: bool, x: Migration, y: Migration, z: Migration)
    ensures !Before(desc, x, x)
    ensures Before(desc, x, y) && Before(desc, y, z) ==> Before(desc, x, z)
    ensures x.Name() != y.Name() ==> Before(desc, x, y) || Before(desc, y, x)
    ensures Before(desc, x, y) ==> !Before(desc, y, x)
  {
    LessIrreflexive(x.Name());
    if Before(desc, x, y) && Before(desc, y, z) {
      if desc { LessTransitive(z.Name(), y.Name(), x.Name()); }
      else { LessTransitive(x.Name(), y.Name(), z.Name()); }
    }
    if x.Name() != y.Name() { LessTotal(x.Name(), y.Name()); }
    if Before(desc, x, y) && Before(desc, y, x) {
      if desc { LessTransitive(x.Name(), y.Name(), x.Name()); }
      else { LessTransitive(x.Name(), y.Name(), x.Name()); }
    }
  }

  /** "Not after" is transitive: the fact an insertion sort needs to close its inner loop. */
  lemma NotBeforeTransitive(desc: bool, x: Migration, y: Migration, z: Migration)
    requires !Before(desc, y, x) && !Before(desc, z, y)
    ensures !Before(desc, z, x)
  {
    BeforeStrictOrder(desc, x, y, y);
    BeforeStrictOrder(desc, z, x, y);
  }

  /** What `sort.Sort` promises: no element is `Less` than one before it. */
  ghost predicate Sorted(desc: bool, s: seq<Migration>)
  {
    forall i, j :: 0 <= i < j < |s| ==> !Before(desc, s[j], s[i])
  }

  /** Strictly in the order of the comparator: ascending (or descending) by name with no
      name twice. */
  ghost predicate StrictlySorted(desc: bool, s: seq<Migration>)
  {
    forall i, j :: 0 <= i < j < |s| ==> Before(desc, s[i], s[j])
  }

  ghost predicate DistinctNames(s: seq<Migration>)
  {
    forall i, j :: 0 <= i < j < |s| ==> s[i].Name() != s[j].Name()
  }

  /** A sorted list whose names are pairwise distinct is strictly sorted. */
  lemma SortedDistinctIsStrict(desc: bool, s: seq<Migration>)
    requires Sorted(desc, s) && DistinctNames(s)
    ensures StrictlySorted(desc, s)
  {
    forall i, j | 0 <= i < j < |s| ensures Before(desc, s[i], s[j]) {
      BeforeStrictOrder(desc, s[i], s[j], s[j]);
    }
  }

  /** Of two strictly sorted lists with the same elements, the first elements agree: each is
      the least of the common elements. */
  lemma SameFirst(desc: bool, s: seq<Migration>, t: seq<Migration>)
    requires StrictlySorted(desc, s) && StrictlySorted(desc, t) && s != [] && t != []
    requires forall m :: m in s <==> m in t
    ensures s[0] == t[0]
  {
    assert s[0] in s && t[0] in t;
    var i :| 0 <= i < |t| && t[i] == s[0];
    var j :| 0 <= j < |s| && s[j] == t[0];
    assert i == 0 || Before(desc, t[0], t[i]);
    assert j == 0 || Before(desc, s[0], s[j]);
    BeforeStrictOrder(desc, s[0], t[0], s[0]);
  }

  /** A later element of a strictly sorted list lies in its tail. */
  lemma InTail(desc: bool, s: seq<Migration>, m: Migration)
    requires StrictlySorted(desc, s) && s != [] && m in s && m != s[0]
    ensures m in s[1..]
  {
    var l :| 0 <= l < |s| && s[l] == m;
    assert s[1..][l - 1] == m;
  }

  /** ... so their tails hold the same elements as well. */
  lemma SameTails(desc: bool, s: seq<Migration>, t: seq<Migration>)
    requires StrictlySorted(desc, s) && StrictlySorted(desc, t) && s != [] && t != [] && s[0] == t[0]
    requires forall m :: m in s <==> m in t
    ensures forall m :: m in s[1..] <==> m in t[1..]
  {
    forall m ensures m in s[1..] <==> m in t[1..] {
      BeforeStrictOrder(desc, m, m, m);
      if m in s[1..] {
        var k :| 1 <= k < |s| && s[k] == m;
        assert Before(desc, s[0], m);
        InTail(desc, t, m);
      }
      if m in t[1..] {
        var k :| 1 <= k < |t| && t[k] == m;
        assert Before(desc, t[0], m);
        InTail(desc, s, m);
      }
    }
  }

  /** Two strictly sorted lists holding the same migrations are the same list: the order in
      which the elements were gathered cannot be observed after the sort. */
  lemma {:induction false} StrictlySortedUnique(desc: bool, s: seq<Migration>, t: seq<Migration>)
    requires StrictlySorted(desc, s) && StrictlySorted(desc, t)
    requires forall m :: m in s <==> m in t
    ensures s == t
    decreases |s|
  {
    if s != [] { assert s[0] in s; }
    if t != [] { assert t[0] in t; }
    if s != [] && t != [] {
      SameFirst(desc, s, t);
      SameTails(desc, s, t);
      StrictlySortedUnique(desc, s[1..], t[1..]);
      assert s == [s[0]] + s[1..] && t == [t[0]] + t[1..];
    }
  }

  /** `sort.Sort(migrationsByName(a))` or `sort.Sort(migrationsByNameDesc(a))`: an
      in-place insertion sort with the comparator's `Less` and `Swap`. */
  method Sort(a: array<Migration>, desc: bool)
    modifies a
    ensures Sorted(desc, a[..])
    ensures multiset(a[..]) == old(multiset(a[..]))
  {
    var i := 0;
    while i < a.Length
      invariant 0 <= i <= a.Length
      invariant forall p, q :: 0 <= p < q < i ==> !Before(desc, a[q], a[p])
      invariant multiset(a[..]) == old(multiset(a[..]))
    {
      InsertLast(a, desc, i);
      i := i + 1;
    }
  }

  /** One pass of the insertion sort: `a[i]` is swapped down into the sorted `a[..i]`. */
  method InsertLast(a: array<Migration>, desc: bool, i: int)
    requires 0 <= i < a.Length
    requires forall p, q :: 0 <= p < q < i ==> !Before(desc, a[q], a[p])
    modifies a
    ensures forall p, q :: 0 <= p < q <= i ==> !Before(desc, a[q], a[p])
    ensures multiset(a[..]) == old(multiset(a[..]))
  {
    var j := i;
    while j > 0 && Before(desc, a[j], a[j - 1])
      invariant 0 <= j <= i
      invariant forall p, q :: 0 <= p < q <= i && p != j && q != j ==> !Before(desc, a[q], a[p])
      invariant forall q :: j < q <= i ==> !Before(desc, a[q], a[j])
      invariant multiset(a[..]) == old(multiset(a[..]))
    {
      BeforeStrictOrder(desc, a[j], a[j - 1], a[j]);
      Swap(a, j - 1, j);
      j := j - 1;
    }
    forall p, q | 0 <= p < q <= i ensures !Before(desc, a[q], a[p]) {
      if q == j && p < j - 1 {
        NotBeforeTransitive(desc, a[p], a[j - 1], a[j]);
      }
    }
  }

  /** `Swap(i, j)` of both comparators. */
  method Swap(a: array<Migration>, i: int, j: int)
    requires 0 <= i < a.Length && 0 <= j < a.Length
    modifies a
    ensures a[i] == old(a[j]) && a[j] == old(a[i])
    ensures forall k :: 0 <= k < a.Length && k != i && k != j ==> a[k] == old(a[k])
    ensures multiset(a[..]) == old(multiset(a[..]))
  {
    a[i], a[j] := a[j], a[i];
  }
}
