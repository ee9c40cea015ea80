/**
 * Ordered collections keyed by an id, as `Wallet` keeps its transactions
 * and `Data` its wallets in a `Vec`: find the first match, replace the
 * first match or append, and remove every match.
 */
module IdLists {
  import opened Wrappers

  /** `iter().position(|x| x.id == id)`: the first index holding `id`. */
  function FirstIndex<T>(s: seq<T>, id: nat, idOf: T -> nat): (r: Option<nat>)
    ensures r.Some? ==> r.value < |s| && idOf(s[r.value]) == id
    ensures r.Some? ==> forall j :: 0 <= j < r.value ==> idOf(s[j]) != id
    ensures r.None? ==> forall j :: 0 <= j < |s| ==> idOf(s[j]) != id
  {
    if s == [] then None
    else if idOf(s[0]) == id then Some(0)
    else
      match FirstIndex(s[1..], id, idOf)
      case None => None
      case Some(i) => Some(i + 1)
  }

  /** `iter().find(|x| x.id == id)`: the first element holding `id`. */
  function Find<T>(s: seq<T>, id: nat, idOf: T -> nat): Option<T> {
    match FirstIndex(s, id, idOf)
    case None => None
    case Some(i) => Some(s[i])
  }

  /** Replace the first element with `x`'s id by `x`, or append `x` when there is none. */
  function Upserted<T>(s: seq<T>, x: T, idOf: T -> nat): seq<T> {
    match FirstIndex(s, idOf(x), idOf)
    case Some(i) => s[i := x]
    case None => s + [x]
  }

  /** `retain(|x| x.id != id)`: every element without `id`, in their order. */
  function Removed<T>(s: seq<T>, id: nat, idOf: T -> nat): (r: seq<T>)
    ensures |r| <= |s|
    ensures forall j :: 0 <= j < |r| ==> idOf(r[j]) != id
  {
    if s == [] then []
    else (if idOf(s[0]) == id then [] else [s[0]]) + Removed(s[1..], id, idOf)
  }

  // ---------------------------------------------------------------------
  // The in-place operations
  // ---------------------------------------------------------------------

  /** The `position` loop. */
  method Position<T>(s: seq<T>, id: nat, idOf: T -> nat) returns (r: Option<nat>)
    ensures r == FirstIndex(s, id, idOf)
  {
    var i := 0;
    while i < |s|
      invariant 0 <= i <= |s|
      invariant forall j :: 0 <= j < i ==> idOf(s[j]) != id
    {
      if idOf(s[i]) == id {
        FirstIndexIsFirst(s, id, idOf, i);
        return Some(i);
      }
      i := i + 1;
    }
    FirstIndexNone(s, id, idOf);
    return None;
  }

  /** `if let Some(index) = position(..) { v[index] = x } else { v.push(x) }` */
  method AddOrUpdate<T>(s: seq<T>, x: T, idOf: T -> nat) returns (r: seq<T>)
    ensures r == Upserted(s, x, idOf)
  {
    var index := Position(s, idOf(x), idOf);
    if index.Some? {
      r := s[index.value := x];
    } else {
      r := s + [x];
    }
  }

  /** `Vec::retain(|x| x.id != id)`, keeping the survivors in order. */
  method Retain<T>(s: seq<T>, id: nat, idOf: T -> nat) returns (r: seq<T>)
    ensures r == Removed(s, id, idOf)
  {
    r := [];
    var i := 0;
    while i < |s|
      invariant 0 <= i <= |s|
      invariant r == Removed(s[..i], id, idOf)
    {
      RemovedConcat(s[..i], [s[i]], id, idOf);
      assert s[..i + 1] == s[..i] + [s[i]];
      if idOf(s[i]) != id {
        r := r + [s[i]];
      }
      i := i + 1;
    }
    assert s[..i] == s;
  }

  // ---------------------------------------------------------------------
  // Properties
  // ---------------------------------------------------------------------

  lemma FirstIndexIsFirst<T>(s: seq<T>, id: nat, idOf: T -> nat, i: nat)
    requires i < |s| && idOf(s[i]) == id
    requires forall j :: 0 <= j < i ==> idOf(s[j]) != id
    ensures FirstIndex(s, id, idOf) == Some(i)
  {
  }

  lemma FirstIndexNone<T>(s: seq<T>, id: nat, idOf: T -> nat)
    requires forall j :: 0 <= j < |s| ==> idOf(s[j]) != id
    ensures FirstIndex(s, id, idOf) == None
  {
  }

  /** Filtering distributes over concatenation, so the survivors keep their order. */
  lemma {:induction false} RemovedConcat<T>(a: seq<T>, b: seq<T>, id: nat, idOf: T -> nat)
    ensures Removed(a + b, id, idOf) == Removed(a, id, idOf) + Removed(b, id, idOf)
  {
    if a == [] {
      assert a + b == b;
    } else {
      assert (a + b)[1..] == a[1..] + b;
      RemovedConcat(a[1..], b, id, idOf);
    }
  }

  /** After `add_or_update`, looking up `x`'s id finds `x`; every other id finds what it found before. */
  lemma UpsertedFind<T>(s: seq<T>, x: T, other: nat, idOf: T -> nat)
    requires other != idOf(x)
    ensures Find(Upserted(s, x, idOf), idOf(x), idOf) == Some(x)
    ensures Find(Upserted(s, x, idOf), other, idOf) == Find(s, other, idOf)
  {
    var r := Upserted(s, x, idOf);
    match FirstIndex(s, idOf(x), idOf)
    case Some(i) =>
      FirstIndexIsFirst(r, idOf(x), idOf, i);
      FindUnchangedOther(s, i, x, other, idOf);
    case None =>
      FirstIndexIsFirst(r, idOf(x), idOf, |s|);
      FindAfterAppend(s, x, other, idOf);
  }

  lemma FindUnchangedOther<T>(s: seq<T>, i: nat, x: T, other: nat, idOf: T -> nat)
    requires i < |s| && idOf(s[i]) == idOf(x) && other != idOf(x)
    ensures Find(s[i := x], other, idOf) == Find(s, other, idOf)
  {
    var r := s[i := x];
    match FirstIndex(s, other, idOf)
    case Some(k) =>
      FirstIndexIsFirst(r, other, idOf, k);
    case None =>
      FirstIndexNone(r, other, idOf);
  }

  lemma FindAfterAppend<T>(s: seq<T>, x: T, other: nat, idOf: T -> nat)
    requires other != idOf(x)
    ensures Find(s + [x], other, idOf) == Find(s, other, idOf)
  {
    var r := s + [x];
    match FirstIndex(s, other, idOf)
    case Some(k) =>
      FirstIndexIsFirst(r, other, idOf, k);
    case None =>
      FirstIndexNone(r, other, idOf);
  }

  /** `add_or_update` replaces in place (same length, others untouched) or appends at the end. */
  lemma UpsertedShape<T>(s: seq<T>, x: T, idOf: T -> nat)
    ensures var r := Upserted(s, x, idOf);
      match FirstIndex(s, idOf(x), idOf)
      case Some(i) => |r| == |s| && r[i] == x && forall j :: 0 <= j < |s| && j != i ==> r[j] == s[j]
      case None => |r| == |s| + 1 && r[..|s|] == s && r[|s|] == x
  {
  }

  /** After removal no element holds `id`, and every other id finds what it found before. */
  lemma {:induction false} RemovedFind<T>(s: seq<T>, id: nat, other: nat, idOf: T -> nat)
    requires other != id
    ensures Find(Removed(s, id, idOf), id, idOf) == None
    ensures Find(Removed(s, id, idOf), other, idOf) == Find(s, other, idOf)
  {
    var r := Removed(s, id, idOf);
    FirstIndexNone(r, id, idOf);
    if s != [] {
      RemovedFind(s[1..], id, other, idOf);
      var rest := Removed(s[1..], id, idOf);
      if idOf(s[0]) == other {
        FirstIndexIsFirst(r, other, idOf, 0);
      } else if idOf(s[0]) == id {
        assert r == rest;
        FindTail(s, other, idOf);
      } else {
        assert r == [s[0]] + rest;
        FindTail(r, other, idOf);
        FindTail(s, other, idOf);
        assert r[1..] == rest;
      }
    }
  }

  lemma FindTail<T>(s: seq<T>, id: nat, idOf: T -> nat)
    requires s != [] && idOf(s[0]) != id
    ensures Find(s, id, idOf) == Find(s[1..], id, idOf)
  {
  }

  /** Removing an id that nothing holds changes nothing. */
  lemma {:induction false} RemovedAbsent<T>(s: seq<T>, id: nat, idOf: T -> nat)
    requires forall j :: 0 <= j < |s| ==> idOf(s[j]) != id
    ensures Removed(s, id, idOf) == s
  {
    if s != [] {
      RemovedAbsent(s[1..], id, idOf);
      assert [s[0]] + s[1..] == s;
    }
  }

  /** Every element without the id survives removal. */
  lemma {:induction false} RemovedKeeps<T>(s: seq<T>, id: nat, idOf: T -> nat, j: nat)
    requires j < |s| && idOf(s[j]) != id
    ensures s[j] in Removed(s, id, idOf)
  {
    if j > 0 {
      RemovedKeeps(s[1..], id, idOf, j - 1);
    }
  }

  /** Everything in the result of `add_or_update` was there before or is `x`, and `x` is there. */
  lemma UpsertedElements<T>(s: seq<T>, x: T, idOf: T -> nat)
    ensures x in Upserted(s, x, idOf)
    ensures forall y :: y in Upserted(s, x, idOf) ==> y in s || y == x
  {
    var r := Upserted(s, x, idOf);
    match FirstIndex(s, idOf(x), idOf)
    case Some(i) =>
      assert r[i] == x;
      forall y | y in r ensures y in s || y == x {
        var k :| 0 <= k < |r| && r[k] == y;
        if k != i { assert y == s[k]; }
      }
    case None =>
      assert r[|s|] == x;
  }

  /** Removal only drops elements. */
  lemma {:induction false} RemovedElements<T>(s: seq<T>, id: nat, idOf: T -> nat)
    ensures forall y :: y in Removed(s, id, idOf) ==> y in s
  {
    if s != [] {
      RemovedElements(s[1..], id, idOf);
    }
  }
}
