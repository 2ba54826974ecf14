/** Which entries a lenient decoder keeps: of those with one key, the last. */
module Collecting {
  import opened Bytes
  import opened Wrappers
  import opened Types
  import opened Codec
  import H = Hashing
  import J = Json
  import R = RoundTrip

  /** Entries of a map have their keys in common, members of a set themselves. */
  predicate SameKey(ty: Ty, a: Val, b: Val) {
    if ty.TMap? then KeyOf(a) == KeyOf(b) else a == b
  }

  /** The item at `i` is followed by none with its key. */
  ghost predicate IsLastAt(ty: Ty, items: seq<Val>, i: nat, x: Val) {
    i < |items| && items[i] == x && forall j | i < j < |items| :: !SameKey(ty, items[j], x)
  }

  ghost predicate IsLast(ty: Ty, items: seq<Val>, x: Val) {
    exists i :: IsLastAt(ty, items, i, x)
  }

  lemma OrderedOrSame(env: Env, ty: Ty, a: Val, b: Val)
    requires StrictTotalOrder(env.less) && IsSorted(ty)
    ensures SameKey(ty, a, b) <==> !Precedes(env, ty, a, b) && !Precedes(env, ty, b, a)
  {
  }

  /** An item takes the place of the one with its key, if there is one. */
  lemma {:induction false} InsertReplaces(env: Env, ty: Ty, acc: seq<Val>, x: Val)
    requires StrictTotalOrder(env.less) && IsSorted(ty) && Ascending(env, ty, acc)
    ensures forall z :: z in Insert(env, ty, acc, x) <==> z == x || (z in acc && !SameKey(ty, x, z))
  {
    if acc != [] {
      H.TailMembers(env, ty, acc);
      InsertReplaces(env, ty, acc[1..], x);
      forall z ensures z in Insert(env, ty, acc, x) <==> z == x || (z in acc && !SameKey(ty, x, z)) {
        OrderedOrSame(env, ty, x, acc[0]);
        OrderedOrSame(env, ty, x, z);
        if z in acc {
          H.LeastFirst(env, ty, acc, z);
        }
      }
    }
  }

  lemma LastIsLast(ty: Ty, init: seq<Val>, x: Val)
    ensures IsLast(ty, init + [x], x)
  {
    assert IsLastAt(ty, init + [x], |init|, x);
  }

  lemma StaysLast(ty: Ty, init: seq<Val>, x: Val, z: Val)
    requires IsLast(ty, init, z) && !SameKey(ty, x, z)
    ensures IsLast(ty, init + [x], z)
  {
    var i: nat :| IsLastAt(ty, init, i, z);
    assert IsLastAt(ty, init + [x], i, z);
  }

  lemma WasLast(ty: Ty, init: seq<Val>, x: Val, z: Val)
    requires IsLast(ty, init + [x], z) && z != x
    ensures IsLast(ty, init, z) && !SameKey(ty, x, z)
  {
    var items := init + [x];
    var i: nat :| IsLastAt(ty, items, i, z);
    assert i < |init| && items[|init|] == x;
    assert forall j | 0 <= j < |init| :: init[j] == items[j];
    assert IsLastAt(ty, init, i, z);
  }

  lemma LastOfMore(ty: Ty, init: seq<Val>, x: Val, z: Val)
    ensures IsLast(ty, init + [x], z) <==> z == x || (IsLast(ty, init, z) && !SameKey(ty, x, z))
  {
    if z == x {
      LastIsLast(ty, init, x);
    } else if IsLast(ty, init, z) && !SameKey(ty, x, z) {
      StaysLast(ty, init, x, z);
    } else if IsLast(ty, init + [x], z) {
      WasLast(ty, init, x, z);
    }
  }

  /** Collecting keeps exactly the items that are the last with their key. */
  lemma {:induction false} CollectKeepsLast(env: Env, ty: Ty, items: seq<Val>)
    requires StrictTotalOrder(env.less) && IsSorted(ty)
    ensures Ascending(env, ty, Collect(env, ty, items))
    ensures forall z :: z in Collect(env, ty, items) <==> IsLast(ty, items, z)
    decreases |items|
  {
    CollectKeepsOrder(env, ty, items);
    if items != [] {
      var n := |items| - 1;
      var init, x := items[..n], items[n];
      CollectKeepsLast(env, ty, init);
      InsertReplaces(env, ty, Collect(env, ty, init), x);
      assert items == init + [x];
      forall z ensures z in Collect(env, ty, items) <==> IsLast(ty, items, z) {
        LastOfMore(ty, init, x, z);
      }
    }
  }

  /** So its keys are exactly the keys of the items. */
  lemma {:induction false} KeysAreKept(ty: Ty, items: seq<Val>, x: Val) returns (last: Val)
    requires IsSorted(ty) && x in items
    ensures SameKey(ty, last, x) && IsLast(ty, items, last)
    decreases |items|
  {
    var n := |items| - 1;
    var init := items[..n];
    assert items == init + [items[n]];
    if SameKey(ty, items[n], x) {
      last := items[n];
    } else {
      last := KeysAreKept(ty, init, x);
    }
    LastOfMore(ty, init, items[n], last);
  }

  function ItemTy(ty: Ty): Ty
    requires IsSorted(ty)
  {
    if ty.TSet? then ty.member else TTuple([ty.key, ty.val])
  }

  /** Without the order check a set or a map decodes from any items: it holds, in
      ascending order, of the items with one key the last. */
  lemma LenientKeepsLast(env: Env, ty: Ty, b: seq<byte>)
    requires WellFormed(env) && IsSorted(ty) && Decode(env, false, ty, b).Ok?
    ensures var v, read := Decode(env, false, ty, b).value, DecodeItems(env, false, ItemTy(ty), b);
            && read.Ok? && v.rest == read.value.rest
            && v.value.VSeq? && Ascending(env, ty, v.value.items)
            && forall z :: z in v.value.items <==> IsLast(ty, read.value.values, z)
  {
    var read := DecodeItems(env, false, ItemTy(ty), b);
    CollectKeepsLast(env, ty, read.value.values);
  }

  /** Two entries with one key: the second is kept. */
  lemma SecondEntryWins(env: Env, ty: Ty, k: Val, v: Val, w: Val)
    requires StrictTotalOrder(env.less) && ty.TMap?
    ensures Collect(env, ty, [VTuple([k, v]), VTuple([k, w])]) == [VTuple([k, w])]
  {
    var a, b := VTuple([k, v]), VTuple([k, w]);
    var items := [a, b];
    assert items[..1] == [a] && [a][..0] == [];
    assert Collect(env, ty, []) == [] && Collect(env, ty, [a]) == [a];
    assert KeyOf(a) == k == KeyOf(b);
    assert Insert(env, ty, [a], b) == [b] + [a][1..];
  }

  /** An object keeps the last tree of each key. */
  lemma ObjectKeepsLast(env: Env, b: seq<byte>)
    requires WellFormed(env) && J.DecodeJson(env, false, [5] + b).Ok?
    ensures var v, read := J.DecodeJson(env, false, [5] + b).value, J.DecodeJsons(env, false, true, b);
            && read.Ok? && v.rest == read.value.rest
            && v.value.VEnum? && v.value.variant == 5 && v.value.payload.VSeq?
            && Ascending(env, J.ENTRIES, v.value.payload.items)
            && forall z :: z in v.value.payload.items <==> IsLast(J.ENTRIES, read.value.values, z)
  {
    R.TagBack(5, b);
    CollectKeepsLast(env, J.ENTRIES, J.DecodeJsons(env, false, true, b).value.values);
  }
}
