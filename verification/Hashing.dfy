/** Hash tables enumerate their entries in no particular order; sorting takes the order away again. */
module Hashing {
  import opened Types

  /** An element of an ascending collection is either put in or already there. */
  lemma {:induction false} InsertMembers(env: Env, ty: Ty, acc: seq<Val>, x: Val)
    requires forall y | y in acc && !Precedes(env, ty, x, y) && !Precedes(env, ty, y, x) :: y == x
    ensures forall z :: z in Insert(env, ty, acc, x) <==> z in acc || z == x
  {
    if acc != [] {
      assert acc[0] in acc && forall z :: z in acc <==> z == acc[0] || z in acc[1..];
      InsertMembers(env, ty, acc[1..], x);
    }
  }

  /** An item whose key is new takes a place of its own. */
  lemma {:induction false} InsertNew(env: Env, ty: Ty, acc: seq<Val>, x: Val)
    requires forall y | y in acc :: Precedes(env, ty, x, y) || Precedes(env, ty, y, x)
    ensures |Insert(env, ty, acc, x)| == |acc| + 1
  {
    if acc != [] {
      assert acc[0] in acc;
      InsertNew(env, ty, acc[1..], x);
    }
  }

  /** Distinct entries of an ascending collection have distinct keys. */
  lemma AscendingKeysDiffer(env: Env, ty: Ty, items: seq<Val>, x: Val, y: Val)
    requires StrictTotalOrder(env.less) && Ascending(env, ty, items)
    requires x in items && y in items && !Precedes(env, ty, x, y) && !Precedes(env, ty, y, x)
    ensures x == y
  {
    var i :| 0 <= i < |items| && items[i] == x;
    var j :| 0 <= j < |items| && items[j] == y;
    if i < j {
      AscendingFar(env, ty, items, i, j);
    } else if j < i {
      AscendingFar(env, ty, items, j, i);
    }
  }

  lemma {:induction false} CollectMembers(env: Env, ty: Ty, items: seq<Val>, some: seq<Val>)
    requires StrictTotalOrder(env.less) && Ascending(env, ty, items)
    requires forall x | x in some :: x in items
    ensures forall x :: x in Collect(env, ty, some) <==> x in some
    decreases |some|
  {
    if some != [] {
      var n := |some| - 1;
      var init, x := some[..n], some[n];
      CollectMembers(env, ty, items, init);
      assert forall z :: z in some <==> z in init || z == x;
      var acc := Collect(env, ty, init);
      forall y | y in acc && !Precedes(env, ty, x, y) && !Precedes(env, ty, y, x) ensures y == x {
        AscendingKeysDiffer(env, ty, items, x, y);
      }
      InsertMembers(env, ty, acc, x);
    }
  }

  /** Two ascending collections with the same entries are the same sequence. */
  lemma {:induction false} AscendingUnique(env: Env, ty: Ty, a: seq<Val>, b: seq<Val>)
    requires StrictTotalOrder(env.less) && Ascending(env, ty, a) && Ascending(env, ty, b) && IsSorted(ty)
    requires forall x :: x in a <==> x in b
    ensures a == b
    decreases |a|
  {
    assert a != [] ==> a[0] in a && a[0] in b;
    assert b != [] ==> b[0] in b && b[0] in a;
    if a != [] {
      assert a[0] in a && b[0] in b;
      LeastFirst(env, ty, a, b[0]);
      LeastFirst(env, ty, b, a[0]);
      TailMembers(env, ty, a);
      TailMembers(env, ty, b);
      AscendingUnique(env, ty, a[1..], b[1..]);
    }
  }

  lemma LeastFirst(env: Env, ty: Ty, a: seq<Val>, x: Val)
    requires StrictTotalOrder(env.less) && Ascending(env, ty, a) && x in a
    ensures x == a[0] || Precedes(env, ty, a[0], x)
  {
    var i :| 0 <= i < |a| && a[i] == x;
    if i > 0 {
      AscendingFar(env, ty, a, 0, i);
    }
  }

  lemma TailMembers(env: Env, ty: Ty, a: seq<Val>)
    requires StrictTotalOrder(env.less) && Ascending(env, ty, a) && a != []
    ensures Ascending(env, ty, a[1..])
    ensures forall x :: x in a[1..] <==> x in a && x != a[0]
  {
    forall i | 0 < i < |a[1..]| ensures Precedes(env, ty, a[1..][i - 1], a[1..][i]) {
      assert Precedes(env, ty, a[i], a[i + 1]);
    }
    assert forall x :: x in a <==> x == a[0] || x in a[1..];
    if a[0] in a[1..] {
      var i :| 0 < i < |a| && a[i] == a[0];
      AscendingFar(env, ty, a, 0, i);
    }
  }

  /** Whatever order the entries are handed out in, sorting them gives the one
      ascending sequence: the encoded bytes depend on the contents alone. */
  lemma OrderIrrelevant(env: Env, ty: Ty, items: seq<Val>, iteration: seq<Val>)
    requires StrictTotalOrder(env.less) && IsSorted(ty) && Ascending(env, ty, items)
    requires forall x :: x in iteration <==> x in items
    ensures Collect(env, ty, iteration) == items
  {
    CollectMembers(env, ty, items, iteration);
    CollectKeepsOrder(env, ty, iteration);
    AscendingUnique(env, ty, Collect(env, ty, iteration), items);
  }
}
