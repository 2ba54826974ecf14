/** A lawful order on all values: the environments that the codec asks for exist. */
module Orders {
  import opened Types

  /** A value as a list of numbers that tells where it ends. */
  function Code(v: Val): seq<int>
    decreases v
  {
    match v
    case VInt(i) => [0, i]
    case VBool(b) => [1, if b then 1 else 0]
    case VNone => [2]
    case VSome(w) => [3] + Code(w)
    case VOk(w) => [4] + Code(w)
    case VErr(w) => [5] + Code(w)
    case VTuple(items) => [6, |items|] + CodeAll(items)
    case VSeq(items) => [7, |items|] + CodeAll(items)
    case VEnum(variant, payload) => [8, variant] + Code(payload)
  }

  function CodeAll(items: seq<Val>): seq<int>
    decreases items
  {
    if items == [] then [] else Code(items[0]) + CodeAll(items[1..])
  }

  lemma {:induction false} CodeCancel(a: Val, b: Val, x: seq<int>, y: seq<int>)
    requires Code(a) + x == Code(b) + y
    ensures a == b && x == y
    decreases a
  {
    Unpack(Code(a), Code(b), x, y, 1);
    assert Code(a)[..1][0] == Code(b)[..1][0];
    var n := HeaderLength(a);
    Unpack(Code(a), Code(b), x, y, n);
    assert n == 2 ==> Code(a)[..2][1] == Code(b)[..2][1];
    if a.VInt? || a.VBool? || a.VNone? {
      assert Code(a)[n..] + x == x && Code(b)[n..] + y == y;
    } else if a.VSome? || a.VOk? || a.VErr? {
      assert Code(a)[n..] == Code(a.v) && Code(b)[n..] == Code(b.v);
      CodeCancel(a.v, b.v, x, y);
    } else if a.VEnum? {
      assert Code(a)[n..] == Code(a.payload) && Code(b)[n..] == Code(b.payload);
      CodeCancel(a.payload, b.payload, x, y);
    } else {
      assert Code(a)[n..] == CodeAll(a.items) && Code(b)[n..] == CodeAll(b.items);
      CodesCancel(a.items, b.items, x, y);
    }
  }

  function HeaderLength(v: Val): nat {
    if v.VNone? || v.VSome? || v.VOk? || v.VErr? then 1 else 2
  }

  lemma Unpack(p: seq<int>, q: seq<int>, x: seq<int>, y: seq<int>, n: nat)
    requires p + x == q + y && n <= |p| && n <= |q|
    ensures p[..n] == q[..n] && p[n..] + x == q[n..] + y
  {
    assert p[..n] == (p + x)[..n] && q[..n] == (q + y)[..n];
    assert p[n..] + x == (p + x)[n..] && q[n..] + y == (q + y)[n..];
  }

  lemma {:induction false} CodesCancel(a: seq<Val>, b: seq<Val>, x: seq<int>, y: seq<int>)
    requires |a| == |b| && CodeAll(a) + x == CodeAll(b) + y
    ensures a == b && x == y
    decreases a
  {
    if a == [] {
      assert CodeAll(a) + x == x && CodeAll(b) + y == y;
    } else {
      var p, q := CodeAll(a[1..]) + x, CodeAll(b[1..]) + y;
      assert CodeAll(a) + x == Code(a[0]) + p;
      assert CodeAll(b) + y == Code(b[0]) + q;
      CodeCancel(a[0], b[0], p, q);
      CodesCancel(a[1..], b[1..], x, y);
      assert a == [a[0]] + a[1..] && b == [b[0]] + b[1..];
    }
  }

  predicate LexLess(a: seq<int>, b: seq<int>) {
    b != [] && (a == [] || a[0] < b[0] || (a[0] == b[0] && LexLess(a[1..], b[1..])))
  }

  lemma {:induction false} LexIrreflexive(a: seq<int>)
    ensures !LexLess(a, a)
  {
    if a != [] {
      LexIrreflexive(a[1..]);
    }
  }

  lemma {:induction false} LexTransitive(a: seq<int>, b: seq<int>, c: seq<int>)
    requires LexLess(a, b) && LexLess(b, c)
    ensures LexLess(a, c)
  {
    if a != [] && a[0] == b[0] && b[0] == c[0] {
      LexTransitive(a[1..], b[1..], c[1..]);
    }
  }

  lemma {:induction false} LexTotal(a: seq<int>, b: seq<int>)
    ensures LexLess(a, b) || LexLess(b, a) || a == b
  {
    if a != [] && b != [] && a[0] == b[0] {
      LexTotal(a[1..], b[1..]);
      assert a == [a[0]] + a[1..] && b == [b[0]] + b[1..];
    }
  }

  /** The same order for every type. */
  predicate Less(t: Ty, a: Val, b: Val) {
    LexLess(Code(a), Code(b))
  }

  lemma LessIsLawful()
    ensures StrictTotalOrder(Less)
  {
    forall t: Ty, a ensures !Less(t, a, a) {
      LexIrreflexive(Code(a));
    }
    forall t: Ty, a, b, c | Less(t, a, b) && Less(t, b, c) ensures Less(t, a, c) {
      LexTransitive(Code(a), Code(b), Code(c));
    }
    forall t: Ty, a, b ensures Less(t, a, b) || Less(t, b, a) || a == b {
      LexTotal(Code(a), Code(b));
      if Code(a) == Code(b) {
        CodeCancel(a, b, [], []);
      }
    }
  }
}
