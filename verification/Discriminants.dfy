/** The tag each variant of a derived enum gets. */
module Discriminants {
  import opened Arithmetic
  import opened Wrappers

  datatype Op = Mul | Div | Rem | Add | Sub | Shl | Shr | And | Xor | Or

  /** How tightly an operator binds; all of these group from the left. */
  function Binding(op: Op): nat {
    match op
    case Mul | Div | Rem => 5
    case Add | Sub => 4
    case Shl | Shr => 3
    case And => 2
    case Xor => 1
    case Or => 0
  }

  /** An expression as it is written, without parentheses of its own: an operand
      and then operators, each with an operand. An operand is a literal, a name
      or something in parentheses, and stands for its value. */
  datatype Chain = Chain(first: int, rest: seq<(Op, int)>)

  /** What the operators do to integers. */
  type Meaning = (Op, int, int) -> int

  ghost predicate Adds(m: Meaning) {
    forall a, b :: m(Add, a, b) == a + b
  }

  /** The operator that is applied last: the last of those that bind the loosest. */
  function Loosest(rest: seq<(Op, int)>): (i: nat)
    requires rest != []
    ensures i < |rest|
    ensures forall j | 0 <= j < |rest| :: Binding(rest[i].0) <= Binding(rest[j].0)
    ensures forall j | i < j < |rest| :: Binding(rest[i].0) < Binding(rest[j].0)
  {
    var n := |rest| - 1;
    if n == 0 then 0
    else
      var i := Loosest(rest[..n]);
      if Binding(rest[n].0) <= Binding(rest[i].0) then n else i
  }

  function Left(c: Chain): (left: Chain)
    requires c.rest != []
    ensures |left.rest| < |c.rest|
  {
    Chain(c.first, c.rest[..Loosest(c.rest)])
  }

  function Right(c: Chain): (right: Chain)
    requires c.rest != []
    ensures |right.rest| < |c.rest|
  {
    var i := Loosest(c.rest);
    Chain(c.rest[i].1, c.rest[i + 1..])
  }

  /** What an expression means by the precedence of its operators. */
  datatype Expr = Operand(value: int) | Binary(op: Op, left: Expr, right: Expr)

  function Parse(c: Chain): Expr
    decreases |c.rest|
  {
    if c.rest == [] then Operand(c.first) else Binary(c.rest[Loosest(c.rest)].0, Parse(Left(c)), Parse(Right(c)))
  }

  /** The operator at `i` binds looser than those after it, and no tighter than those before. */
  predicate IsAppliedLast(rest: seq<(Op, int)>, i: nat) {
    && i < |rest|
    && (forall j | 0 <= j < i :: Binding(rest[i].0) <= Binding(rest[j].0))
    && (forall j | i < j < |rest| :: Binding(rest[i].0) < Binding(rest[j].0))
  }

  lemma AppliedLast(c: Chain, i: nat)
    requires IsAppliedLast(c.rest, i)
    ensures Parse(c) == Binary(c.rest[i].0, Parse(Chain(c.first, c.rest[..i])), Parse(Chain(c.rest[i].1, c.rest[i + 1..])))
  {
    assert Loosest(c.rest) == i;
  }

  /** From loose to tight: or, exclusive or, and, shifts, sums, products. */
  predicate IsLooser(p: Op, q: Op) {
    match p
    case Or => q != Or
    case Xor => q != Or && q != Xor
    case And => q != Or && q != Xor && q != And
    case Shl | Shr => q == Add || q == Sub || q == Mul || q == Div || q == Rem
    case Add | Sub => q == Mul || q == Div || q == Rem
    case Mul | Div | Rem => false
  }

  /** Of two operators the first is applied last only if it is looser. */
  lemma TwoOperators(a: int, p: Op, b: int, q: Op, c: int)
    ensures Parse(Chain(a, [(p, b), (q, c)])) ==
            if IsLooser(p, q) then Binary(p, Operand(a), Binary(q, Operand(b), Operand(c)))
            else Binary(q, Binary(p, Operand(a), Operand(b)), Operand(c))
  {
    var both := Chain(a, [(p, b), (q, c)]);
    assert both.rest[..0] == [] && both.rest[1..] == [(q, c)] && both.rest[..1] == [(p, b)] && both.rest[2..] == [];
    assert IsLooser(p, q) <==> Binding(p) < Binding(q);
    OneOperator(a, p, b);
    OneOperator(b, q, c);
    if Binding(p) < Binding(q) {
      AppliedLast(both, 0);
    } else {
      AppliedLast(both, 1);
    }
  }

  lemma OneOperator(a: int, op: Op, b: int)
    ensures Parse(Chain(a, [(op, b)])) == Binary(op, Operand(a), Operand(b))
  {
    var one := Chain(a, [(op, b)]);
    assert one.rest[..0] == [] && one.rest[1..] == [];
    AppliedLast(one, 0);
  }

  function Eval(m: Meaning, e: Expr): int {
    match e
    case Operand(value) => value
    case Binary(op, left, right) => m(op, Eval(m, left), Eval(m, right))
  }

  function Value(m: Meaning, c: Chain): int {
    Eval(m, Parse(c))
  }

  /** Nothing binds looser than an addition. */
  predicate Tight(c: Chain) {
    forall i | 0 <= i < |c.rest| :: Binding(c.rest[i].0) >= Binding(Add)
  }

  /** The derive writes `+ 1` behind an expression, and no parentheses around it. */
  function PlusOne(c: Chain): Chain {
    c.(rest := c.rest + [(Add, 1)])
  }

  predicate IsTight(e: Expr) {
    e.Operand? || Binding(e.op) >= Binding(Add)
  }

  /** Where the `+ 1` goes: around what is tight, and otherwise into the right
      operand of the operator that is applied last. */
  function AddOne(e: Expr): Expr {
    if IsTight(e) then Binary(Add, e, Operand(1)) else Binary(e.op, e.left, AddOne(e.right))
  }

  lemma EvalAddOne(m: Meaning, e: Expr)
    requires Adds(m)
    ensures Eval(m, AddOne(e)) == if IsTight(e) then Eval(m, e) + 1 else m(e.op, Eval(m, e.left), Eval(m, AddOne(e.right)))
  {
    assert IsTight(e) ==> Eval(m, AddOne(e)) == m(Add, Eval(m, e), Eval(m, Operand(1)));
  }

  lemma TightIsParsed(c: Chain)
    ensures Tight(c) <==> IsTight(Parse(c))
  {
  }

  /** Writing `+ 1` behind an expression adds it there. */
  lemma {:induction false} ParsePlusOne(c: Chain)
    ensures Parse(PlusOne(c)) == AddOne(Parse(c))
    decreases |c.rest|
  {
    TightIsParsed(c);
    if Tight(c) {
      AddIsLast(c);
    } else {
      LooseIsLast(c);
      ParsePlusOne(Right(c));
    }
  }

  lemma AddIsLast(c: Chain)
    requires Tight(c)
    ensures PlusOne(c).rest[Loosest(PlusOne(c).rest)].0 == Add && Left(PlusOne(c)) == c && Right(PlusOne(c)) == Chain(1, [])
  {
    var n, longer := |c.rest|, PlusOne(c).rest;
    assert longer[..n] == c.rest && longer[n + 1..] == [];
    assert Loosest(longer) == n;
  }

  /** A loose operator is applied after the `+ 1` that is written behind it. */
  lemma LooseIsLast(c: Chain)
    requires !Tight(c)
    ensures PlusOne(c).rest[Loosest(PlusOne(c).rest)].0 == c.rest[Loosest(c.rest)].0
    ensures Left(PlusOne(c)) == Left(c) && Right(PlusOne(c)) == PlusOne(Right(c))
  {
    var i, longer := Loosest(c.rest), PlusOne(c).rest;
    assert longer[..|c.rest|] == c.rest;
    assert Loosest(longer) == i;
    assert longer[i] == c.rest[i] && longer[..i] == c.rest[..i];
    assert longer[i + 1..] == PlusOne(Right(c)).rest;
  }

  // ---- The discriminants of the compiler and those of the derive ----

  /** What the compiler assigns: an explicit discriminant where one is written, and
      otherwise one more than the previous variant's, from zero. */
  function Assigned(m: Meaning, explicit: seq<Option<Chain>>, i: nat): int
    requires i < |explicit|
  {
    match explicit[i]
    case Some(c) => Value(m, c)
    case None => if i == 0 then 0 else Assigned(m, explicit, i - 1) + 1
  }

  /** What the derive writes. */
  function Derived(explicit: seq<Option<Chain>>, i: nat): Chain
    requires i < |explicit|
  {
    match explicit[i]
    case Some(c) => c
    case None => if i == 0 then Chain(0, []) else PlusOne(Derived(explicit, i - 1))
  }

  method New(explicit: seq<Option<Chain>>) returns (chains: seq<Chain>)
    ensures |chains| == |explicit|
    ensures forall i | 0 <= i < |chains| :: chains[i] == Derived(explicit, i)
  {
    chains := [];
    var next := Chain(0, []);
    var i := 0;
    while i < |explicit|
      invariant 0 <= i <= |explicit| && |chains| == i
      invariant forall j | 0 <= j < i :: chains[j] == Derived(explicit, j)
      invariant next == if i == 0 then Chain(0, []) else PlusOne(Derived(explicit, i - 1))
    {
      var current := match explicit[i]
        case Some(c) => c
        case None => next;
      next := PlusOne(current);
      chains := chains + [current];
      i := i + 1;
    }
  }

  /** The tag that is written, or nothing when there are too many variants. */
  function Get(explicit: seq<Option<Chain>>, useDiscriminant: bool, i: nat): Option<Chain>
    requires i < |explicit|
  {
    if i > 255 then None else Some(if useDiscriminant then Derived(explicit, i) else Chain(i, []))
  }

  lemma PlusOneAdds(m: Meaning, c: Chain)
    requires Adds(m) && Tight(c)
    ensures Value(m, PlusOne(c)) == Value(m, c) + 1
  {
    TightIsParsed(c);
    ParsePlusOne(c);
    EvalAddOne(m, Parse(c));
  }

  /** The last discriminant that was written out. */
  function Governing(explicit: seq<Option<Chain>>, i: nat): Chain
    requires i < |explicit|
  {
    match explicit[i]
    case Some(c) => c
    case None => if i == 0 then Chain(0, []) else Governing(explicit, i - 1)
  }

  lemma {:induction false} GoverningDecides(explicit: seq<Option<Chain>>, i: nat)
    requires i < |explicit|
    ensures Tight(Derived(explicit, i)) <==> Tight(Governing(explicit, i))
  {
    if explicit[i].None? && i > 0 {
      GoverningDecides(explicit, i - 1);
      var c := Derived(explicit, i - 1);
      assert forall j | 0 <= j < |c.rest| :: PlusOne(c).rest[j] == c.rest[j];
    }
  }

  lemma TightStep(m: Meaning, explicit: seq<Option<Chain>>, i: nat)
    requires 0 < i < |explicit| && explicit[i].None? && Adds(m) && Tight(Governing(explicit, i))
    ensures Value(m, Derived(explicit, i)) == Value(m, Derived(explicit, i - 1)) + 1
  {
    GoverningDecides(explicit, i - 1);
    PlusOneAdds(m, Derived(explicit, i - 1));
  }

  lemma {:induction false} TightAgrees(m: Meaning, explicit: seq<Option<Chain>>, i: nat)
    requires i < |explicit| && Adds(m)
    requires explicit[i].Some? || Tight(Governing(explicit, i))
    ensures Value(m, Derived(explicit, i)) == Assigned(m, explicit, i)
  {
    if explicit[i].Some? {
      assert Derived(explicit, i) == explicit[i].value;
    } else if i == 0 {
      assert Derived(explicit, i) == Chain(0, []);
    } else {
      TightAgrees(m, explicit, i - 1);
      TightStep(m, explicit, i);
    }
  }

  /** Under this meaning an expression with a looser operator is worth nothing. */
  function OnlyAdds(): Meaning {
    (op, a, b) => if op == Add then a + b else 0
  }

  lemma LooseIsZero(c: Chain)
    requires !Tight(c)
    ensures Value(OnlyAdds(), c) == 0
  {
    TightIsParsed(c);
  }

  lemma {:induction false} LooseFallsBehind(explicit: seq<Option<Chain>>, i: nat)
    requires i < |explicit| && !Tight(Governing(explicit, i))
    ensures Assigned(OnlyAdds(), explicit, i) >= 0 && (explicit[i].None? ==> Assigned(OnlyAdds(), explicit, i) > 0)
  {
    if explicit[i].None? {
      LooseFallsBehind(explicit, i - 1);
    } else {
      LooseIsZero(explicit[i].value);
    }
  }

  /** The derive's discriminant of a variant is the compiler's, whatever the
      operators mean, exactly when it is written out or the last one that was
      holds nothing looser than an addition. */
  lemma DerivedIsAssigned(explicit: seq<Option<Chain>>, i: nat)
    requires i < |explicit|
    ensures (forall m | Adds(m) :: Value(m, Derived(explicit, i)) == Assigned(m, explicit, i)) <==>
            explicit[i].Some? || Tight(Governing(explicit, i))
  {
    if explicit[i].Some? || Tight(Governing(explicit, i)) {
      forall m | Adds(m) ensures Value(m, Derived(explicit, i)) == Assigned(m, explicit, i) {
        TightAgrees(m, explicit, i);
      }
    } else {
      GoverningDecides(explicit, i);
      LooseIsZero(Derived(explicit, i));
      LooseFallsBehind(explicit, i);
      assert Adds(OnlyAdds());
    }
  }

  // ---- The operators of the language, on numbers that are not negative ----

  function Pow2(n: nat): (p: nat)
    ensures p > 0
  {
    if n == 0 then 1 else 2 * Pow2(n - 1)
  }

  function Bit(op: Op, x: nat, y: nat): nat {
    match op
    case And => if x == 1 && y == 1 then 1 else 0
    case Or => if x == 1 || y == 1 then 1 else 0
    case _ => if x == y then 0 else 1
  }

  /** Bit by bit. */
  function Bits(op: Op, a: nat, b: nat): nat {
    if a == 0 && b == 0 then 0 else 2 * Bits(op, a / 2, b / 2) + Bit(op, a % 2, b % 2)
  }

  /** What the operators compute, as long as nothing wraps around. */
  function Machine(op: Op, a: nat, b: nat): int {
    match op
    case Mul => a * b
    case Div => if b == 0 then 0 else a / b
    case Rem => if b == 0 then 0 else a % b
    case Add => a + b
    case Sub => a - b
    case Shl => a * Pow2(b)
    case Shr => a / Pow2(b)
    case _ => Bits(op, a, b)
  }

  ghost predicate Computes(m: Meaning, op: Op) {
    forall a: nat, b: nat :: m(op, a, b) == Machine(op, a, b)
  }

  ghost predicate IsMachine(m: Meaning) {
    Adds(m) && forall op :: Computes(m, op)
  }

  lemma MachineExists() returns (m: Meaning)
    ensures IsMachine(m)
  {
    m := (op, a, b) => if op == Add then a + b else if a < 0 || b < 0 then 0 else Machine(op, a, b);
    forall op ensures Computes(m, op) {
    }
  }

  /** The lowest bits of `a`, as many as counting `b` up changes, are all `bit`. */
  predicate LowBits(bit: nat, a: nat, b: nat) {
    a % 2 == bit && (b % 2 == 1 ==> LowBits(bit, a / 2, b / 2))
  }

  /** Counting up the right operand counts up the result. */
  predicate CountsUp(op: Op, a: nat, b: nat) {
    match op
    case Shl => a == 1 && b == 0
    case Shr => false
    case And => LowBits(1, a, b)
    case Xor | Or => LowBits(0, a, b)
    case _ => true
  }

  lemma BitsStep(op: Op, a: nat, b: nat)
    requires op == And || op == Xor || op == Or
    ensures Bits(op, a, b) == 2 * Bits(op, a / 2, b / 2) + Bit(op, a % 2, b % 2)
  {
  }

  /** The lowest bit, without and with a carry into the others. */
  lemma BitCarry(op: Op, x: nat, y: nat, bit: nat)
    requires (op == And || op == Xor || op == Or) && bit < 2 && (op == Xor ==> x != y)
    ensures Bit(op, bit, 1) == Bit(op, bit, 0) + 1 <==> bit == if op == And then 1 else 0
    ensures 2 * y + Bit(op, bit, 0) == 2 * x + Bit(op, bit, 1) + 1 <==> y == x + 1 && bit == if op == And then 1 else 0
  {
  }

  lemma XorDiffers(a: nat, b: nat)
    ensures Bits(Xor, a, b + 1) != Bits(Xor, a, b)
  {
    BitsStep(Xor, a, b);
    BitsStep(Xor, a, b + 1);
    assert (b + 1) % 2 != b % 2;
  }

  lemma BitsFromEven(op: Op, a: nat, b: nat)
    requires (op == And || op == Xor || op == Or) && b % 2 == 0
    ensures Bits(op, a, b + 1) == Bits(op, a, b) + 1 <==> a % 2 == if op == And then 1 else 0
  {
    BitsStep(op, a, b);
    BitsStep(op, a, b + 1);
    assert (b + 1) / 2 == b / 2 && (b + 1) % 2 == 1;
    BitCarry(op, 0, 1, a % 2);
  }

  lemma BitsFromOdd(op: Op, a: nat, b: nat)
    requires (op == And || op == Xor || op == Or) && b % 2 == 1
    ensures Bits(op, a, b + 1) == Bits(op, a, b) + 1 <==>
            Bits(op, a / 2, b / 2 + 1) == Bits(op, a / 2, b / 2) + 1 && a % 2 == if op == And then 1 else 0
  {
    BitsStep(op, a, b);
    BitsStep(op, a, b + 1);
    assert (b + 1) / 2 == b / 2 + 1 && (b + 1) % 2 == 0;
    XorDiffers(a / 2, b / 2);
    BitCarry(op, Bits(op, a / 2, b / 2), Bits(op, a / 2, b / 2 + 1), a % 2);
  }

  lemma {:induction false} BitsCountUp(op: Op, a: nat, b: nat)
    requires op == And || op == Xor || op == Or
    ensures Bits(op, a, b + 1) == Bits(op, a, b) + 1 <==> CountsUp(op, a, b)
  {
    if b % 2 == 0 {
      BitsFromEven(op, a, b);
    } else {
      BitsFromOdd(op, a, b);
      BitsCountUp(op, a / 2, b / 2);
    }
  }

  lemma ShiftsCountUp(a: nat, b: nat)
    ensures a * Pow2(b + 1) == a * Pow2(b) + 1 <==> a == 1 && b == 0
    ensures a / Pow2(b + 1) < a / Pow2(b) + 1
  {
    var p := Pow2(b);
    assert Pow2(b + 1) == p * 2;
    DivTwice(a, p, 2);
    DoubleIsNext(a, p);
    assert p == 1 <==> b == 0;
  }

  lemma DoubleIsNext(a: nat, p: nat)
    requires p > 0
    ensures a * (p * 2) == a * p + 1 <==> a == 1 && p == 1
  {
    assert a * (p * 2) == a * p + a * p;
    if a > 1 {
      MulMonotone(2, a, 1, p);
    }
  }

  /** The first implicit discriminant after an expression whose operator that is
      applied last is loose and has nothing loose to its right: exactly when the
      derive's is the compiler's. */
  lemma NextDiscriminant(m: Meaning, c: Chain)
    requires IsMachine(m) && !IsTight(Parse(c)) && IsTight(Parse(c).right)
    requires Eval(m, Parse(c).left) >= 0 && Eval(m, Parse(c).right) >= 0
    ensures var e := Parse(c);
            Value(m, PlusOne(c)) == Value(m, c) + 1 <==> CountsUp(e.op, Eval(m, e.left), Eval(m, e.right))
  {
    ParsePlusOne(c);
    var e := Parse(c);
    EvalAddOne(m, e);
    EvalAddOne(m, e.right);
    OperatorCountsUp(m, e.op, Eval(m, e.left), Eval(m, e.right), Eval(m, e), Eval(m, AddOne(e)));
  }

  lemma OperatorCountsUp(m: Meaning, op: Op, a: nat, b: nat, now: int, next: int)
    requires IsMachine(m) && Binding(op) < Binding(Add) && now == m(op, a, b) && next == m(op, a, b + 1)
    ensures next == now + 1 <==> CountsUp(op, a, b)
  {
    assert Computes(m, op);
    if op == Shl || op == Shr {
      ShiftsCountUp(a, b);
    } else {
      BitsCountUp(op, a, b);
    }
  }

  /** A variant with an explicit discriminant of one operator, and one without. */
  function OneThenNone(a: int, op: Op, b: int): seq<Option<Chain>> {
    [Some(Chain(a, [(op, b)])), None]
  }

  lemma AfterOneOperator(m: Meaning, a: int, op: Op, b: int, now: int, next: int)
    requires Adds(m) && Binding(op) < Binding(Add) && m(op, a, b) == now && m(op, a, b + 1) == next
    ensures var explicit := OneThenNone(a, op, b);
            Value(m, Derived(explicit, 0)) == now && Value(m, Derived(explicit, 1)) == next && Assigned(m, explicit, 1) == now + 1
  {
    ValueOfTwo(m, op, a, b);
  }

  lemma ValueOfTwo(m: Meaning, op: Op, a: int, b: int)
    requires Adds(m) && Binding(op) < Binding(Add)
    ensures Value(m, Chain(a, [(op, b)])) == m(op, a, b)
    ensures Value(m, PlusOne(Chain(a, [(op, b)]))) == m(op, a, b + 1)
  {
    var c := Chain(a, [(op, b)]);
    assert Loosest(c.rest) == 0 && Left(c) == Chain(a, []) && Right(c) == Chain(b, []);
    ParsePlusOne(c);
    var e := Binary(op, Operand(a), Operand(b));
    assert Parse(c) == e;
    EvalAddOne(m, e);
    EvalAddOne(m, e.right);
  }

  /** After `1 << 2` the derive goes on with `1 << 2 + 1`: eight, for the compiler's five. */
  lemma ShiftGoesWrong(m: Meaning)
    requires IsMachine(m)
    ensures Value(m, Derived(OneThenNone(1, Shl, 2), 1)) == 8 && Assigned(m, OneThenNone(1, Shl, 2), 1) == 5
  {
    SmallShifts(m);
    AfterOneOperator(m, 1, Shl, 2, 4, 8);
  }

  lemma SmallShifts(m: Meaning)
    requires IsMachine(m)
    ensures m(Shl, 1, 2) == 4 && m(Shl, 1, 3) == 8
  {
    assert Computes(m, Shl) && Pow2(0) == 1 && Pow2(1) == 2 && Pow2(2) == 4 && Pow2(3) == 8;
  }

  /** After `1 | 2` it goes on with `1 | 2 + 1`: the same tag again. */
  lemma UnionRepeats(m: Meaning)
    requires IsMachine(m)
    ensures var explicit := OneThenNone(1, Or, 2);
            Value(m, Derived(explicit, 1)) == Value(m, Derived(explicit, 0)) == 3 && Assigned(m, explicit, 1) == 4
  {
    SmallUnions(m);
    AfterOneOperator(m, 1, Or, 2, 3, 3);
  }

  lemma SmallUnions(m: Meaning)
    requires IsMachine(m)
    ensures m(Or, 1, 2) == 3 && m(Or, 1, 3) == 3 && m(Or, 4, 1) == 5 && m(Or, 4, 2) == 6
  {
    assert Computes(m, Or);
    assert Bits(Or, 0, 1) == 1 && Bits(Or, 1, 0) == 1 && Bits(Or, 2, 0) == 2 && Bits(Or, 2, 1) == 3;
  }

  /** After `4 | 1` the two agree: the union leaves room for the next number. */
  lemma UnionFits(m: Meaning)
    requires IsMachine(m)
    ensures Value(m, Derived(OneThenNone(4, Or, 1), 1)) == Assigned(m, OneThenNone(4, Or, 1), 1) == 6
  {
    SmallUnions(m);
    AfterOneOperator(m, 4, Or, 1, 5, 6);
  }

  /** A position tag is worth the position, and there are no positions beyond a byte. */
  lemma PositionTag(m: Meaning, explicit: seq<Option<Chain>>, i: nat)
    requires i < |explicit|
    ensures Get(explicit, false, i).Some? <==> i < 256
    ensures Get(explicit, true, i).Some? <==> i < 256
    ensures i < 256 ==> Value(m, Get(explicit, false, i).value) == i
    ensures i < 256 ==> Get(explicit, true, i).value == Derived(explicit, i)
  {
  }

  /** Position tags are bytes and pairwise different; discriminant tags are the
      same as position tags when none is written explicitly. */
  lemma PositionTags(m: Meaning, explicit: seq<Option<Chain>>, i: nat, j: nat)
    requires i < j < |explicit| && j <= 255
    ensures Get(explicit, false, i) != Get(explicit, false, j)
    ensures Adds(m) && (forall k | 0 <= k <= j :: explicit[k].None?) ==> Value(m, Get(explicit, true, j).value) == j
  {
    if Adds(m) && forall k | 0 <= k <= j :: explicit[k].None? {
      Implicit(m, explicit, j);
      TightAgrees(m, explicit, j);
    }
  }

  lemma {:induction false} Implicit(m: Meaning, explicit: seq<Option<Chain>>, j: nat)
    requires j < |explicit| && forall k | 0 <= k <= j :: explicit[k].None?
    ensures Governing(explicit, j) == Chain(0, []) && Assigned(m, explicit, j) == j
  {
    if j > 0 {
      Implicit(m, explicit, j - 1);
    }
  }
}
