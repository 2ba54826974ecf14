/** The size walk behind `max_serialized_size`: what it returns, when, and what that says about bytes. */
module MaxSize {
  import opened Arithmetic
  import opened Bytes
  import opened Wrappers
  import opened Schema
  import opened Wire
  import opened Attainment
  import opened Charging
  import opened Extents

  datatype SizeError = Overflow | Recursive | MissingDefinition(declaration: Declaration)

  type SizeResult = Result<usize, SizeError>

  /** An unbounded total as a machine word, when it fits. */
  function Fit(n: nat): SizeResult {
    if n <= USIZE_MAX then Ok(n) else Err(Overflow)
  }

  function CheckedAdd(x: usize, y: usize): SizeResult {
    Fit(x + y)
  }

  function CheckedMul(x: usize, y: usize): SizeResult {
    Fit(x * y)
  }

  // ---- The walk as a function of the stack ----

  /** The walk of the program charges an enum once, whatever count it is given. */
  function Walk(s: Container, count: usize, d: Declaration, stack: seq<Declaration>): SizeResult
    requires count > 0
  {
    ChargedWalk(s, EnumOnce, count, d, stack)
  }

  /** The same walk for either way of charging: with `EveryCopy` the enum arm
      multiplies by the count as the other arms do. */
  function ChargedWalk(s: Container, charge: Charge, count: usize, d: Declaration, stack: seq<Declaration>): SizeResult
    requires count > 0
    decreases Unvisited(s, stack), 0, 0
  {
    if d in stack then Err(Recursive)
    else if d !in s.definitions then Err(MissingDefinition(d))
    else
      PushShrinks(s, stack, d);
      match s.definitions[d]
      case Primitive(size) => CheckedMul(size, count)
      case Sequence(width, _, end, elements) =>
        var sz :- if end == 0 then Ok(0) else ChargedWalk(s, charge, end, elements, stack + [d]);
        var each :- CheckedAdd(sz, width);
        CheckedMul(count, each)
      case Enum(tagWidth, variants) =>
        var max :- ChargedMax(s, charge, VariantTypes(variants), 0, stack + [d]);
        var each :- CheckedAdd(max, tagWidth);
        if charge.EnumOnce? then Ok(each) else CheckedMul(count, each)
      case Tuple(members) =>
        var sum :- ChargedSum(s, charge, members, 0, stack + [d]);
        CheckedMul(count, sum)
      case Struct(fields) =>
        var sum :- ChargedSum(s, charge, FieldTypes(fields), 0, stack + [d]);
        CheckedMul(count, sum)
  }

  /** The rest of the summing loop, from a running total. */
  function ChargedSum(s: Container, charge: Charge, ds: seq<Declaration>, sum: usize, stack: seq<Declaration>): SizeResult
    decreases Unvisited(s, stack), 1, |ds|
  {
    if ds == [] then Ok(sum)
    else
      var sz :- ChargedWalk(s, charge, 1, ds[0], stack);
      var sum' :- CheckedAdd(sum, sz);
      ChargedSum(s, charge, ds[1..], sum', stack)
  }

  /** The rest of the maximising loop, from a running maximum. */
  function ChargedMax(s: Container, charge: Charge, ds: seq<Declaration>, max: usize, stack: seq<Declaration>): SizeResult
    decreases Unvisited(s, stack), 1, |ds|
  {
    if ds == [] then Ok(max)
    else
      var sz :- ChargedWalk(s, charge, 1, ds[0], stack);
      ChargedMax(s, charge, ds[1..], Max(max, sz), stack)
  }

  function MaxSerializedSize(s: Container): SizeResult {
    Walk(s, 1, s.declaration, [])
  }

  // ---- The walk as the program runs it, on one shared stack ----

  method MaxSerializedSizeImpl(s: Container, count: usize, d: Declaration, stack: DeclStack) returns (r: SizeResult)
    requires count > 0
    modifies stack
    ensures r == Walk(s, count, d, old(stack.items))
    ensures r.Ok? ==> stack.items == old(stack.items)
    decreases Unvisited(s, stack.items), 0, 0
  {
    if d in stack.items {
      return Err(Recursive);
    }
    stack.Push(d);
    if d !in s.definitions {
      return Err(MissingDefinition(d));
    }
    PushShrinks(s, old(stack.items), d);
    var res: usize := 0;
    match s.definitions[d] {
      case Primitive(size) =>
        res :- CheckedMul(size, count);
      case Sequence(width, _, end, elements) =>
        var sz: usize := 0;
        if end > 0 {
          sz :- MaxSerializedSizeImpl(s, end, elements, stack);
        }
        var each :- CheckedAdd(sz, width);
        res :- CheckedMul(count, each);
      case Enum(tagWidth, variants) =>
        var max: usize := 0;
        var types := VariantTypes(variants);
        var i := 0;
        while i < |types|
          invariant 0 <= i <= |types|
          invariant stack.items == old(stack.items) + [d]
          invariant ChargedMax(s, EnumOnce, types, 0, stack.items) == ChargedMax(s, EnumOnce, types[i..], max, stack.items)
        {
          var sz :- MaxSerializedSizeImpl(s, 1, types[i], stack);
          max := Max(max, sz);
          assert types[i..][1..] == types[i + 1..];
          i := i + 1;
        }
        res :- CheckedAdd(max, tagWidth);
      case Tuple(members) =>
        res :- TupleSize(s, count, members, stack);
      case Struct(fields) =>
        res :- TupleSize(s, count, FieldTypes(fields), stack);
    }
    stack.Pop();
    return Ok(res);
  }

  method TupleSize(s: Container, count: usize, members: seq<Declaration>, stack: DeclStack) returns (r: SizeResult)
    requires count > 0
    modifies stack
    ensures r == Times(count, ChargedSum(s, EnumOnce, members, 0, old(stack.items)))
    ensures r.Ok? ==> stack.items == old(stack.items)
    decreases Unvisited(s, stack.items), 1, 0
  {
    var sum: usize := 0;
    var i := 0;
    while i < |members|
      invariant 0 <= i <= |members|
      invariant stack.items == old(stack.items)
      invariant ChargedSum(s, EnumOnce, members, 0, stack.items) == ChargedSum(s, EnumOnce, members[i..], sum, stack.items)
    {
      var sz :- MaxSerializedSizeImpl(s, 1, members[i], stack);
      sum :- CheckedAdd(sum, sz);
      assert members[i..][1..] == members[i + 1..];
      i := i + 1;
    }
    r := CheckedMul(count, sum);
  }

  method MaxSerializedSizeOf(s: Container) returns (r: SizeResult)
    ensures r == MaxSerializedSize(s)
  {
    var stack := new DeclStack();
    r := MaxSerializedSizeImpl(s, 1, s.declaration, stack);
  }

  // ---- Exactness: the stack and the checked arithmetic change nothing ----

  /** On a finite unfolding the walk returns the unbounded total whenever that
      total fits in a word, and otherwise reports overflow: no intermediate
      check rejects a total that fits, the stack never reports a false cycle,
      and handing the count down equals multiplying by it, except that an enum
      is charged once. */
  lemma {:induction false} WalkIsExtent(s: Container, charge: Charge, count: usize, d: Declaration, k: nat, stack: seq<Declaration>)
    requires count > 0
    requires Finite(s, d, k)
    requires forall x | x in stack :: !Finite(s, x, k)
    ensures ChargedWalk(s, charge, count, d, stack) == Fit(Copies(s, charge, count, d) * Extent(s, charge, d, k))
    decreases k, 1, 0
  {
    if Finite(s, d, k - 1) {
      forall x | x in stack ensures !Finite(s, x, k - 1) {
        if Finite(s, x, k - 1) { FiniteHigher(s, x, k - 1, k); }
      }
      WalkIsExtent(s, charge, count, d, k - 1, stack);
      ExtentHigher(s, charge, d, k - 1, k);
    } else {
      forall x | x in stack + [d] ensures !Finite(s, x, k - 1) {
        if Finite(s, x, k - 1) { FiniteHigher(s, x, k - 1, k); }
      }
      StepIsExtent(s, charge, count, d, k, stack);
    }
  }

  lemma {:induction false} StepIsExtent(s: Container, charge: Charge, count: usize, d: Declaration, k: nat, stack: seq<Declaration>)
    requires count > 0 && Finite(s, d, k) && d !in stack
    requires forall x | x in stack + [d] :: !Finite(s, x, k - 1)
    ensures ChargedWalk(s, charge, count, d, stack) == Fit(Copies(s, charge, count, d) * Extent(s, charge, d, k))
    decreases k, 0, 5
  {
    var def := s.definitions[d];
    if def.Sequence? {
      SequenceIsExtent(s, charge, count, d, k, stack);
    } else if def.Enum? {
      EnumIsExtent(s, charge, count, d, k, stack);
    } else if def.Primitive? {
      PrimitiveIsExtent(s, charge, count, d, k, stack);
    } else {
      TupleIsExtent(s, charge, count, d, k, stack);
    }
  }

  lemma PrimitiveIsExtent(s: Container, charge: Charge, count: usize, d: Declaration, k: nat, stack: seq<Declaration>)
    requires count > 0 && Finite(s, d, k) && d !in stack && s.definitions[d].Primitive?
    ensures ChargedWalk(s, charge, count, d, stack) == Fit(Copies(s, charge, count, d) * Extent(s, charge, d, k))
  {
  }

  /** Multiplying a total that has been checked already, for one copy or more. */
  function Times(count: usize, total: SizeResult): SizeResult {
    if total.Ok? then CheckedMul(count, total.value) else total
  }

  /** Checking a total before and after multiplying is checking the product. */
  lemma TimesFit(count: usize, total: nat)
    requires count > 0
    ensures Times(count, Fit(total)) == Fit(count * total)
  {
    MulMonotone(1, count, total, total);
  }

  lemma {:induction false} SequenceIsExtent(s: Container, charge: Charge, count: usize, d: Declaration, k: nat, stack: seq<Declaration>)
    requires count > 0 && Finite(s, d, k) && d !in stack && s.definitions[d].Sequence?
    requires forall x | x in stack + [d] :: !Finite(s, x, k - 1)
    ensures ChargedWalk(s, charge, count, d, stack) == Fit(Copies(s, charge, count, d) * Extent(s, charge, d, k))
    decreases k, 0, 0
  {
    var def := s.definitions[d];
    var e: nat := 0;
    if def.end > 0 {
      assert AllFinite(s, [def.elements], k - 1);
      WalkIsExtent(s, charge, def.end, def.elements, k - 1, stack + [d]);
      e := Copies(s, charge, def.end, def.elements) * Extent(s, charge, def.elements, k - 1);
    }
    assert Extent(s, charge, d, k) == def.lengthWidth + e;
    assert ChargedWalk(s, charge, count, d, stack) == Times(count, Fit(e + def.lengthWidth));
    TimesFit(count, def.lengthWidth + e);
  }

  lemma {:induction false} EnumIsExtent(s: Container, charge: Charge, count: usize, d: Declaration, k: nat, stack: seq<Declaration>)
    requires count > 0 && Finite(s, d, k) && d !in stack && s.definitions[d].Enum?
    requires forall x | x in stack + [d] :: !Finite(s, x, k - 1)
    ensures ChargedWalk(s, charge, count, d, stack) == Fit(Copies(s, charge, count, d) * Extent(s, charge, d, k))
    decreases k, 0, 0
  {
    var def := s.definitions[d];
    MaxIsExtent(s, charge, VariantTypes(def.variants), 0, k - 1, stack + [d]);
    var total := Extent(s, charge, d, k);
    assert ChargedWalk(s, charge, count, d, stack) == if charge.EnumOnce? then Fit(total) else Times(count, Fit(total));
    TimesFit(count, total);
  }

  lemma {:induction false} TupleIsExtent(s: Container, charge: Charge, count: usize, d: Declaration, k: nat, stack: seq<Declaration>)
    requires count > 0 && Finite(s, d, k) && d !in stack && (s.definitions[d].Tuple? || s.definitions[d].Struct?)
    requires forall x | x in stack + [d] :: !Finite(s, x, k - 1)
    ensures ChargedWalk(s, charge, count, d, stack) == Fit(Copies(s, charge, count, d) * Extent(s, charge, d, k))
    decreases k, 0, 0
  {
    var members := References(s.definitions[d]);
    SumIsExtent(s, charge, members, 0, k - 1, stack + [d]);
    var total := Extent(s, charge, d, k);
    assert total == SumExtent(s, charge, members, k - 1);
    assert ChargedWalk(s, charge, count, d, stack) == Times(count, Fit(total));
    TimesFit(count, total);
  }

  lemma {:induction false} OneIsExtent(s: Container, charge: Charge, d: Declaration, k: nat, stack: seq<Declaration>)
    requires Finite(s, d, k)
    requires forall x | x in stack :: !Finite(s, x, k)
    ensures ChargedWalk(s, charge, 1, d, stack) == Fit(Extent(s, charge, d, k))
    decreases k, 2, 0
  {
    WalkIsExtent(s, charge, 1, d, k, stack);
    assert Copies(s, charge, 1, d) == 1;
  }

  lemma {:induction false} SumIsExtent(s: Container, charge: Charge, ds: seq<Declaration>, sum: usize, k: nat, stack: seq<Declaration>)
    requires AllFinite(s, ds, k)
    requires forall x | x in stack :: !Finite(s, x, k)
    ensures ChargedSum(s, charge, ds, sum, stack) == Fit(sum + SumExtent(s, charge, ds, k))
    decreases k, 3, |ds|
  {
    if ds != [] {
      OneIsExtent(s, charge, ds[0], k, stack);
      var sz := ChargedWalk(s, charge, 1, ds[0], stack);
      if sz.Ok? && sum + sz.value <= USIZE_MAX {
        SumIsExtent(s, charge, ds[1..], sum + sz.value, k, stack);
      }
    }
  }

  lemma {:induction false} MaxIsExtent(s: Container, charge: Charge, ds: seq<Declaration>, max: usize, k: nat, stack: seq<Declaration>)
    requires AllFinite(s, ds, k)
    requires forall x | x in stack :: !Finite(s, x, k)
    ensures ChargedMax(s, charge, ds, max, stack) == Fit(Max(max, MaxExtent(s, charge, ds, k)))
    decreases k, 3, |ds|
  {
    if ds != [] {
      OneIsExtent(s, charge, ds[0], k, stack);
      var sz := ChargedWalk(s, charge, 1, ds[0], stack);
      if sz.Ok? {
        MaxIsExtent(s, charge, ds[1..], Max(max, sz.value), k, stack);
      }
    }
  }

  /** A walk that succeeds has met no cycle and no gap. */
  lemma {:induction false} OkIsFinite(s: Container, charge: Charge, count: usize, d: Declaration, stack: seq<Declaration>)
    requires count > 0 && ChargedWalk(s, charge, count, d, stack).Ok?
    ensures Finite(s, d, Unvisited(s, stack))
    decreases Unvisited(s, stack), 0, 0
  {
    PushShrinks(s, stack, d);
    var k, k' := Unvisited(s, stack), Unvisited(s, stack + [d]);
    match s.definitions[d] {
      case Primitive(_) =>
      case Sequence(_, _, end, elements) =>
        if end > 0 {
          OkIsFinite(s, charge, end, elements, stack + [d]);
          assert AllFinite(s, [elements], k');
        }
      case Enum(_, variants) => MaxOkIsFinite(s, charge, VariantTypes(variants), 0, stack + [d]);
      case Tuple(members) => SumOkIsFinite(s, charge, members, 0, stack + [d]);
      case Struct(fields) => SumOkIsFinite(s, charge, FieldTypes(fields), 0, stack + [d]);
    }
    AllFiniteHigher(s, Parts(s.definitions[d]), k', k - 1);
  }

  lemma {:induction false} SumOkIsFinite(s: Container, charge: Charge, ds: seq<Declaration>, sum: usize, stack: seq<Declaration>)
    requires ChargedSum(s, charge, ds, sum, stack).Ok?
    ensures AllFinite(s, ds, Unvisited(s, stack))
    decreases Unvisited(s, stack), 1, |ds|
  {
    if ds != [] {
      OkIsFinite(s, charge, 1, ds[0], stack);
      SumOkIsFinite(s, charge, ds[1..], CheckedAdd(sum, ChargedWalk(s, charge, 1, ds[0], stack).value).value, stack);
    }
  }

  lemma {:induction false} MaxOkIsFinite(s: Container, charge: Charge, ds: seq<Declaration>, max: usize, stack: seq<Declaration>)
    requires ChargedMax(s, charge, ds, max, stack).Ok?
    ensures AllFinite(s, ds, Unvisited(s, stack))
    decreases Unvisited(s, stack), 1, |ds|
  {
    if ds != [] {
      OkIsFinite(s, charge, 1, ds[0], stack);
      MaxOkIsFinite(s, charge, ds[1..], Max(max, ChargedWalk(s, charge, 1, ds[0], stack).value), stack);
    }
  }

  /** `Ok(n)` exactly when the unfolding is finite, its unbounded extent is `n`
      and `n` fits in a word; on a finite unfolding the only error is overflow. */
  lemma ChargedSizeExact(s: Container, charge: Charge, d: Declaration, n: usize)
    ensures ChargedWalk(s, charge, 1, d, []) == Ok(n) <==> exists k :: Finite(s, d, k) && Extent(s, charge, d, k) == n
    ensures forall k | Finite(s, d, k) :: ChargedWalk(s, charge, 1, d, []) == Fit(Extent(s, charge, d, k))
  {
    var k := Unvisited(s, []);
    if ChargedWalk(s, charge, 1, d, []).Ok? {
      OkIsFinite(s, charge, 1, d, []);
      OneIsExtent(s, charge, d, k, []);
    }
    forall l | Finite(s, d, l) ensures ChargedWalk(s, charge, 1, d, []) == Fit(Extent(s, charge, d, l)) {
      OneIsExtent(s, charge, d, l, []);
    }
  }

  lemma MaxSizeExact(s: Container, d: Declaration, n: usize)
    ensures Walk(s, 1, d, []) == Ok(n) <==> exists k :: Finite(s, d, k) && Extent(s, EnumOnce, d, k) == n
    ensures forall k | Finite(s, d, k) :: Walk(s, 1, d, []) == Fit(Extent(s, EnumOnce, d, k))
  {
    ChargedSizeExact(s, EnumOnce, d, n);
  }

  /** A missing declaration that is reported really is reachable and missing. */
  lemma {:induction false} MissingIsReachable(s: Container, count: usize, d: Declaration, stack: seq<Declaration>)
    requires count > 0 && Walk(s, count, d, stack).Err? && Walk(s, count, d, stack).error.MissingDefinition?
    ensures var x := Walk(s, count, d, stack).error.declaration;
            x !in s.definitions && Reaches(s, Contributing, d, x)
    decreases Unvisited(s, stack), 0, 0
  {
    ReachesSelf(s, Contributing, d);
    if d in s.definitions {
      var x := Walk(s, count, d, stack).error.declaration;
      PushShrinks(s, stack, d);
      match s.definitions[d] {
        case Sequence(_, _, end, elements) =>
          MissingIsReachable(s, end, elements, stack + [d]);
          ReachesStep(s, Contributing, d, elements, x);
        case Enum(_, variants) => MissingInRow(s, d, VariantTypes(variants), 0, stack + [d]);
        case Tuple(members) => MissingInRow(s, d, members, 0, stack + [d]);
        case Struct(fields) => MissingInRow(s, d, FieldTypes(fields), 0, stack + [d]);
      }
    }
  }

  ghost predicate MissesBelow(s: Container, owner: Declaration, r: SizeResult) {
    r.Err? && r.error.MissingDefinition? ==>
      r.error.declaration !in s.definitions && Reaches(s, Contributing, owner, r.error.declaration)
  }

  lemma {:induction false} MissingInRow(s: Container, owner: Declaration, ds: seq<Declaration>, acc: usize, stack: seq<Declaration>)
    requires forall d | d in ds :: d in Next(s, Contributing, owner)
    ensures MissesBelow(s, owner, ChargedSum(s, EnumOnce, ds, acc, stack))
    ensures MissesBelow(s, owner, ChargedMax(s, EnumOnce, ds, acc, stack))
    decreases Unvisited(s, stack), 1, |ds|
  {
    if ds != [] {
      var sz := Walk(s, 1, ds[0], stack);
      if sz.Err? {
        if sz.error.MissingDefinition? {
          MissingIsReachable(s, 1, ds[0], stack);
          ReachesStep(s, Contributing, owner, ds[0], sz.error.declaration);
        }
      } else {
        MissingInRow(s, owner, ds[1..], Max(acc, sz.value), stack);
        if acc + sz.value <= USIZE_MAX {
          MissingInRow(s, owner, ds[1..], acc + sz.value, stack);
        }
      }
    }
  }

  /** A contributing cycle through `x`. */
  ghost predicate Loops(s: Container, x: Declaration) {
    exists y :: y in Next(s, Contributing, x) && Reaches(s, Contributing, y, x)
  }

  ghost predicate MeetsLoop(s: Container, d: Declaration) {
    exists x :: Reaches(s, Contributing, d, x) && Loops(s, x)
  }

  ghost predicate Complete(s: Container, d: Declaration) {
    forall x | Reaches(s, Contributing, d, x) :: x in s.definitions
  }

  ghost predicate Touches(s: Container, d: Declaration, stack: seq<Declaration>) {
    exists z :: z in stack && Reaches(s, Contributing, d, z)
  }

  /** A reported recursion comes from a cycle, or leads back to the stack it was given. */
  lemma {:induction false} RecursionIsLoop(s: Container, count: usize, d: Declaration, stack: seq<Declaration>)
    requires count > 0 && Walk(s, count, d, stack) == Err(Recursive)
    ensures Touches(s, d, stack) || MeetsLoop(s, d)
    decreases Unvisited(s, stack), 0, 0
  {
    ReachesSelf(s, Contributing, d);
    if d !in stack {
      PushShrinks(s, stack, d);
      match s.definitions[d] {
        case Sequence(_, _, end, elements) =>
          RecursionIsLoop(s, end, elements, stack + [d]);
          LoopFromPart(s, d, elements, stack);
        case Enum(_, variants) => RecursionInRow(s, d, VariantTypes(variants), 0, stack);
        case Tuple(members) => RecursionInRow(s, d, members, 0, stack);
        case Struct(fields) => RecursionInRow(s, d, FieldTypes(fields), 0, stack);
      }
    }
  }

  lemma {:induction false} RecursionInRow(s: Container, owner: Declaration, ds: seq<Declaration>, acc: usize, stack: seq<Declaration>)
    requires forall d | d in ds :: d in Next(s, Contributing, owner)
    ensures ChargedSum(s, EnumOnce, ds, acc, stack + [owner]) == Err(Recursive) || ChargedMax(s, EnumOnce, ds, acc, stack + [owner]) == Err(Recursive)
            ==> Touches(s, owner, stack) || MeetsLoop(s, owner)
    decreases Unvisited(s, stack + [owner]), 1, |ds|
  {
    if ds != [] {
      var sz := Walk(s, 1, ds[0], stack + [owner]);
      if sz == Err(Recursive) {
        RecursionIsLoop(s, 1, ds[0], stack + [owner]);
        LoopFromPart(s, owner, ds[0], stack);
      } else if sz.Ok? {
        RecursionInRow(s, owner, ds[1..], Max(acc, sz.value), stack);
        if acc + sz.value <= USIZE_MAX {
          RecursionInRow(s, owner, ds[1..], acc + sz.value, stack);
        }
      }
    }
  }

  lemma LoopFromPart(s: Container, d: Declaration, c: Declaration, stack: seq<Declaration>)
    requires c in Next(s, Contributing, d)
    requires Touches(s, c, stack + [d]) || MeetsLoop(s, c)
    ensures Touches(s, d, stack) || MeetsLoop(s, d)
  {
    if Touches(s, c, stack + [d]) {
      var z :| z in stack + [d] && Reaches(s, Contributing, c, z);
      ReachesStep(s, Contributing, d, c, z);
      if z == d {
        ReachesSelf(s, Contributing, d);
        assert Loops(s, d);
      } else {
        assert z in stack;
      }
    } else {
      var x :| Reaches(s, Contributing, c, x) && Loops(s, x);
      ReachesStep(s, Contributing, d, c, x);
    }
  }

  /** A finite unfolding meets no cycle. */
  lemma {:induction false} FiniteHasNoLoop(s: Container, x: Declaration, k: nat)
    requires Finite(s, x, k)
    ensures !Loops(s, x)
    decreases k
  {
    if Loops(s, x) {
      var y :| y in Next(s, Contributing, x) && Reaches(s, Contributing, y, x);
      assert Finite(s, y, k - 1);
      FiniteBelow(s, y, x, k - 1);
      FiniteHasNoLoop(s, x, k - 1);
    }
  }

  lemma FiniteIsAcyclic(s: Container, d: Declaration, k: nat)
    requires Finite(s, d, k)
    ensures !MeetsLoop(s, d) && Complete(s, d)
  {
    forall x | Reaches(s, Contributing, d, x) ensures x in s.definitions && !Loops(s, x) {
      FiniteBelow(s, d, x, k);
      FiniteHasNoLoop(s, x, k);
    }
  }

  /** What each verdict means: success rules out cycles and gaps, a reported
      cycle exists, and a reported gap is a reachable undefined declaration. */
  lemma Verdict(s: Container, d: Declaration)
    ensures var r := Walk(s, 1, d, []);
            && (r.Ok? ==> !MeetsLoop(s, d) && Complete(s, d))
            && (r == Err(Recursive) ==> MeetsLoop(s, d))
            && (r.Err? && r.error.MissingDefinition? ==>
                  r.error.declaration !in s.definitions && Reaches(s, Contributing, d, r.error.declaration))
  {
    var r := Walk(s, 1, d, []);
    if r.Ok? {
      OkIsFinite(s, EnumOnce, 1, d, []);
      FiniteIsAcyclic(s, d, Unvisited(s, []));
    } else if r.error.Recursive? {
      RecursionIsLoop(s, 1, d, []);
    } else if r.error.MissingDefinition? {
      MissingIsReachable(s, 1, d, []);
    }
  }

  /** Without cycles and gaps a declaration unfolds finitely, along every path
      clear of the stack. */
  lemma {:induction false} AcyclicUnfolds(s: Container, d: Declaration, stack: seq<Declaration>)
    requires !MeetsLoop(s, d) && Complete(s, d) && !Touches(s, d, stack)
    ensures Finite(s, d, Unvisited(s, stack))
    decreases Unvisited(s, stack)
  {
    ReachesSelf(s, Contributing, d);
    PushShrinks(s, stack, d);
    var k, k' := Unvisited(s, stack), Unvisited(s, stack + [d]);
    forall c | c in Parts(s.definitions[d]) ensures Finite(s, c, k - 1) {
      assert c in Next(s, Contributing, d);
      if Touches(s, c, stack + [d]) || MeetsLoop(s, c) {
        LoopFromPart(s, d, c, stack);
      }
      forall x | Reaches(s, Contributing, c, x) ensures x in s.definitions {
        ReachesStep(s, Contributing, d, c, x);
      }
      AcyclicUnfolds(s, c, stack + [d]);
      FiniteHigher(s, c, k', k - 1);
    }
  }

  /** Unfolding finitely is meeting no cycle and no gap, and then the number of
      definitions is height enough. */
  lemma FiniteIffAcyclic(s: Container, d: Declaration)
    ensures Finite(s, d, Unvisited(s, [])) <==> !MeetsLoop(s, d) && Complete(s, d)
    ensures forall k | Finite(s, d, k) :: Finite(s, d, Unvisited(s, []))
  {
    forall k | Finite(s, d, k) ensures !MeetsLoop(s, d) && Complete(s, d) {
      FiniteIsAcyclic(s, d, k);
    }
    if !MeetsLoop(s, d) && Complete(s, d) {
      AcyclicUnfolds(s, d, []);
    }
  }

  /** On an acyclic and complete declaration the walk returns the total size,
      and overflow exactly when that total exceeds a word. */
  lemma AcyclicSize(s: Container, d: Declaration)
    requires !MeetsLoop(s, d) && Complete(s, d)
    ensures Finite(s, d, Unvisited(s, []))
    ensures Walk(s, 1, d, []) == Fit(Extent(s, EnumOnce, d, Unvisited(s, [])))
  {
    AcyclicUnfolds(s, d, []);
    MaxSizeExact(s, d, 0);
  }

  // ---- What the returned number says about bytes ----

  /** No described byte string is longer than the returned size. */
  ghost predicate IsBound(s: Container, d: Declaration, n: nat) {
    forall b | Describes(s, d, b) :: |b| <= n
  }

  /** Some described byte string has exactly the returned size. */
  ghost predicate IsAttained(s: Container, d: Declaration, n: nat) {
    exists b :: Describes(s, d, b) && |b| == n
  }

  /** Charging enums once undercounts the declaration itself. */
  ghost predicate Undercharges(s: Container, d: Declaration) {
    exists k :: UnderchargedAt(s, d, k)
  }

  ghost predicate UnderchargedAt(s: Container, d: Declaration, k: nat) {
    Finite(s, d, k) && Undercharged(s, d, k)
  }

  lemma UnderchargesIffLess(s: Container, d: Declaration, k: nat)
    requires Finite(s, d, k)
    ensures Undercharges(s, d) <==> Extent(s, EnumOnce, d, k) < Extent(s, EveryCopy, d, k)
  {
    UnderchargedIffLess(s, d, k);
    if Undercharges(s, d) {
      var l :| UnderchargedAt(s, d, l);
      UnderchargedIffLess(s, d, l);
      ExtentUnique(s, EnumOnce, d, k, l);
      ExtentUnique(s, EveryCopy, d, k, l);
    }
    if Undercharged(s, d, k) {
      assert UnderchargedAt(s, d, k);
    }
  }

  /** The full size, every copy of an enum counted, bounds what is described. */
  lemma FullSizeBounds(s: Container, d: Declaration, k: nat)
    requires Finite(s, d, k)
    ensures IsBound(s, d, Extent(s, EveryCopy, d, k))
  {
    forall b | Describes(s, d, b) ensures |b| <= Extent(s, EveryCopy, d, k) {
      var h :| Matches(s, d, b, h);
      ExtentBounds(s, d, b, h, k);
    }
  }

  /** The returned size is an upper bound exactly when it does not undercount
      the declaration. */
  lemma BoundIffNotUndercharged(s: Container, d: Declaration, n: usize)
    requires Walk(s, 1, d, []) == Ok(n) && InhabitedBelow(s, d)
    ensures IsBound(s, d, n) <==> !Undercharges(s, d)
  {
    if Undercharges(s, d) {
      var k :| UnderchargedAt(s, d, k);
      UnderchargesIffLess(s, d, k);
      MaxSizeExact(s, d, n);
      var b := ExtentAttained(s, d, k);
      assert Describes(s, d, b);
    } else {
      UpperBound(s, d, n);
    }
  }

  /** The upper bound holds of uninhabited schemas as well. */
  lemma UpperBound(s: Container, d: Declaration, n: usize)
    requires Walk(s, 1, d, []) == Ok(n) && !Undercharges(s, d)
    ensures IsBound(s, d, n)
  {
    var k := FullSize(s, d, n);
    FullSizeBounds(s, d, k);
  }

  lemma FullSize(s: Container, d: Declaration, n: usize) returns (k: nat)
    requires Walk(s, 1, d, []) == Ok(n) && !Undercharges(s, d)
    ensures Finite(s, d, k) && Extent(s, EveryCopy, d, k) == n
  {
    MaxSizeExact(s, d, n);
    k :| Finite(s, d, k) && Extent(s, EnumOnce, d, k) == n;
    UnderchargesIffLess(s, d, k);
    EnumOnceIsLess(s, d, k);
  }

  /** The bound is the best possible one. */
  lemma Tight(s: Container, d: Declaration, n: usize)
    requires Walk(s, 1, d, []) == Ok(n) && !Undercharges(s, d) && InhabitedBelow(s, d)
    ensures IsAttained(s, d, n)
  {
    var k := FullSize(s, d, n);
    var b := ExtentAttained(s, d, k);
    assert Describes(s, d, b);
  }

  /** With an enum arm that multiplies by its count the bound is unconditional,
      and the best possible one wherever the largest cases exist. */
  lemma EveryCopyBounds(s: Container, d: Declaration, n: usize)
    requires ChargedWalk(s, EveryCopy, 1, d, []) == Ok(n)
    ensures IsBound(s, d, n)
    ensures InhabitedBelow(s, d) ==> IsAttained(s, d, n)
  {
    ChargedSizeExact(s, EveryCopy, d, n);
    var k :| Finite(s, d, k) && Extent(s, EveryCopy, d, k) == n;
    FullSizeBounds(s, d, k);
    if InhabitedBelow(s, d) {
      var b := ExtentAttained(s, d, k);
      assert Describes(s, d, b);
    }
  }

  /** Undercounting takes an enum row somewhere. */
  lemma UnderchargeHasEnumRow(s: Container, d: Declaration)
    requires Undercharges(s, d)
    ensures HasEnumRow(s, d)
  {
    var k :| UnderchargedAt(s, d, k);
    UnderchargesIffLess(s, d, k);
    if !HasEnumRow(s, d) {
      EnumOnceIsExact(s, d, k);
    }
  }

  /** The returned size bounds every contributing declaration. */
  ghost predicate BoundsThroughout(s: Container, d: Declaration) {
    forall x, n | Reaches(s, Contributing, d, x) && Walk(s, 1, x, []) == Ok(n) :: IsBound(s, x, n)
  }

  /** Exactly when the walk's answers bound the wire: on an inhabited schema
      the answers are upper bounds throughout if and only if no contributing
      sequence of two or more has a non-empty enum as its element. */
  lemma BoundsIffNoEnumRow(s: Container, d: Declaration)
    requires Walk(s, 1, d, []).Ok? && InhabitedBelow(s, d)
    ensures BoundsThroughout(s, d) <==> !HasEnumRow(s, d)
  {
    if HasEnumRow(s, d) {
      var x :| Reaches(s, Contributing, d, x) && IsEnumRow(s, x);
      EnumRowBreaksBound(s, d, x);
    } else {
      forall x, n | Reaches(s, Contributing, d, x) && Walk(s, 1, x, []) == Ok(n) ensures IsBound(s, x, n) {
        if HasEnumRow(s, x) {
          var y :| Reaches(s, Contributing, x, y) && IsEnumRow(s, y);
          ReachesTransitive(s, Contributing, d, x, y);
        }
        if Undercharges(s, x) {
          UnderchargeHasEnumRow(s, x);
        }
        UpperBound(s, x, n);
      }
    }
  }

  lemma EnumRowBreaksBound(s: Container, d: Declaration, x: Declaration)
    requires Walk(s, 1, d, []).Ok? && InhabitedBelow(s, d)
    requires Reaches(s, Contributing, d, x) && IsEnumRow(s, x)
    ensures Walk(s, 1, x, []).Ok? && !IsBound(s, x, Walk(s, 1, x, []).value)
  {
    var total := Walk(s, 1, d, []).value;
    MaxSizeExact(s, d, total);
    var k :| Finite(s, d, k) && Extent(s, EnumOnce, d, k) == total;
    ExtentBelow(s, EnumOnce, d, x, k);
    var n := Extent(s, EnumOnce, x, k);
    MaxSizeExact(s, x, n);
    EnumRowFallsShort(s, x, k);
    forall y ensures InhabitedAt(s, x, y) {
      if Reaches(s, Contributing, x, y) {
        ReachesTransitive(s, Contributing, d, x, y);
        assert InhabitedAt(s, d, y);
      }
    }
    var b := ExtentAttained(s, x, k);
    assert Describes(s, x, b) && |b| > n;
  }

  // ---- The smallest standard schema on which the returned size is not a bound ----

  /** The schema generated for a vector of optional 64-bit integers. */
  function VecOptionU64(): Container {
    Container("Vec<Option<u64>>",
              map["Vec<Option<u64>>" := Sequence(DEFAULT_LENGTH_WIDTH, 0, U32_MAX, "Option<u64>"),
                  "Option<u64>" := Enum(1, [(0, "None", "()"), (1, "Some", "u64")]),
                  "u64" := Primitive(8),
                  "()" := Primitive(0)])
  }

  lemma VecOptionU64Size()
    ensures MaxSerializedSize(VecOptionU64()) == Ok(13)
  {
    var s := VecOptionU64();
    var v, o := "Vec<Option<u64>>", "Option<u64>";
    assert Walk(s, 1, "()", [v, o]) == Ok(0);
    assert Walk(s, 1, "u64", [v, o]) == Ok(8);
    var types := VariantTypes(s.definitions[o].variants);
    assert types == ["()", "u64"] && types[1..] == ["u64"] && types[1..][1..] == [];
    assert ChargedMax(s, EnumOnce, types[1..], 0, [v, o]) == Ok(8);
    assert ChargedMax(s, EnumOnce, types, 0, [v, o]) == Ok(8);
    assert [v] + [o] == [v, o];
    assert Walk(s, U32_MAX, o, [v]) == Ok(9);
    assert [] + [v] == [v];
  }

  /** A present option of a primitive, in any schema that defines it this way. */
  lemma SomeItem(s: Container, o: Declaration, u: Declaration) returns (some: seq<byte>)
    requires o in s.definitions && u in s.definitions
    requires s.definitions[o] == Enum(1, [(0, "None", "()"), (1, "Some", u)])
    requires s.definitions[u] == Primitive(8)
    ensures Matches(s, o, some, 2) && |some| == 9
  {
    var variants := s.definitions[o].variants;
    assert Matches(s, u, Zeros(8), 1);
    VariantOf(s, 1, variants[1], Zeros(8), 1);
    some := TagBytes(1, 1) + Zeros(8);
    assert IsVariant(s, 1, variants[1], some, 2);
  }

  /** A vector of `n` equal items. */
  lemma ItemRow(s: Container, v: Declaration, o: Declaration, item: seq<byte>, n: u32, h: nat) returns (b: seq<byte>)
    requires v in s.definitions && Matches(s, o, item, h)
    requires s.definitions[v] == Sequence(DEFAULT_LENGTH_WIDTH, 0, U32_MAX, o)
    ensures Describes(s, v, b) && |b| == 4 + n * |item|
  {
    Pow256Values();
    var body := TimesAttained(s, o, n, item, h);
    b := LittleEndian(4, n) + body;
    SequenceOf(s, 4, n, o, body, h);
    assert IsSequence(s, 4, n, o, b, h + 1);
    assert Matches(s, v, b, h + 1);
  }

  /** Every permitted number of present elements is described, so the returned
      13 is exceeded from two elements on. */
  lemma VecOptionU64Longer(n: u32) returns (b: seq<byte>)
    ensures Describes(VecOptionU64(), "Vec<Option<u64>>", b) && |b| == 4 + 9 * n
    ensures n >= 2 ==> !IsBound(VecOptionU64(), "Vec<Option<u64>>", 13)
  {
    var some := SomeItem(VecOptionU64(), "Option<u64>", "u64");
    b := ItemRow(VecOptionU64(), "Vec<Option<u64>>", "Option<u64>", some, n, 2);
  }

  // ---- An enum row that does not spoil the bound ----

  /** A choice between 200 bytes and an array of two one-byte enums. */
  function WideChoice(): Container {
    Container("choice",
              map["choice" := Enum(1, [(0, "Wide", "wide"), (1, "Row", "row")]),
                  "wide" := Primitive(200),
                  "row" := Sequence(ARRAY_LENGTH_WIDTH, 2, 2, "flag"),
                  "flag" := Enum(1, [(0, "Only", "()")]),
                  "()" := Primitive(0)])
  }

  /** The sizes of such a choice, in any schema that defines it this way. */
  lemma WideExtents(s: Container, choice: Declaration, wide: Declaration, row: Declaration, flag: Declaration, unit: Declaration)
    requires choice in s.definitions && wide in s.definitions && row in s.definitions && flag in s.definitions && unit in s.definitions
    requires s.definitions[choice] == Enum(1, [(0, "Wide", wide), (1, "Row", row)])
    requires s.definitions[wide] == Primitive(200)
    requires s.definitions[row] == Sequence(ARRAY_LENGTH_WIDTH, 2, 2, flag)
    requires s.definitions[flag] == Enum(1, [(0, "Only", unit)])
    requires s.definitions[unit] == Primitive(0)
    ensures Finite(s, choice, 4) && Extent(s, EveryCopy, choice, 4) == 201 && Extent(s, EnumOnce, choice, 4) == 201
    ensures IsEnumRow(s, row)
  {
    var flags, types := [unit], [wide, row];
    assert VariantTypes(s.definitions[flag].variants) == flags && flags[1..] == [];
    assert VariantTypes(s.definitions[choice].variants) == types && types[1..] == [row] && [row][1..] == [];
    assert Finite(s, unit, 1) && AllFinite(s, flags, 1) && Finite(s, flag, 2) && AllFinite(s, [flag], 2);
    forall charge: Charge ensures Extent(s, charge, flag, 2) == 1 {
      assert MaxExtent(s, charge, flags[1..], 1) == 0;
      assert MaxExtent(s, charge, flags, 1) == 0;
    }
    assert Finite(s, row, 3) && Finite(s, wide, 3) && AllFinite(s, types, 3) && AllFinite(s, [row], 3);
    forall charge: Charge ensures Extent(s, charge, choice, 4) == 201 {
      assert Extent(s, charge, row, 3) <= 2 && Extent(s, charge, wide, 3) == 200;
      assert MaxExtent(s, charge, types[1..], 3) <= 2;
      assert MaxExtent(s, charge, types, 3) == 200;
    }
    assert IsEnum(s, flag) && Extent(s, EveryCopy, flag, 2) > 0;
  }

  /** The row is undercounted, but the wide variant covers for it. */
  lemma WideChoiceIsBounded()
    ensures HasEnumRow(WideChoice(), "choice") && !Undercharges(WideChoice(), "choice")
    ensures MaxSerializedSize(WideChoice()) == Ok(201) && IsBound(WideChoice(), "choice", 201)
  {
    var s := WideChoice();
    WideExtents(s, "choice", "wide", "row", "flag", "()");
    MaxSizeExact(s, "choice", 201);
    UnderchargesIffLess(s, "choice", 4);
    UpperBound(s, "choice", 201);
    RowInChoice(s);
  }

  lemma RowInChoice(s: Container)
    requires s == WideChoice() && IsEnumRow(s, "row")
    ensures HasEnumRow(s, "choice")
  {
    var types := VariantTypes(s.definitions["choice"].variants);
    assert types[1] == "row";
    ReachesSelf(s, Contributing, "row");
    ReachesStep(s, Contributing, "choice", "row", "row");
  }
}
