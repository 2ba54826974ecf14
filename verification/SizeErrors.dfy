/** Which error the size walk reports, on every schema: the first obstacle among the
    contributing members in the order of their declaration. */
module SizeErrors {
  import opened Bytes
  import opened Wrappers
  import opened Schema
  import opened Extents
  import opened MaxSize

  // ---- Being finite at any height ----

  ghost predicate IsFinite(s: Container, d: Declaration) {
    exists k: nat :: Finite(s, d, k)
  }

  /** The size of a finite declaration in unbounded arithmetic. */
  ghost function Total(s: Container, charge: Charge, d: Declaration): nat
    requires IsFinite(s, d)
  {
    var k: nat :| Finite(s, d, k);
    Extent(s, charge, d, k)
  }

  lemma TotalIsExtent(s: Container, charge: Charge, d: Declaration, k: nat)
    requires Finite(s, d, k)
    ensures Total(s, charge, d) == Extent(s, charge, d, k)
  {
    var l: nat :| Finite(s, d, l) && Total(s, charge, d) == Extent(s, charge, d, l);
    if k <= l {
      ExtentHigher(s, charge, d, k, l);
    } else {
      ExtentHigher(s, charge, d, l, k);
    }
  }

  ghost predicate AllIsFinite(s: Container, ds: seq<Declaration>) {
    forall d | d in ds :: IsFinite(s, d)
  }

  ghost function TotalOf(s: Container, charge: Charge, ds: seq<Declaration>): nat
    requires AllIsFinite(s, ds)
  {
    if ds == [] then 0 else Total(s, charge, ds[0]) + TotalOf(s, charge, ds[1..])
  }

  lemma {:induction false} CommonHeight(s: Container, ds: seq<Declaration>) returns (k: nat)
    requires AllIsFinite(s, ds)
    ensures AllFinite(s, ds, k)
  {
    k := 0;
    if ds != [] {
      assert IsFinite(s, ds[0]);
      var first: nat :| Finite(s, ds[0], first);
      var rest := CommonHeight(s, ds[1..]);
      k := Max(first, rest);
      FiniteHigher(s, ds[0], first, k);
      AllFiniteHigher(s, ds[1..], rest, k);
      assert forall d :: d in ds <==> d == ds[0] || d in ds[1..];
    }
  }

  lemma FinitePartsMakeFinite(s: Container, d: Declaration)
    requires d in s.definitions && AllIsFinite(s, Parts(s.definitions[d]))
    ensures IsFinite(s, d)
  {
    var k := CommonHeight(s, Parts(s.definitions[d]));
    assert Finite(s, d, k + 1);
  }

  // ---- The first obstacle ----

  /** The first member that is not finite or takes the total over a word: those
      before it are finite and together with `sum` within a word. */
  ghost function BreakingMember(s: Container, charge: Charge, ds: seq<Declaration>, sum: usize): (j: nat)
    ensures j <= |ds| && AllIsFinite(s, ds[..j]) && sum + TotalOf(s, charge, ds[..j]) <= USIZE_MAX
    ensures j < |ds| && IsFinite(s, ds[j]) ==> sum + TotalOf(s, charge, ds[..j]) + Total(s, charge, ds[j]) > USIZE_MAX
  {
    if ds == [] then 0
    else if !IsFinite(s, ds[0]) || sum + Total(s, charge, ds[0]) > USIZE_MAX then
      assert ds[..0] == [];
      0
    else
      var j := BreakingMember(s, charge, ds[1..], sum + Total(s, charge, ds[0]));
      assert ds[..j + 1][0] == ds[0] && ds[..j + 1][1..] == ds[1..][..j];
      assert forall d :: d in ds[..j + 1] <==> d == ds[0] || d in ds[1..][..j];
      j + 1
  }

  /** The first variant that is not finite or is longer than a word. */
  ghost function BreakingVariant(s: Container, charge: Charge, ds: seq<Declaration>): (j: nat)
    ensures j <= |ds| && forall d | d in ds[..j] :: IsFinite(s, d) && Total(s, charge, d) <= USIZE_MAX
    ensures j < |ds| && IsFinite(s, ds[j]) ==> Total(s, charge, ds[j]) > USIZE_MAX
  {
    if ds == [] || !IsFinite(s, ds[0]) || Total(s, charge, ds[0]) > USIZE_MAX then 0
    else
      var j := BreakingVariant(s, charge, ds[1..]);
      assert ds[..j + 1] == [ds[0]] + ds[1..][..j];
      j + 1
  }

  /** The walk of `d` for `count` copies, with `path` above it, stops with `e`: at once
      at an ancestor or at a gap; for a finite declaration if its size exceeds a
      word; and otherwise where its breaking member stops. */
  ghost predicate Stops(s: Container, charge: Charge, count: nat, d: Declaration, path: seq<Declaration>, e: SizeError)
    decreases Unvisited(s, path), 0
  {
    if d in path then e == Recursive
    else if d !in s.definitions then e == MissingDefinition(d)
    else if IsFinite(s, d) then e == Overflow && Copies(s, charge, count, d) * Total(s, charge, d) > USIZE_MAX
    else
      PushShrinks(s, path, d);
      match s.definitions[d]
      case Primitive(_) => false
      case Sequence(_, _, end, elements) => Stops(s, charge, end, elements, path + [d], e)
      case Enum(_, variants) =>
        StopsAt(s, charge, VariantTypes(variants), BreakingVariant(s, charge, VariantTypes(variants)), path + [d], e)
      case Tuple(members) => StopsAt(s, charge, members, BreakingMember(s, charge, members, 0), path + [d], e)
      case Struct(fields) =>
        StopsAt(s, charge, FieldTypes(fields), BreakingMember(s, charge, FieldTypes(fields), 0), path + [d], e)
  }

  /** At its breaking member a row overflows, if the member is finite, or stops as the member does. */
  ghost predicate StopsAt(s: Container, charge: Charge, ds: seq<Declaration>, j: nat, path: seq<Declaration>, e: SizeError)
    decreases Unvisited(s, path), 1
  {
    j < |ds| && if IsFinite(s, ds[j]) then e == Overflow else Stops(s, charge, 1, ds[j], path, e)
  }

  // ---- Every error of the walk is the first obstacle, and the other way round ----

  /** No declaration on the stack is finite, as none is that an infinite one is below. */
  ghost predicate IsClear(s: Container, stack: seq<Declaration>) {
    forall x | x in stack :: !IsFinite(s, x)
  }

  lemma FiniteWalk(s: Container, charge: Charge, count: usize, d: Declaration, stack: seq<Declaration>)
    requires count > 0 && IsFinite(s, d) && IsClear(s, stack)
    ensures d !in stack && ChargedWalk(s, charge, count, d, stack) == Fit(Copies(s, charge, count, d) * Total(s, charge, d))
  {
    var k: nat :| Finite(s, d, k);
    forall x | x in stack ensures !Finite(s, x, k) {
      assert !IsFinite(s, x);
    }
    WalkIsExtent(s, charge, count, d, k, stack);
    TotalIsExtent(s, charge, d, k);
  }

  lemma OneFiniteWalk(s: Container, charge: Charge, d: Declaration, stack: seq<Declaration>)
    requires IsFinite(s, d) && IsClear(s, stack)
    ensures ChargedWalk(s, charge, 1, d, stack) == Fit(Total(s, charge, d))
  {
    FiniteWalk(s, charge, 1, d, stack);
    assert Copies(s, charge, 1, d) == 1;
  }

  lemma {:induction false} ErrorIsFirstObstacle(s: Container, charge: Charge, count: usize, d: Declaration, stack: seq<Declaration>, e: SizeError)
    requires count > 0 && IsClear(s, stack)
    ensures ChargedWalk(s, charge, count, d, stack) == Err(e) <==> Stops(s, charge, count, d, stack, e)
    decreases Unvisited(s, stack), 0, 1
  {
    if d !in stack && d in s.definitions {
      if IsFinite(s, d) {
        FiniteWalk(s, charge, count, d, stack);
      } else {
        InfiniteStops(s, charge, count, d, stack, e);
      }
    }
  }

  lemma {:induction false} InfiniteStops(s: Container, charge: Charge, count: usize, d: Declaration, stack: seq<Declaration>, e: SizeError)
    requires count > 0 && IsClear(s, stack) && d !in stack && d in s.definitions && !IsFinite(s, d)
    ensures ChargedWalk(s, charge, count, d, stack) == Err(e) <==> Stops(s, charge, count, d, stack, e)
    decreases Unvisited(s, stack), 0, 0
  {
    PushShrinks(s, stack, d);
    var path := stack + [d];
    if AllIsFinite(s, Parts(s.definitions[d])) {
      FinitePartsMakeFinite(s, d);
    }
    match s.definitions[d] {
      case Primitive(_) =>
      case Sequence(_, _, end, elements) =>
        ErrorIsFirstObstacle(s, charge, end, elements, path, e);
        InfiniteFails(s, charge, end, elements, path);
      case Enum(_, variants) => VariantsStop(s, charge, VariantTypes(variants), 0, path, e);
      case Tuple(members) =>
        MembersStop(s, charge, members, 0, path, e);
      case Struct(fields) => MembersStop(s, charge, FieldTypes(fields), 0, path, e);
    }
  }

  lemma InfiniteFails(s: Container, charge: Charge, count: usize, d: Declaration, stack: seq<Declaration>)
    requires count > 0 && !IsFinite(s, d)
    ensures ChargedWalk(s, charge, count, d, stack).Err?
  {
    if ChargedWalk(s, charge, count, d, stack).Ok? {
      OkIsFinite(s, charge, count, d, stack);
    }
  }

  lemma {:induction false} VariantsStop(s: Container, charge: Charge, ds: seq<Declaration>, max: usize, path: seq<Declaration>, e: SizeError)
    requires IsClear(s, path) && !AllIsFinite(s, ds)
    ensures ChargedMax(s, charge, ds, max, path).Err?
    ensures ChargedMax(s, charge, ds, max, path) == Err(e) <==> StopsAt(s, charge, ds, BreakingVariant(s, charge, ds), path, e)
    decreases Unvisited(s, path), 1, |ds|
  {
    if IsFinite(s, ds[0]) {
      OneFiniteWalk(s, charge, ds[0], path);
      if Total(s, charge, ds[0]) <= USIZE_MAX {
        VariantsStop(s, charge, ds[1..], Max(max, Total(s, charge, ds[0])), path, e);
      }
    } else {
      ErrorIsFirstObstacle(s, charge, 1, ds[0], path, e);
      InfiniteFails(s, charge, 1, ds[0], path);
    }
  }

  lemma {:induction false} MembersStop(s: Container, charge: Charge, ds: seq<Declaration>, sum: usize, path: seq<Declaration>, e: SizeError)
    requires IsClear(s, path) && !AllIsFinite(s, ds)
    ensures ChargedSum(s, charge, ds, sum, path).Err?
    ensures ChargedSum(s, charge, ds, sum, path) == Err(e) <==> StopsAt(s, charge, ds, BreakingMember(s, charge, ds, sum), path, e)
    decreases Unvisited(s, path), 1, |ds|, 1
  {
    if IsFinite(s, ds[0]) {
      OneFiniteWalk(s, charge, ds[0], path);
      var next := sum + Total(s, charge, ds[0]);
      if next <= USIZE_MAX {
        LaterMembersStop(s, charge, ds, sum, next, path, e);
      } else {
        BreaksAtOnce(s, charge, ds, sum);
      }
    } else {
      ErrorIsFirstObstacle(s, charge, 1, ds[0], path, e);
      InfiniteFails(s, charge, 1, ds[0], path);
      BreaksAtOnce(s, charge, ds, sum);
    }
  }

  lemma {:induction false} LaterMembersStop(s: Container, charge: Charge, ds: seq<Declaration>, sum: usize, next: usize,
                                            path: seq<Declaration>, e: SizeError)
    requires IsClear(s, path) && !AllIsFinite(s, ds) && IsFinite(s, ds[0]) && next == sum + Total(s, charge, ds[0])
    requires ChargedWalk(s, charge, 1, ds[0], path) == Ok(Total(s, charge, ds[0]))
    ensures ChargedSum(s, charge, ds, sum, path).Err?
    ensures ChargedSum(s, charge, ds, sum, path) == Err(e) <==> StopsAt(s, charge, ds, BreakingMember(s, charge, ds, sum), path, e)
    decreases Unvisited(s, path), 1, |ds|, 0
  {
    var rest := ds[1..];
    SkipFinite(s, charge, ds, sum, next, path);
    MembersStop(s, charge, rest, next, path, e);
    BreaksOneLater(s, charge, ds, sum, next);
    StopsOneLater(s, charge, ds, rest, BreakingMember(s, charge, rest, next), path, e);
  }

  lemma SkipFinite(s: Container, charge: Charge, ds: seq<Declaration>, sum: usize, next: usize, path: seq<Declaration>)
    requires !AllIsFinite(s, ds) && IsFinite(s, ds[0]) && next == sum + Total(s, charge, ds[0])
    requires ChargedWalk(s, charge, 1, ds[0], path) == Ok(Total(s, charge, ds[0]))
    ensures !AllIsFinite(s, ds[1..]) && ChargedSum(s, charge, ds, sum, path) == ChargedSum(s, charge, ds[1..], next, path)
  {
  }

  lemma BreaksAtOnce(s: Container, charge: Charge, ds: seq<Declaration>, sum: usize)
    requires ds != [] && (IsFinite(s, ds[0]) ==> sum + Total(s, charge, ds[0]) > USIZE_MAX)
    ensures BreakingMember(s, charge, ds, sum) == 0
  {
  }

  lemma BreaksOneLater(s: Container, charge: Charge, ds: seq<Declaration>, sum: usize, next: usize)
    requires ds != [] && IsFinite(s, ds[0]) && next == sum + Total(s, charge, ds[0])
    ensures BreakingMember(s, charge, ds, sum) == BreakingMember(s, charge, ds[1..], next) + 1
  {
  }

  lemma StopsOneLater(s: Container, charge: Charge, ds: seq<Declaration>, rest: seq<Declaration>, j: nat,
                      path: seq<Declaration>, e: SizeError)
    requires ds != [] && rest == ds[1..]
    ensures StopsAt(s, charge, ds, j + 1, path, e) <==> StopsAt(s, charge, rest, j, path, e)
  {
    assert j < |rest| ==> ds[j + 1] == rest[j];
  }

  /** On every schema and for every error: the size walk reports it if and only if it
      is the first obstacle from the root. */
  lemma MaxSizeErrorExact(s: Container, e: SizeError)
    ensures MaxSerializedSize(s) == Err(e) <==> Stops(s, EnumOnce, 1, s.declaration, [], e)
  {
    ErrorIsFirstObstacle(s, EnumOnce, 1, s.declaration, [], e);
  }

  /** Of two gaps in a row the first is reported. */
  lemma FirstGapIsReported(s: Container, x: Declaration, y: Declaration)
    requires s.declaration in s.definitions && s.definitions[s.declaration] == Tuple([x, y])
    requires x !in s.definitions && y !in s.definitions
    ensures MaxSerializedSize(s) == Err(MissingDefinition(x))
  {
    assert [] + [s.declaration] == [s.declaration];
    assert ChargedWalk(s, EnumOnce, 1, x, [s.declaration]) == Err(MissingDefinition(x));
    assert ChargedSum(s, EnumOnce, [x, y], 0, [s.declaration]) == Err(MissingDefinition(x));
  }

  /** A recursive row whose first member alone exceeds a word overflows; with the two
      the other way round it is reported as recursive. */
  lemma WhicheverComesFirst(s: Container, big: Declaration)
    requires s.declaration in s.definitions && s.declaration in Parts(s.definitions[s.declaration])
    requires IsFinite(s, big) && Total(s, EnumOnce, big) > USIZE_MAX
    ensures s.definitions[s.declaration] == Tuple([big, s.declaration]) ==> MaxSerializedSize(s) == Err(Overflow)
    ensures s.definitions[s.declaration] == Tuple([s.declaration, big]) ==> MaxSerializedSize(s) == Err(Recursive)
  {
    var d := s.declaration;
    InfiniteAtItself(s, d);
    assert [] + [d] == [d];
    OneFiniteWalk(s, EnumOnce, big, [d]);
    assert ChargedSum(s, EnumOnce, [big, d], 0, [d]) == Err(Overflow);
    assert ChargedWalk(s, EnumOnce, 1, d, [d]) == Err(Recursive);
    assert ChargedSum(s, EnumOnce, [d, big], 0, [d]) == Err(Recursive);
  }

  lemma InfiniteAtItself(s: Container, d: Declaration)
    requires d in s.definitions && d in Parts(s.definitions[d])
    ensures !IsFinite(s, d)
  {
    forall k: nat ensures !Finite(s, d, k) {
      NotOfHeight(s, d, k);
    }
  }

  lemma {:induction false} NotOfHeight(s: Container, d: Declaration, k: nat)
    requires d in s.definitions && d in Parts(s.definitions[d])
    ensures !Finite(s, d, k)
  {
    if k > 0 {
      NotOfHeight(s, d, k - 1);
    }
  }
}
