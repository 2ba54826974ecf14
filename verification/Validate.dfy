/** Schema validation: the walk over simple paths checks every reachable declaration. */
module Validate {
  import opened Bytes
  import opened Wrappers
  import opened Schema
  import opened Wire
  import opened Attainment
  import opened Extents
  import Z = ZeroSize
  import M = MaxSize

  datatype ValidateError =
    | ZSTSequence(declaration: Declaration)
    | TagTooWide(declaration: Declaration)
    | TagTooNarrow(declaration: Declaration)
    | TagNotPowerOfTwo(declaration: Declaration)
    | MissingDefinition(declaration: Declaration)
    | EmptyLengthRange(declaration: Declaration)
    | Panicked                  // not an error value: counting lengths ends the program

  datatype Unit = Unit

  type Verdict = Result<Unit, ValidateError>

  const PASS: Verdict := Ok(Unit)
  const U64_LEN: u8 := 8

  function CheckLengthWidth(d: Declaration, width: u8, max: u64): Verdict {
    if width == 0 then PASS
    else if width == 3 || width == 5 || width == 6 || width == 7 then Err(TagNotPowerOfTwo(d))
    else if width < 8 then if max < Pow256(width) then PASS else Err(TagTooNarrow(d))
    else if width == 8 then PASS
    else Err(TagTooWide(d))
  }

  /** The width check passes exactly the standard widths that can hold the
      largest permitted length. */
  lemma LengthWidthMeaning(d: Declaration, width: u8, max: u64)
    ensures CheckLengthWidth(d, width, max).Ok? <==> width in {0, 1, 2, 4, 8} && Representable(width, max)
  {
    Pow256Values();
  }

  predicate IsArray(def: Definition) {
    def.Sequence? && def.lengthWidth == ARRAY_LENGTH_WIDTH && LengthCount(def) == Some(1)
  }

  /** Exempt from the rules for sequences are exactly those of one length and without a tag. */
  lemma IsArrayExactly(def: Definition)
    ensures IsArray(def) <==> IsFixed(def)
  {
  }

  /** The checks made on one declaration before its references are followed. */
  function LocalCheck(s: Container, d: Declaration): Verdict
    requires d in s.definitions
  {
    var def := s.definitions[d];
    if CountPanics(def) then Err(Panicked)
    else if def.Sequence? && !IsArray(def) then
      if def.start > def.end then Err(EmptyLengthRange(d))
      else
        var _ :- CheckLengthWidth(d, def.lengthWidth, def.end);
        match Z.IsZeroSize(s, def.elements)
        case Ok(zero) => if zero then Err(ZSTSequence(d)) else PASS
        case Err(Recursive) => PASS
        case Err(MissingDefinition(missing)) => Err(MissingDefinition(missing))
        case Err(Panicked) => Err(Panicked)
    else if def.Enum? && def.tagWidth > U64_LEN then Err(TagTooWide(d))
    else PASS
  }

  // ---- The walk as a function of the stack ----

  function Walk(s: Container, d: Declaration, stack: seq<Declaration>): Verdict
    decreases Unvisited(s, stack), 0, 0
  {
    if d !in s.definitions then Err(MissingDefinition(d))
    else if d in stack then PASS
    else
      PushShrinks(s, stack, d);
      var _ :- LocalCheck(s, d);
      WalkAll(s, References(s.definitions[d]), stack + [d])
  }

  function WalkAll(s: Container, ds: seq<Declaration>, stack: seq<Declaration>): Verdict
    decreases Unvisited(s, stack), 1, |ds|
  {
    if ds == [] then PASS
    else
      var _ :- Walk(s, ds[0], stack);
      WalkAll(s, ds[1..], stack)
  }

  function Validated(s: Container): Verdict {
    Walk(s, s.declaration, [])
  }

  // ---- The walk as the program runs it ----

  method ValidateImpl(s: Container, d: Declaration, stack: DeclStack) returns (r: Verdict)
    modifies stack
    ensures r == Walk(s, d, old(stack.items))
    ensures r.Ok? ==> stack.items == old(stack.items)
    decreases Unvisited(s, stack.items), 0, 0
  {
    if d !in s.definitions {
      return Err(MissingDefinition(d));
    }
    if d in stack.items {
      return PASS;
    }
    PushShrinks(s, stack.items, d);
    stack.Push(d);
    var def := s.definitions[d];
    if CountPanics(def) {
      return Err(Panicked);
    }
    if def.Sequence? && !IsArray(def) {
      if def.start > def.end {
        return Err(EmptyLengthRange(d));
      }
      var width := CheckLengthWidth(d, def.lengthWidth, def.end);
      if width.Err? {
        return width;
      }
      var elementStack := new DeclStack();
      var zero := Z.IsZeroSizeImpl(s, def.elements, elementStack);
      match zero {
        case Ok(yes) =>
          if yes {
            return Err(ZSTSequence(d));
          }
        case Err(Recursive) =>
        case Err(MissingDefinition(missing)) =>
          return Err(MissingDefinition(missing));
        case Err(Panicked) =>
          return Err(Panicked);
      }
    }
    if def.Enum? && def.tagWidth > U64_LEN {
      return Err(TagTooWide(d));
    }
    var ds := References(def);
    var i := 0;
    while i < |ds|
      invariant 0 <= i <= |ds|
      invariant stack.items == old(stack.items) + [d]
      invariant WalkAll(s, ds, stack.items) == WalkAll(s, ds[i..], stack.items)
    {
      var one := ValidateImpl(s, ds[i], stack);
      if one.Err? {
        return one;
      }
      assert ds[i..][1..] == ds[i + 1..];
      i := i + 1;
    }
    stack.Pop();
    return PASS;
  }

  // ---- What an error means ----

  /** A failure comes from one reachable declaration, which is undefined or fails
      its own checks in just this way. */
  ghost predicate FailsAt(s: Container, x: Declaration, e: ValidateError) {
    if x in s.definitions then LocalCheck(s, x) == Err(e) else e == MissingDefinition(x)
  }

  lemma {:induction false} FailureIsLocal(s: Container, d: Declaration, stack: seq<Declaration>) returns (x: Declaration)
    requires Walk(s, d, stack).Err?
    ensures Reaches(s, Mentioned, d, x) && FailsAt(s, x, Walk(s, d, stack).error)
    decreases Unvisited(s, stack), 0, 0
  {
    ReachesSelf(s, Mentioned, d);
    x := d;
    if d in s.definitions {
      PushShrinks(s, stack, d);
      if LocalCheck(s, d).Ok? {
        x := RowFailureIsLocal(s, d, References(s.definitions[d]), stack + [d]);
      }
    }
  }

  lemma {:induction false} RowFailureIsLocal(s: Container, owner: Declaration, ds: seq<Declaration>, stack: seq<Declaration>) returns (x: Declaration)
    requires WalkAll(s, ds, stack).Err? && forall d | d in ds :: d in Next(s, Mentioned, owner)
    ensures Reaches(s, Mentioned, owner, x) && FailsAt(s, x, WalkAll(s, ds, stack).error)
    decreases Unvisited(s, stack), 1, |ds|
  {
    if Walk(s, ds[0], stack).Err? {
      x := FailureIsLocal(s, ds[0], stack);
      ReachesStep(s, Mentioned, owner, ds[0], x);
    } else {
      x := RowFailureIsLocal(s, owner, ds[1..], stack);
    }
  }

  /** The rule that an error says a declaration reachable from `root` breaks. */
  ghost predicate Justified(s: Container, root: Declaration, e: ValidateError) {
    if e.Panicked? then
      exists x :: Reaches(s, Mentioned, root, x) && x in s.definitions && PermitsEveryLength(s.definitions[x])
    else
      var x := e.declaration;
      && Reaches(s, Mentioned, root, x)
      && if e.MissingDefinition? then x !in s.definitions
         else
           && x in s.definitions
           && var def := s.definitions[x];
              if e.TagTooWide? then
                if def.Enum? then def.tagWidth > 8 else def.Sequence? && !IsFixed(def) && def.lengthWidth > 8
              else
                && def.Sequence? && !IsFixed(def)
                && match e
                   case EmptyLengthRange(_) => def.start > def.end
                   case TagNotPowerOfTwo(_) => def.lengthWidth <= 8 && def.lengthWidth !in {0, 1, 2, 4, 8}
                   case TagTooNarrow(_) => def.lengthWidth in {1, 2, 4} && !Representable(def.lengthWidth, def.end)
                   case ZSTSequence(_) => forall b | Describes(s, def.elements, b) :: b == []
  }

  /** Whatever validation reports is reachable and breaks the rule it names. */
  lemma ErrorIsJustified(s: Container)
    requires Validated(s).Err?
    ensures Justified(s, s.declaration, Validated(s).error)
  {
    var e := Validated(s).error;
    var x := FailureIsLocal(s, s.declaration, []);
    if x in s.definitions {
      LocalErrorIsJustified(s, x);
      if e.Panicked? {
        var y :| Reaches(s, Mentioned, x, y) && y in s.definitions && PermitsEveryLength(s.definitions[y]);
        ReachesTransitive(s, Mentioned, s.declaration, x, y);
      } else {
        ReachesTransitive(s, Mentioned, s.declaration, x, e.declaration);
      }
    }
  }

  lemma LocalErrorIsJustified(s: Container, d: Declaration)
    requires d in s.definitions && LocalCheck(s, d).Err?
    ensures Justified(s, d, LocalCheck(s, d).error)
  {
    ReachesSelf(s, Mentioned, d);
    var def, e := s.definitions[d], LocalCheck(s, d).error;
    if e.ZSTSequence? {
      Z.YesMeansNoBytes(s, def.elements);
    } else if e.MissingDefinition? {
      Z.GapIsReachable(s, def.elements, [], e.declaration);
      ReachesStep(s, Mentioned, d, def.elements, e.declaration);
    } else if e.Panicked? && !PermitsEveryLength(def) {
      var x := Z.PanicIsReachable(s, def.elements, []);
      ReachesStep(s, Mentioned, d, def.elements, x);
    }
  }

  // ---- Soundness and completeness ----

  /** What a declaration must satisfy, stated without the walk. */
  ghost predicate Acceptable(s: Container, x: Declaration) {
    && x in s.definitions
    && var def := s.definitions[x];
       && !PermitsEveryLength(def)
       && (def.Sequence? && !IsFixed(def) ==>
             && def.start <= def.end
             && def.lengthWidth in {0, 1, 2, 4, 8}
             && Representable(def.lengthWidth, def.end)
             && Z.IsZeroSize(s, def.elements) != Ok(true)
             && Z.IsZeroSize(s, def.elements) != Err(Z.Panicked))
       && (def.Enum? ==> def.tagWidth <= U64_LEN)
  }

  lemma LocalCheckMeaning(s: Container, d: Declaration)
    requires d in s.definitions
    ensures LocalCheck(s, d).Ok? ==> Acceptable(s, d)
    ensures Acceptable(s, d) && (forall x | Reaches(s, Mentioned, d, x) :: x in s.definitions) ==> LocalCheck(s, d).Ok?
  {
    var def := s.definitions[d];
    if def.Sequence? && !IsFixed(def) {
      LengthWidthMeaning(d, def.lengthWidth, def.end);
      var zero := Z.IsZeroSize(s, def.elements);
      if zero.Err? && zero.error.MissingDefinition? {
        Z.GapIsReachable(s, def.elements, [], zero.error.declaration);
        ReachesStep(s, Mentioned, d, def.elements, zero.error.declaration);
      }
    }
  }

  /** One accepted walk vouches for every declaration at the end of a path that
      avoids the stack; a path that returns to its start is cut short there. */
  lemma {:induction false} AcceptedAlong(s: Container, stack: seq<Declaration>, p: seq<Declaration>)
    requires IsPath(s, Mentioned, p) && Walk(s, p[0], stack).Ok?
    requires forall x | x in p :: x !in stack
    ensures Acceptable(s, p[|p| - 1])
    decreases |p|
  {
    var d := p[0];
    assert d in p;
    if |p| == 1 {
      LocalCheckMeaning(s, d);
    } else if i :| 1 <= i < |p| && p[i] == d {
      PathSuffix(s, Mentioned, p, i);
      AcceptedAlong(s, stack, p[i..]);
    } else {
      var q := p[1..];
      PathTail(s, Mentioned, p);
      var ds := References(s.definitions[d]);
      var j :| 0 <= j < |ds| && ds[j] == q[0];
      AcceptedMember(s, ds, stack + [d], j);
      AcceptedAlong(s, stack + [d], q);
    }
  }

  lemma {:induction false} AcceptedMember(s: Container, ds: seq<Declaration>, stack: seq<Declaration>, j: nat)
    requires WalkAll(s, ds, stack).Ok? && j < |ds|
    ensures Walk(s, ds[j], stack).Ok?
    decreases |ds|
  {
    if j > 0 {
      AcceptedMember(s, ds[1..], stack, j - 1);
    }
  }

  /** Nothing is rejected when everything reachable is acceptable. */
  lemma {:induction false} AcceptsGood(s: Container, d: Declaration, stack: seq<Declaration>)
    requires forall x | Reaches(s, Mentioned, d, x) :: Acceptable(s, x)
    ensures Walk(s, d, stack).Ok?
    decreases Unvisited(s, stack), 0, 0
  {
    ReachesSelf(s, Mentioned, d);
    if d !in stack {
      PushShrinks(s, stack, d);
      LocalCheckMeaning(s, d);
      AcceptsAllGood(s, d, References(s.definitions[d]), stack + [d]);
    }
  }

  lemma {:induction false} AcceptsAllGood(s: Container, owner: Declaration, ds: seq<Declaration>, stack: seq<Declaration>)
    requires forall x | Reaches(s, Mentioned, owner, x) :: Acceptable(s, x)
    requires forall d | d in ds :: d in Next(s, Mentioned, owner)
    ensures WalkAll(s, ds, stack).Ok?
    decreases Unvisited(s, stack), 1, |ds|
  {
    if ds != [] {
      forall x | Reaches(s, Mentioned, ds[0], x) ensures Acceptable(s, x) {
        ReachesStep(s, Mentioned, owner, ds[0], x);
      }
      AcceptsGood(s, ds[0], stack);
      AcceptsAllGood(s, owner, ds[1..], stack);
    }
  }

  /** Validation passes exactly when every declaration reachable from the root
      is defined and acceptable, although the walk follows no path twice
      through the same declaration. */
  lemma ValidateExact(s: Container)
    ensures Validated(s).Ok? <==> forall x | Reaches(s, Mentioned, s.declaration, x) :: Acceptable(s, x)
  {
    if Validated(s).Ok? {
      forall x | Reaches(s, Mentioned, s.declaration, x) ensures Acceptable(s, x) {
        var p :| IsPath(s, Mentioned, p) && p[0] == s.declaration && p[|p| - 1] == x;
        AcceptedAlong(s, [], p);
      }
    } else {
      if forall x | Reaches(s, Mentioned, s.declaration, x) :: Acceptable(s, x) {
        AcceptsGood(s, s.declaration, []);
      }
    }
  }

  // ---- Which rule a declaration is found to break ----

  /** A sequence that the rules for sequences apply to. */
  predicate IsVarying(def: Definition) {
    def.Sequence? && !IsFixed(def) && !PermitsEveryLength(def)
  }

  predicate HasStandardWidth(def: Definition)
    requires def.Sequence?
  {
    def.start <= def.end && def.lengthWidth in {0, 1, 2, 4, 8} && Representable(def.lengthWidth, def.end)
  }

  /** The error that `d` gives on its own: an empty range comes before a wrong width,
      and both before what its elements give. */
  ghost predicate Breaks(s: Container, d: Declaration, e: ValidateError) {
    if d !in s.definitions then e == MissingDefinition(d)
    else
      var def := s.definitions[d];
      match e
      case EmptyLengthRange(x) => x == d && IsVarying(def) && def.start > def.end
      case TagNotPowerOfTwo(x) => x == d && IsVarying(def) && def.start <= def.end && def.lengthWidth in {3, 5, 6, 7}
      case TagTooNarrow(x) =>
        x == d && IsVarying(def) && def.start <= def.end && def.lengthWidth in {1, 2, 4} && def.end >= Pow256(def.lengthWidth)
      case TagTooWide(x) =>
        x == d && if def.Enum? then def.tagWidth > 8 else IsVarying(def) && def.start <= def.end && def.lengthWidth > 8
      case ZSTSequence(x) =>
        && x == d && IsVarying(def) && HasStandardWidth(def)
        && Z.Obstacle(s, def.elements, {}).None? && Z.IsEmpty(s, def.elements)
      case MissingDefinition(x) =>
        IsVarying(def) && HasStandardWidth(def) && Z.Obstacle(s, def.elements, {}) == Some(Z.MissingDefinition(x))
      case Panicked =>
        || PermitsEveryLength(def)
        || (IsVarying(def) && HasStandardWidth(def) && Z.Obstacle(s, def.elements, {}) == Some(Z.Panicked))
  }

  ghost predicate IsInOrder(s: Container, d: Declaration) {
    forall e :: !Breaks(s, d, e)
  }

  lemma CheckIsBreak(s: Container, d: Declaration, e: ValidateError)
    ensures Check(s, d) == Err(e) <==> Breaks(s, d, e)
  {
    if d in s.definitions && s.definitions[d].Sequence? {
      var def := s.definitions[d];
      Pow256Values();
      IsArrayExactly(def);
      CountPanicsExactly(def);
      Z.ZeroSizeExact(s, def.elements);
    }
  }

  lemma CheckIsInOrder(s: Container, d: Declaration)
    ensures Check(s, d).Ok? <==> IsInOrder(s, d)
  {
    forall e ensures Check(s, d) == Err(e) <==> Breaks(s, d, e) {
      CheckIsBreak(s, d, e);
    }
    if Check(s, d).Err? {
      assert Breaks(s, d, Check(s, d).error);
    }
  }

  // ---- Which failure is reported ----

  /** The declarations in the order in which they are looked at, whatever the
      checks say: depth first, without going on at an ancestor. */
  function Visits(s: Container, d: Declaration, stack: seq<Declaration>): seq<Declaration>
    decreases Unvisited(s, stack), 0, 0
  {
    if d !in s.definitions then [d]
    else if d in stack then []
    else
      PushShrinks(s, stack, d);
      [d] + VisitsOfAll(s, References(s.definitions[d]), stack + [d])
  }

  function VisitsOfAll(s: Container, ds: seq<Declaration>, stack: seq<Declaration>): seq<Declaration>
    decreases Unvisited(s, stack), 1, |ds|
  {
    if ds == [] then [] else Visits(s, ds[0], stack) + VisitsOfAll(s, ds[1..], stack)
  }

  /** One declaration on its own. */
  function Check(s: Container, d: Declaration): Verdict {
    if d in s.definitions then LocalCheck(s, d) else Err(MissingDefinition(d))
  }

  function FirstFailure(s: Container, ds: seq<Declaration>): Verdict {
    if ds == [] then PASS
    else
      var _ :- Check(s, ds[0]);
      FirstFailure(s, ds[1..])
  }

  lemma {:induction false} FailureInTurn(s: Container, a: seq<Declaration>, b: seq<Declaration>)
    ensures FirstFailure(s, a + b) == if FirstFailure(s, a).Err? then FirstFailure(s, a) else FirstFailure(s, b)
  {
    if a == [] {
      assert a + b == b;
    } else {
      assert (a + b)[0] == a[0] && (a + b)[1..] == a[1..] + b;
      FailureInTurn(s, a[1..], b);
    }
  }

  lemma {:induction false} WalkIsFirstFailure(s: Container, d: Declaration, stack: seq<Declaration>)
    ensures Walk(s, d, stack) == FirstFailure(s, Visits(s, d, stack))
    decreases Unvisited(s, stack), 0, 0
  {
    if d in s.definitions && d !in stack {
      PushShrinks(s, stack, d);
      var more := VisitsOfAll(s, References(s.definitions[d]), stack + [d]);
      WalkAllIsFirstFailure(s, References(s.definitions[d]), stack + [d]);
      assert ([d] + more)[1..] == more;
    }
  }

  lemma {:induction false} WalkAllIsFirstFailure(s: Container, ds: seq<Declaration>, stack: seq<Declaration>)
    ensures WalkAll(s, ds, stack) == FirstFailure(s, VisitsOfAll(s, ds, stack))
    decreases Unvisited(s, stack), 1, |ds|
  {
    if ds != [] {
      WalkIsFirstFailure(s, ds[0], stack);
      WalkAllIsFirstFailure(s, ds[1..], stack);
      FailureInTurn(s, Visits(s, ds[0], stack), VisitsOfAll(s, ds[1..], stack));
    }
  }

  lemma {:induction false} VisitedIsReachable(s: Container, d: Declaration, stack: seq<Declaration>, x: Declaration)
    requires x in Visits(s, d, stack)
    ensures Reaches(s, Mentioned, d, x)
    decreases Unvisited(s, stack), 0, 0
  {
    ReachesSelf(s, Mentioned, d);
    if x != d {
      PushShrinks(s, stack, d);
      VisitedInRow(s, d, References(s.definitions[d]), stack + [d], x);
    }
  }

  lemma {:induction false} VisitedInRow(s: Container, owner: Declaration, ds: seq<Declaration>, stack: seq<Declaration>, x: Declaration)
    requires x in VisitsOfAll(s, ds, stack) && forall d | d in ds :: d in Next(s, Mentioned, owner)
    ensures Reaches(s, Mentioned, owner, x)
    decreases Unvisited(s, stack), 1, |ds|
  {
    if x in Visits(s, ds[0], stack) {
      VisitedIsReachable(s, ds[0], stack, x);
      ReachesStep(s, Mentioned, owner, ds[0], x);
    } else {
      VisitedInRow(s, owner, ds[1..], stack, x);
    }
  }

  lemma {:induction false} VisitedAlong(s: Container, stack: seq<Declaration>, p: seq<Declaration>)
    requires IsPath(s, Mentioned, p) && forall x | x in p :: x !in stack
    ensures p[|p| - 1] in Visits(s, p[0], stack)
    decreases |p|
  {
    var d := p[0];
    assert d in p;
    if |p| > 1 {
      if i :| 1 <= i < |p| && p[i] == d {
        PathSuffix(s, Mentioned, p, i);
        VisitedAlong(s, stack, p[i..]);
      } else {
        var q := p[1..];
        PathTail(s, Mentioned, p);
        assert IsStep(s, Mentioned, p, 0);
        VisitedAlong(s, stack + [d], q);
        VisitedMember(s, References(s.definitions[d]), stack + [d], q[0], q[|q| - 1]);
      }
    }
  }

  lemma {:induction false} VisitedMember(s: Container, ds: seq<Declaration>, stack: seq<Declaration>, d: Declaration, x: Declaration)
    requires d in ds && x in Visits(s, d, stack)
    ensures x in VisitsOfAll(s, ds, stack)
    decreases |ds|
  {
    if d != ds[0] {
      VisitedMember(s, ds[1..], stack, d, x);
    }
  }

  /** The error of the declaration at `i`, all before it being in order. */
  ghost predicate FailsFirst(s: Container, ds: seq<Declaration>, i: nat, e: ValidateError) {
    i < |ds| && Breaks(s, ds[i], e) && forall j | 0 <= j < i :: IsInOrder(s, ds[j])
  }

  lemma {:induction false} FirstFailureIsFirst(s: Container, ds: seq<Declaration>, e: ValidateError)
    ensures FirstFailure(s, ds) == Err(e) <==> exists i :: FailsFirst(s, ds, i, e)
  {
    if ds != [] {
      var rest := ds[1..];
      FirstFailureIsFirst(s, rest, e);
      CheckIsBreak(s, ds[0], e);
      CheckIsInOrder(s, ds[0]);
      if Check(s, ds[0]).Err? {
        assert Check(s, ds[0]) == Err(e) ==> FailsFirst(s, ds, 0, e);
      } else if i: nat :| FailsFirst(s, rest, i, e) {
        assert FailsFirst(s, ds, i + 1, e) by {
          forall j | 0 <= j < i + 1 ensures IsInOrder(s, ds[j]) {
            assert j > 0 ==> ds[j] == rest[j - 1];
          }
        }
      } else if i: nat :| FailsFirst(s, ds, i, e) {
        assert i > 0 && forall j | 0 <= j < i - 1 :: rest[j] == ds[j + 1];
        assert FailsFirst(s, rest, i - 1, e);
      }
    }
  }

  /** On every schema and for every error, the panic among them: it is what
      validation reports if and only if it is the first in the order of the visits,
      which are to exactly the reachable declarations. */
  lemma ReportedExactly(s: Container, e: ValidateError)
    ensures Validated(s) == Err(e) <==> exists i :: FailsFirst(s, Visits(s, s.declaration, []), i, e)
    ensures forall x :: x in Visits(s, s.declaration, []) <==> Reaches(s, Mentioned, s.declaration, x)
  {
    var order := Visits(s, s.declaration, []);
    WalkIsFirstFailure(s, s.declaration, []);
    FirstFailureIsFirst(s, order, e);
    forall x ensures x in order <==> Reaches(s, Mentioned, s.declaration, x) {
      if x in order {
        VisitedIsReachable(s, s.declaration, [], x);
      }
      if Reaches(s, Mentioned, s.declaration, x) {
        var p :| IsPath(s, Mentioned, p) && p[0] == s.declaration && p[|p| - 1] == x;
        VisitedAlong(s, [], p);
      }
    }
  }

  // ---- The zero-sized element rule ----

  /** The rule against dynamic sequences of empty elements is enforced exactly
      when the zero-size walk meets no obstacle in the element type and that type
      is empty. An obstacle lets the sequence pass if it reads as a recursion, and
      is reported or panics otherwise. */
  lemma ZeroSizedRuleExact(s: Container, d: Declaration)
    requires d in s.definitions && s.definitions[d].Sequence? && !IsFixed(s.definitions[d]) && !PermitsEveryLength(s.definitions[d])
    requires s.definitions[d].start <= s.definitions[d].end
    requires CheckLengthWidth(d, s.definitions[d].lengthWidth, s.definitions[d].end).Ok?
    ensures LocalCheck(s, d) ==
            match Z.Obstacle(s, s.definitions[d].elements, {})
            case None => if Z.IsEmpty(s, s.definitions[d].elements) then Err(ZSTSequence(d)) else PASS
            case Some(Recursive) => PASS
            case Some(MissingDefinition(missing)) => Err(MissingDefinition(missing))
            case Some(Panicked) => Err(Panicked)
  {
    Z.ZeroSizeExact(s, s.definitions[d].elements);
  }

  /** Validation panics exactly when some reachable declaration does, because it
      permits every length or because its items first meet a sequence that does,
      and all that are looked at before it are in order. */
  lemma PanicsExactly(s: Container)
    ensures Validated(s) == Err(Panicked) <==> exists i :: FailsFirst(s, Visits(s, s.declaration, []), i, Panicked)
    ensures forall x | x in s.definitions ::
              Breaks(s, x, Panicked) <==>
              var def := s.definitions[x];
              PermitsEveryLength(def) || (def.Sequence? && !IsFixed(def) && HasStandardWidth(def) && Z.Obstacle(s, def.elements, {}) == Some(Z.Panicked))
  {
    ReportedExactly(s, Panicked);
  }

  /** An untagged range of lengths is no array: items that take no bytes are refused. */
  lemma EmptyItemsRefused(s: Container, d: Declaration, u: Declaration)
    requires d in s.definitions && u in s.definitions && s.definitions[u] == Primitive(0)
    requires s.definitions[d].Sequence? && s.definitions[d].elements == u && s.definitions[d].lengthWidth == 0
    requires s.definitions[d].start < s.definitions[d].end && !PermitsEveryLength(s.definitions[d]) && s.declaration == d
    ensures Validated(s) == Err(ZSTSequence(d))
  {
    assert Z.ZeroWalk(s, u, []).answer == Ok(true);
  }

  /** Where no other check fails, validation panics exactly when an untagged
      sequence that permits every length is reachable. */
  lemma PanicsAlone(s: Container)
    requires forall x | Reaches(s, Mentioned, s.declaration, x) ::
               x in s.definitions && (LocalCheck(s, x).Ok? || LocalCheck(s, x) == Err(Panicked))
    ensures Validated(s) == Err(Panicked) <==>
            exists x :: Reaches(s, Mentioned, s.declaration, x) && x in s.definitions && PermitsEveryLength(s.definitions[x])
  {
    if Validated(s) == Err(Panicked) {
      ErrorIsJustified(s);
    }
    if Validated(s).Err? {
      var x := FailureIsLocal(s, s.declaration, []);
    } else {
      ValidateExact(s);
    }
  }

  /** A vector of pairs of the same zero-sized array type. */
  function VecOfEmptyPairs(): Container {
    var pair := Z.PairOfEmptyArrays();
    Container("Vec<([(); 2], [(); 2])>",
              pair.definitions["Vec<([(); 2], [(); 2])>" :=
                Sequence(DEFAULT_LENGTH_WIDTH, 0, U32_MAX, pair.declaration)])
  }

  /** Validation accepts it although its elements occupy no bytes. */
  lemma VecOfEmptyPairsPasses()
    ensures Validated(VecOfEmptyPairs()).Ok?
    ensures Z.Empty(VecOfEmptyPairs(), Z.PairOfEmptyArrays().declaration, 3)
  {
    var s := VecOfEmptyPairs();
    var v, p, a, u := s.declaration, Z.PairOfEmptyArrays().declaration, "[(); 2]", "()";
    Z.EmptyPair(s, p, a, u);
    Pow256Values();
    var both := [a, a];
    assert both[1..] == [a];
    assert Walk(s, a, [v, p]).Ok? by {
      assert WalkAll(s, [u], [v, p, a]).Ok? by { assert Walk(s, u, [v, p, a]).Ok?; }
      assert [v, p] + [a] == [v, p, a];
    }
    assert WalkAll(s, both[1..], [v, p]).Ok?;
    assert WalkAll(s, both, [v, p]).Ok?;
    assert [v] + [p] == [v, p];
    assert Walk(s, p, [v]).Ok?;
    assert WalkAll(s, [p], [v]).Ok?;
    assert [] + [v] == [v];
  }

  // ---- What validation gives the size walk ----

  /** On a validated schema whose enums all have a variant a returned size is
      the exact length of the longest described byte string, unless it
      undercounts the declaration; then it is not even a bound. */
  lemma ValidatedSizeIsExact(s: Container, n: usize)
    requires Validated(s).Ok? && M.MaxSerializedSize(s) == Ok(n)
    requires forall x | Reaches(s, Contributing, s.declaration, x) && IsEnum(s, x) :: s.definitions[x].variants != []
    ensures if M.Undercharges(s, s.declaration) then !M.IsBound(s, s.declaration, n)
            else M.IsBound(s, s.declaration, n) && M.IsAttained(s, s.declaration, n)
  {
    ValidateExact(s);
    forall x ensures InhabitedAt(s, s.declaration, x) {
      if Reaches(s, Contributing, s.declaration, x) {
        ContributingIsMentioned(s, s.declaration, x);
        assert Acceptable(s, x);
      }
    }
    M.BoundIffNotUndercharged(s, s.declaration, n);
    if !M.Undercharges(s, s.declaration) {
      M.Tight(s, s.declaration, n);
    }
  }

  /** A validated schema never lacks a definition the size walk asks for. */
  lemma ValidatedHasNoGap(s: Container)
    requires Validated(s).Ok?
    ensures M.MaxSerializedSize(s).Err? ==> !M.MaxSerializedSize(s).error.MissingDefinition?
  {
    ValidateExact(s);
    M.Verdict(s, s.declaration);
    var r := M.MaxSerializedSize(s);
    if r.Err? && r.error.MissingDefinition? {
      ContributingIsMentioned(s, s.declaration, r.error.declaration);
    }
  }
}
