/** The zero-size walk: which declarations it calls empty, and the stack entries it leaves behind. */
module ZeroSize {
  import opened Arithmetic
  import opened Bytes
  import opened Wrappers
  import opened Schema
  import opened Wire
  import opened Attainment
  import opened Charging
  import opened Extents
  import M = MaxSize

  /** How the walk fails; a panic ends it as an error does. */
  datatype ZeroError = Recursive | MissingDefinition(declaration: Declaration) | Panicked

  /** An answer together with the stack the walk leaves. */
  datatype Outcome = Outcome(answer: Result<bool, ZeroError>, stack: seq<Declaration>)

  function Popped(stack: seq<Declaration>): seq<Declaration>
    requires stack != []
  {
    stack[..|stack| - 1]
  }

  // ---- The walk as a function of the stack ----

  /** Two returns of `Ok(true)` for untagged sequences skip the pop, and every
      other pop removes whatever is on top, so entries can stay behind. */
  function ZeroWalk(s: Container, d: Declaration, stack: seq<Declaration>): (r: Outcome)
    ensures stack <= r.stack
    decreases Unvisited(s, stack), 0, 0
  {
    var pushed := stack + [d];
    if d in stack then Outcome(Err(Recursive), stack)
    else if d !in s.definitions then Outcome(Err(MissingDefinition(d)), pushed)
    else
      PushShrinks(s, stack, d);
      var def := s.definitions[d];
      if def.Primitive? then Outcome(Ok(def.size == 0), stack)
      else if def.Sequence? && def.lengthWidth != 0 then Outcome(Ok(false), stack)
      else if def.Enum? && def.tagWidth != 0 then Outcome(Ok(false), stack)
      else if def.Sequence? then
        if CountPanics(def) then Outcome(Err(Panicked), pushed)
        else if HoldsNothing(def) then Outcome(Ok(true), pushed)
        else
          var r := ZeroWalk(s, def.elements, pushed);
          if r.answer == Ok(false) then r.(stack := Popped(r.stack)) else r
      else Finish(ZeroAll(s, References(def), pushed))
  }

  /** The test for a sequence whose only permitted length is zero. */
  predicate HoldsNothing(def: Definition)
    requires def.Sequence?
  {
    LengthCount(def) == Some(1) && def.start == 0
  }

  function Finish(r: Outcome): Outcome
    requires r.stack != []
  {
    if r.answer.Ok? then r.(stack := Popped(r.stack)) else r
  }

  function ZeroAll(s: Container, ds: seq<Declaration>, stack: seq<Declaration>): (r: Outcome)
    ensures stack <= r.stack
    decreases Unvisited(s, stack), 1, |ds|
  {
    if ds == [] then Outcome(Ok(true), stack)
    else
      var r := ZeroWalk(s, ds[0], stack);
      if r.answer == Ok(true) then
        PrefixShrinks(s, stack, r.stack);
        ZeroAll(s, ds[1..], r.stack)
      else r
  }

  function IsZeroSize(s: Container, d: Declaration): Result<bool, ZeroError> {
    ZeroWalk(s, d, []).answer
  }

  // ---- The walk as the program runs it ----

  method IsZeroSizeImpl(s: Container, d: Declaration, stack: DeclStack) returns (r: Result<bool, ZeroError>)
    modifies stack
    ensures r == ZeroWalk(s, d, old(stack.items)).answer
    ensures stack.items == ZeroWalk(s, d, old(stack.items)).stack
    decreases Unvisited(s, stack.items), 0, 0
  {
    if d in stack.items {
      return Err(Recursive);
    }
    stack.Push(d);
    if d !in s.definitions {
      return Err(MissingDefinition(d));
    }
    PushShrinks(s, old(stack.items), d);
    var res := false;
    var def := s.definitions[d];
    if def.Primitive? {
      res := def.size == 0;
    } else if def.Sequence? {
      if def.lengthWidth == 0 {
        if CountPanics(def) {
          return Err(Panicked);
        }
        if HoldsNothing(def) {
          return Ok(true);
        }
        var zero := IsZeroSizeImpl(s, def.elements, stack);
        if zero.Err? || zero.value {
          return zero;
        }
      }
    } else if def.Enum? && def.tagWidth != 0 {
      res := false;
    } else {
      res :- All(s, References(def), stack);
    }
    stack.Pop();
    return Ok(res);
  }

  method All(s: Container, ds: seq<Declaration>, stack: DeclStack) returns (r: Result<bool, ZeroError>)
    modifies stack
    ensures r == ZeroAll(s, ds, old(stack.items)).answer
    ensures stack.items == ZeroAll(s, ds, old(stack.items)).stack
    decreases Unvisited(s, stack.items), 1, 0
  {
    var i := 0;
    while i < |ds|
      invariant 0 <= i <= |ds|
      invariant old(stack.items) <= stack.items
      invariant ZeroAll(s, ds, old(stack.items)) == ZeroAll(s, ds[i..], stack.items)
    {
      PrefixShrinks(s, old(stack.items), stack.items);
      var zero := IsZeroSizeImpl(s, ds[i], stack);
      if zero.Err? {
        return zero;
      }
      if !zero.value {
        return Ok(false);
      }
      assert ds[i..][1..] == ds[i + 1..];
      i := i + 1;
    }
    return Ok(true);
  }

  // ---- What being empty means, without a stack ----

  /** The definition writes a length or variant tag of its own. */
  predicate HasTag(def: Definition) {
    (def.Sequence? && def.lengthWidth > 0) || (def.Enum? && def.tagWidth > 0)
  }

  predicate PermitsOnlyZero(def: Definition)
    requires def.Sequence?
  {
    def.start == 0 && def.end == 0
  }

  lemma HoldsNothingExactly(def: Definition)
    requires def.Sequence?
    ensures HoldsNothing(def) <==> PermitsOnlyZero(def)
  {
  }

  /** `d` is empty by its structure, within an unfolding of height `k`. */
  ghost predicate Empty(s: Container, d: Declaration, k: nat)
    decreases k, 0
  {
    && k > 0
    && d in s.definitions
    && var def := s.definitions[d];
       if def.Primitive? then def.size == 0
       else !HasTag(def) && if def.Sequence? then PermitsOnlyZero(def) || Empty(s, def.elements, k - 1)
                            else AllEmpty(s, References(def), k - 1)
  }

  ghost predicate AllEmpty(s: Container, ds: seq<Declaration>, k: nat)
    decreases k, 1
  {
    forall d | d in ds :: Empty(s, d, k)
  }

  lemma {:induction false} EmptyHigher(s: Container, d: Declaration, k: nat, higher: nat)
    requires Empty(s, d, k) && k <= higher
    ensures Empty(s, d, higher)
    decreases k, 0
  {
    var def := s.definitions[d];
    if def.Sequence? {
      if !PermitsOnlyZero(def) { EmptyHigher(s, def.elements, k - 1, higher - 1); }
    } else {
      AllEmptyHigher(s, References(def), k - 1, higher - 1);
    }
  }

  lemma {:induction false} AllEmptyHigher(s: Container, ds: seq<Declaration>, k: nat, higher: nat)
    requires AllEmpty(s, ds, k) && k <= higher
    ensures AllEmpty(s, ds, higher)
    decreases k, 1
  {
    forall d | d in ds ensures Empty(s, d, higher) {
      EmptyHigher(s, d, k, higher);
    }
  }

  /** Empty by structure means a finite unfolding of extent zero. */
  lemma {:induction false} EmptyExtent(s: Container, d: Declaration, k: nat)
    requires Empty(s, d, k)
    ensures Finite(s, d, k) && Extent(s, EveryCopy, d, k) == 0
    decreases k, 0, 0
  {
    var def := s.definitions[d];
    if def.Sequence? {
      if def.end > 0 {
        EmptyExtent(s, def.elements, k - 1);
        assert AllFinite(s, [def.elements], k - 1);
      }
    } else {
      EmptyRow(s, References(def), k - 1);
    }
  }

  lemma {:induction false} EmptyRow(s: Container, ds: seq<Declaration>, k: nat)
    requires AllEmpty(s, ds, k)
    ensures AllFinite(s, ds, k) && SumExtent(s, EveryCopy, ds, k) == 0 && MaxExtent(s, EveryCopy, ds, k) == 0
    decreases k, 1, |ds|
  {
    if ds != [] {
      EmptyExtent(s, ds[0], k);
      EmptyRow(s, ds[1..], k);
    }
  }

  // ---- Soundness of both answers ----

  /** `Ok(true)` is only said of empty structures, whatever the stack holds. */
  lemma {:induction false} YesIsEmpty(s: Container, d: Declaration, stack: seq<Declaration>)
    requires ZeroWalk(s, d, stack).answer == Ok(true)
    ensures Empty(s, d, Unvisited(s, stack))
    decreases Unvisited(s, stack), 0, 0
  {
    PushShrinks(s, stack, d);
    var k, k' := Unvisited(s, stack), Unvisited(s, stack + [d]);
    var def := s.definitions[d];
    if def.Sequence? {
      if !PermitsOnlyZero(def) {
        YesIsEmpty(s, def.elements, stack + [d]);
        EmptyHigher(s, def.elements, k', k - 1);
      }
    } else if !def.Primitive? {
      YesRow(s, References(def), stack + [d], k - 1);
    }
  }

  lemma {:induction false} YesRow(s: Container, ds: seq<Declaration>, stack: seq<Declaration>, k: nat)
    requires stack != [] && Finish(ZeroAll(s, ds, stack)).answer == Ok(true) && Unvisited(s, stack) <= k
    ensures AllEmpty(s, ds, k)
    decreases Unvisited(s, stack), 2, |ds|
  {
    YesAllEmpty(s, ds, stack);
    AllEmptyHigher(s, ds, Unvisited(s, stack), k);
  }

  lemma {:induction false} YesAllEmpty(s: Container, ds: seq<Declaration>, stack: seq<Declaration>)
    requires ZeroAll(s, ds, stack).answer == Ok(true)
    ensures AllEmpty(s, ds, Unvisited(s, stack))
    decreases Unvisited(s, stack), 1, |ds|
  {
    if ds != [] {
      YesIsEmpty(s, ds[0], stack);
      var stack' := ZeroWalk(s, ds[0], stack).stack;
      PrefixShrinks(s, stack, stack');
      YesAllEmpty(s, ds[1..], stack');
      AllEmptyHigher(s, ds[1..], Unvisited(s, stack'), Unvisited(s, stack));
    }
  }

  /** `Ok(false)` is never said of an empty structure. */
  lemma {:induction false} NoIsNotEmpty(s: Container, d: Declaration, stack: seq<Declaration>, k: nat)
    requires ZeroWalk(s, d, stack).answer == Ok(false)
    ensures !Empty(s, d, k)
    decreases Unvisited(s, stack), 0, 0
  {
    if Empty(s, d, k) {
      PushShrinks(s, stack, d);
      var def := s.definitions[d];
      if def.Sequence? {
        NoIsNotEmpty(s, def.elements, stack + [d], k - 1);
      } else if !def.Primitive? {
        NoRow(s, References(def), stack + [d], k - 1);
      }
    }
  }

  lemma {:induction false} NoRow(s: Container, ds: seq<Declaration>, stack: seq<Declaration>, k: nat)
    requires stack != [] && Finish(ZeroAll(s, ds, stack)).answer == Ok(false)
    ensures !AllEmpty(s, ds, k)
    decreases Unvisited(s, stack), 2, |ds|
  {
    NoAllNotEmpty(s, ds, stack, k);
  }

  lemma {:induction false} NoAllNotEmpty(s: Container, ds: seq<Declaration>, stack: seq<Declaration>, k: nat)
    requires ZeroAll(s, ds, stack).answer == Ok(false)
    ensures !AllEmpty(s, ds, k)
    decreases Unvisited(s, stack), 1, |ds|
  {
    var r := ZeroWalk(s, ds[0], stack);
    if r.answer == Ok(true) {
      PrefixShrinks(s, stack, r.stack);
      NoAllNotEmpty(s, ds[1..], r.stack, k);
    } else {
      NoIsNotEmpty(s, ds[0], stack, k);
    }
  }

  /** When the walk answers yes, every described byte string is empty and the
      size walk, whose stack keeps no stray entry, returns zero. */
  lemma YesMeansNoBytes(s: Container, d: Declaration)
    requires IsZeroSize(s, d) == Ok(true)
    ensures forall b | Describes(s, d, b) :: b == []
    ensures M.Walk(s, 1, d, []) == Ok(0)
  {
    var k := Unvisited(s, []);
    YesIsEmpty(s, d, []);
    EmptyExtent(s, d, k);
    EnumOnceIsLess(s, d, k);
    M.MaxSizeExact(s, d, 0);
    forall b | Describes(s, d, b) ensures b == [] {
      var h :| Matches(s, d, b, h);
      ExtentBounds(s, d, b, h, k);
    }
  }

  /** On a finite schema whose largest cases exist, being empty by structure is
      being empty on the wire: describing nothing but the empty string. */
  lemma {:induction false} EmptyIffExtentZero(s: Container, d: Declaration, k: nat)
    requires Finite(s, d, k) && InhabitedBelow(s, d)
    ensures Empty(s, d, k) <==> Extent(s, EveryCopy, d, k) == 0
    decreases k, 0, 0
  {
    ReachesSelf(s, Contributing, d);
    assert InhabitedAt(s, d, d);
    var def := s.definitions[d];
    if Empty(s, d, k) {
      EmptyExtent(s, d, k);
    } else if def.Sequence? {
      if def.end > 0 {
        InhabitedPart(s, d, def.elements);
        assert AllFinite(s, [def.elements], k - 1);
        EmptyIffExtentZero(s, def.elements, k - 1);
        var e := Extent(s, EveryCopy, def.elements, k - 1);
        MulMonotone(1, def.end, e, e);
        assert Extent(s, EveryCopy, d, k) == def.lengthWidth + def.end * e;
      }
    } else if !def.Primitive? {
      AllEmptyIffExtentsZero(s, d, References(def), k - 1);
    }
  }

  lemma {:induction false} AllEmptyIffExtentsZero(s: Container, owner: Declaration, ds: seq<Declaration>, k: nat)
    requires AllFinite(s, ds, k) && InhabitedBelow(s, owner)
    requires forall d | d in ds :: d in Next(s, Contributing, owner)
    ensures AllEmpty(s, ds, k) <==> SumExtent(s, EveryCopy, ds, k) == 0
    ensures AllEmpty(s, ds, k) <==> MaxExtent(s, EveryCopy, ds, k) == 0
    decreases k, 1, |ds|
  {
    if ds != [] {
      InhabitedPart(s, owner, ds[0]);
      EmptyIffExtentZero(s, ds[0], k);
      AllEmptyIffExtentsZero(s, owner, ds[1..], k);
      assert AllEmpty(s, ds, k) <==> Empty(s, ds[0], k) && AllEmpty(s, ds[1..], k);
    }
  }

  /** Either answer of the walk is the truth about the wire. */
  lemma AnswerIsExact(s: Container, d: Declaration, k: nat)
    requires Finite(s, d, k) && InhabitedBelow(s, d) && IsZeroSize(s, d).Ok?
    ensures IsZeroSize(s, d).value <==> forall b | Describes(s, d, b) :: b == []
  {
    if IsZeroSize(s, d).value {
      YesMeansNoBytes(s, d);
    } else {
      NoIsNotEmpty(s, d, [], k);
      EmptyIffExtentZero(s, d, k);
      var b := ExtentAttained(s, d, k);
      assert Describes(s, d, b);
    }
  }

  /** The walk reports only reachable gaps. */
  lemma {:induction false} GapIsReachable(s: Container, d: Declaration, stack: seq<Declaration>, x: Declaration)
    requires ZeroWalk(s, d, stack).answer == Err(MissingDefinition(x))
    ensures x !in s.definitions && Reaches(s, Mentioned, d, x)
    decreases Unvisited(s, stack), 0, 0
  {
    ReachesSelf(s, Mentioned, d);
    if d in s.definitions {
      PushShrinks(s, stack, d);
      var def := s.definitions[d];
      if def.Sequence? {
        GapIsReachable(s, def.elements, stack + [d], x);
        ReachesStep(s, Mentioned, d, def.elements, x);
      } else {
        GapInRow(s, d, References(def), stack + [d], x);
      }
    }
  }

  lemma {:induction false} GapInRow(s: Container, owner: Declaration, ds: seq<Declaration>, stack: seq<Declaration>, x: Declaration)
    requires ZeroAll(s, ds, stack).answer == Err(MissingDefinition(x))
    requires forall d | d in ds :: d in Next(s, Mentioned, owner)
    ensures x !in s.definitions && Reaches(s, Mentioned, owner, x)
    decreases Unvisited(s, stack), 1, |ds|
  {
    var r := ZeroWalk(s, ds[0], stack);
    if r.answer == Ok(true) {
      PrefixShrinks(s, stack, r.stack);
      GapInRow(s, owner, ds[1..], r.stack, x);
    } else {
      GapIsReachable(s, ds[0], stack, x);
      ReachesStep(s, Mentioned, owner, ds[0], x);
    }
  }

  /** The walk panics only at a reachable untagged sequence that permits every length. */
  lemma {:induction false} PanicIsReachable(s: Container, d: Declaration, stack: seq<Declaration>) returns (x: Declaration)
    requires ZeroWalk(s, d, stack).answer == Err(Panicked)
    ensures Reaches(s, Mentioned, d, x) && x in s.definitions && PermitsEveryLength(s.definitions[x])
    decreases Unvisited(s, stack), 0, 0
  {
    ReachesSelf(s, Mentioned, d);
    PushShrinks(s, stack, d);
    var def := s.definitions[d];
    if CountPanics(def) {
      x := d;
    } else if def.Sequence? {
      x := PanicIsReachable(s, def.elements, stack + [d]);
      ReachesStep(s, Mentioned, d, def.elements, x);
    } else {
      x := PanicInRow(s, d, References(def), stack + [d]);
    }
  }

  lemma {:induction false} PanicInRow(s: Container, owner: Declaration, ds: seq<Declaration>, stack: seq<Declaration>) returns (x: Declaration)
    requires ZeroAll(s, ds, stack).answer == Err(Panicked)
    requires forall d | d in ds :: d in Next(s, Mentioned, owner)
    ensures Reaches(s, Mentioned, owner, x) && x in s.definitions && PermitsEveryLength(s.definitions[x])
    decreases Unvisited(s, stack), 1, |ds|
  {
    var r := ZeroWalk(s, ds[0], stack);
    if r.answer == Ok(true) {
      PrefixShrinks(s, stack, r.stack);
      x := PanicInRow(s, owner, ds[1..], r.stack);
    } else {
      x := PanicIsReachable(s, ds[0], stack);
      ReachesStep(s, Mentioned, owner, ds[0], x);
    }
  }

  // ---- Being empty at any height ----

  ghost predicate IsEmpty(s: Container, d: Declaration) {
    exists k: nat :: Empty(s, d, k)
  }

  lemma {:induction false} RowHeight(s: Container, ds: seq<Declaration>) returns (k: nat)
    requires forall d | d in ds :: IsEmpty(s, d)
    ensures AllEmpty(s, ds, k)
  {
    k := 0;
    if ds != [] {
      assert IsEmpty(s, ds[0]);
      var first: nat :| Empty(s, ds[0], first);
      var rest := RowHeight(s, ds[1..]);
      k := Max(first, rest);
      EmptyHigher(s, ds[0], first, k);
      AllEmptyHigher(s, ds[1..], rest, k);
      AllEmptyCons(s, ds, k);
    }
  }

  lemma AllEmptyCons(s: Container, ds: seq<Declaration>, k: nat)
    requires ds != []
    ensures AllEmpty(s, ds, k) <==> Empty(s, ds[0], k) && AllEmpty(s, ds[1..], k)
  {
    assert forall d :: d in ds <==> d == ds[0] || d in ds[1..];
  }

  /** What emptiness means one step down. */
  lemma EmptyStep(s: Container, d: Declaration)
    requires d in s.definitions
    ensures var def := s.definitions[d];
            IsEmpty(s, d) <==>
              if def.Primitive? then def.size == 0
              else !HasTag(def) && if def.Sequence? then PermitsOnlyZero(def) || IsEmpty(s, def.elements)
                                   else forall c | c in References(def) :: IsEmpty(s, c)
  {
    var def := s.definitions[d];
    if IsEmpty(s, d) {
      var k: nat :| Empty(s, d, k);
      if def.Sequence? {
        assert !PermitsOnlyZero(def) ==> Empty(s, def.elements, k - 1);
      } else if !def.Primitive? {
        assert AllEmpty(s, References(def), k - 1);
      }
    }
    if def.Primitive? {
      assert def.size == 0 ==> Empty(s, d, 1);
    } else if !HasTag(def) && def.Sequence? {
      if PermitsOnlyZero(def) {
        assert Empty(s, d, 1);
      } else if IsEmpty(s, def.elements) {
        var k: nat :| Empty(s, def.elements, k);
        assert Empty(s, d, k + 1);
      }
    } else if !HasTag(def) && forall c | c in References(def) :: IsEmpty(s, c) {
      var k := RowHeight(s, References(def));
      assert Empty(s, d, k + 1);
    }
  }

  // ---- Exactly what the walk answers ----

  /** The entries an empty declaration leaves on the stack: an untagged
      sequence leaves itself, and a row drops one entry from the top. */
  ghost function Residue(s: Container, d: Declaration, k: nat): seq<Declaration>
    requires Empty(s, d, k)
    decreases k, 0, 0
  {
    var def := s.definitions[d];
    if def.Sequence? then
      if PermitsOnlyZero(def) then [d] else [d] + Residue(s, def.elements, k - 1)
    else if def.Primitive? then []
    else Popped([d] + RowResidue(s, References(def), k - 1))
  }

  ghost function RowResidue(s: Container, ds: seq<Declaration>, k: nat): seq<Declaration>
    requires AllEmpty(s, ds, k)
    decreases k, 1, |ds|
  {
    if ds == [] then [] else Residue(s, ds[0], k) + RowResidue(s, ds[1..], k)
  }

  lemma {:induction false} ResidueHigher(s: Container, d: Declaration, k: nat, higher: nat)
    requires Empty(s, d, k) && Empty(s, d, higher) && k <= higher
    ensures Residue(s, d, k) == Residue(s, d, higher)
    decreases k, 0, 0
  {
    var def := s.definitions[d];
    if def.Sequence? {
      if !PermitsOnlyZero(def) { ResidueHigher(s, def.elements, k - 1, higher - 1); }
    } else if !def.Primitive? {
      RowResidueHigher(s, References(def), k - 1, higher - 1);
    }
  }

  lemma {:induction false} RowResidueHigher(s: Container, ds: seq<Declaration>, k: nat, higher: nat)
    requires AllEmpty(s, ds, k) && AllEmpty(s, ds, higher) && k <= higher
    ensures RowResidue(s, ds, k) == RowResidue(s, ds, higher)
    decreases k, 1, |ds|
  {
    if ds != [] {
      ResidueHigher(s, ds[0], k, higher);
      RowResidueHigher(s, ds[1..], k, higher);
    }
  }

  /** What an empty declaration leaves behind, whatever the height. */
  ghost function Left(s: Container, d: Declaration): seq<Declaration>
    requires IsEmpty(s, d)
  {
    var k: nat :| Empty(s, d, k);
    Residue(s, d, k)
  }

  lemma LeftIsResidue(s: Container, d: Declaration, k: nat)
    requires Empty(s, d, k)
    ensures Left(s, d) == Residue(s, d, k)
  {
    var l: nat :| Empty(s, d, l) && Left(s, d) == Residue(s, d, l);
    if k <= l {
      ResidueHigher(s, d, k, l);
    } else {
      ResidueHigher(s, d, l, k);
    }
  }

  ghost function RowLeft(s: Container, ds: seq<Declaration>): seq<Declaration>
    requires forall d | d in ds :: IsEmpty(s, d)
  {
    if ds == [] then [] else Left(s, ds[0]) + RowLeft(s, ds[1..])
  }

  lemma {:induction false} RowLeftIsResidue(s: Container, ds: seq<Declaration>, k: nat)
    requires AllEmpty(s, ds, k)
    ensures forall d | d in ds :: IsEmpty(s, d)
    ensures RowLeft(s, ds) == RowResidue(s, ds, k)
    decreases |ds|
  {
    if ds != [] {
      LeftIsResidue(s, ds[0], k);
      RowLeftIsResidue(s, ds[1..], k);
    }
  }

  ghost function Unblocked(s: Container, blocked: set<Declaration>): nat {
    Count(s.definitions.Keys - blocked)
  }

  lemma BlockingShrinks(s: Container, blocked: set<Declaration>, more: set<Declaration>)
    ensures Unblocked(s, blocked + more) <= Unblocked(s, blocked)
    ensures forall d | d in s.definitions && d !in blocked :: Unblocked(s, blocked + {d}) < Unblocked(s, blocked)
  {
    var open := s.definitions.Keys - blocked;
    CountSubset(s.definitions.Keys - (blocked + more), open);
    forall d | d in s.definitions && d !in blocked ensures Unblocked(s, blocked + {d}) < Unblocked(s, blocked) {
      CountSubset(s.definitions.Keys - (blocked + {d}), open - {d});
      CountIsSize(open);
      CountIsSize(open - {d});
    }
  }

  /** The first thing that keeps the walk from deciding `d`, in the order in which
      it looks: a declaration that is blocked, by an ancestor or by what an
      earlier empty sibling left behind, one that is not defined, or an untagged
      sequence whose lengths cannot be counted. */
  ghost function Obstacle(s: Container, d: Declaration, blocked: set<Declaration>): Option<ZeroError>
    decreases Unblocked(s, blocked), 0, 0
  {
    BlockingShrinks(s, blocked, {});
    if d in blocked then Some(Recursive)
    else if d !in s.definitions then Some(MissingDefinition(d))
    else
      var def := s.definitions[d];
      if def.Primitive? || HasTag(def) then None
      else if def.Sequence? then
        if PermitsEveryLength(def) then Some(Panicked)
        else if PermitsOnlyZero(def) then None
        else Obstacle(s, def.elements, blocked + {d})
      else RowObstacle(s, References(def), blocked + {d})
  }

  /** A row is looked at up to its first member that is not empty. */
  ghost function RowObstacle(s: Container, ds: seq<Declaration>, blocked: set<Declaration>): Option<ZeroError>
    decreases Unblocked(s, blocked), 1, |ds|
  {
    if ds == [] then None
    else
      var first := Obstacle(s, ds[0], blocked);
      if first.Some? || !IsEmpty(s, ds[0]) then first
      else
        var left := Elements(Left(s, ds[0]));
        BlockingShrinks(s, blocked, left);
        RowObstacle(s, ds[1..], blocked + left)
  }

  ghost function Decision(obstacle: Option<ZeroError>, empty: bool): Result<bool, ZeroError> {
    match obstacle
    case None => Ok(empty)
    case Some(error) => Err(error)
  }

  /** On every schema, declaration and stack: without an obstacle the walk tells
      whether the declaration is empty, and otherwise it fails as the first
      obstacle says; an empty declaration leaves exactly its residue behind. */
  lemma {:induction false} AnswerIsDecision(s: Container, d: Declaration, stack: seq<Declaration>)
    ensures var obstacle := Obstacle(s, d, Elements(stack));
            && ZeroWalk(s, d, stack).answer == Decision(obstacle, IsEmpty(s, d))
            && (obstacle.None? && IsEmpty(s, d) ==> ZeroWalk(s, d, stack).stack == stack + Left(s, d))
    decreases Unvisited(s, stack), 0, 0
  {
    if d !in stack && d in s.definitions {
      EmptyStep(s, d);
      PushShrinks(s, stack, d);
      var pushed, def := stack + [d], s.definitions[d];
      assert Elements(pushed) == Elements(stack) + {d};
      if def.Primitive? {
        if def.size == 0 { LeftIsResidue(s, d, 1); }
      } else if HasTag(def) || CountPanics(def) {
      } else if def.Sequence? {
        SequenceDecision(s, d, stack);
      } else {
        RowDecision(s, d, stack);
      }
    }
  }

  lemma {:induction false} SequenceDecision(s: Container, d: Declaration, stack: seq<Declaration>)
    requires d !in stack && d in s.definitions && Elements(stack + [d]) == Elements(stack) + {d}
    requires s.definitions[d].Sequence? && !HasTag(s.definitions[d]) && !CountPanics(s.definitions[d])
    requires Unvisited(s, stack + [d]) < Unvisited(s, stack)
    ensures var obstacle := Obstacle(s, d, Elements(stack));
            && ZeroWalk(s, d, stack).answer == Decision(obstacle, IsEmpty(s, d))
            && (obstacle.None? && IsEmpty(s, d) ==> ZeroWalk(s, d, stack).stack == stack + Left(s, d))
    decreases Unvisited(s, stack + [d]), 5, 0
  {
    EmptyStep(s, d);
    var e := s.definitions[d].elements;
    if PermitsOnlyZero(s.definitions[d]) {
      LeftIsResidue(s, d, 1);
    } else {
      AnswerIsDecision(s, e, stack + [d]);
      if IsEmpty(s, e) {
        var k: nat :| Empty(s, e, k);
        LeftIsResidue(s, e, k);
        LeftIsResidue(s, d, k + 1);
        Rest(stack, [d], Left(s, e));
      }
    }
  }

  lemma {:induction false} RowDecision(s: Container, d: Declaration, stack: seq<Declaration>)
    requires d !in stack && d in s.definitions && Elements(stack + [d]) == Elements(stack) + {d}
    requires !s.definitions[d].Primitive? && !s.definitions[d].Sequence? && !HasTag(s.definitions[d])
    requires Unvisited(s, stack + [d]) < Unvisited(s, stack)
    ensures var obstacle := Obstacle(s, d, Elements(stack));
            && ZeroWalk(s, d, stack).answer == Decision(obstacle, IsEmpty(s, d))
            && (obstacle.None? && IsEmpty(s, d) ==> ZeroWalk(s, d, stack).stack == stack + Left(s, d))
    decreases Unvisited(s, stack + [d]), 5, 0
  {
    EmptyStep(s, d);
    var ds := References(s.definitions[d]);
    MembersDecision(s, ds, stack + [d]);
    if IsEmpty(s, d) {
      LeftOfRow(s, d);
      PoppedBehind(stack, d, RowLeft(s, ds));
    }
  }

  /** An empty row leaves what its members leave, without the topmost entry. */
  lemma LeftOfRow(s: Container, d: Declaration)
    requires IsEmpty(s, d) && !s.definitions[d].Primitive? && !s.definitions[d].Sequence?
    ensures forall c | c in References(s.definitions[d]) :: IsEmpty(s, c)
    ensures Left(s, d) == Popped([d] + RowLeft(s, References(s.definitions[d])))
  {
    EmptyStep(s, d);
    var ds := References(s.definitions[d]);
    var k := RowHeight(s, ds);
    RowLeftIsResidue(s, ds, k);
    LeftIsResidue(s, d, k + 1);
  }

  lemma PoppedBehind(stack: seq<Declaration>, d: Declaration, row: seq<Declaration>)
    ensures Popped(stack + [d] + row) == stack + Popped([d] + row)
  {
    assert stack + [d] + row == stack + ([d] + row);
  }

  lemma {:induction false} MembersDecision(s: Container, ds: seq<Declaration>, stack: seq<Declaration>)
    ensures var obstacle := RowObstacle(s, ds, Elements(stack));
            && ZeroAll(s, ds, stack).answer == Decision(obstacle, forall d | d in ds :: IsEmpty(s, d))
            && (obstacle.None? && (forall d | d in ds :: IsEmpty(s, d)) ==>
                  ZeroAll(s, ds, stack).stack == stack + RowLeft(s, ds))
    decreases Unvisited(s, stack), 1, |ds|
  {
    if ds != [] {
      AnswerIsDecision(s, ds[0], stack);
      assert forall d :: d in ds <==> d == ds[0] || d in ds[1..];
      if IsEmpty(s, ds[0]) && Obstacle(s, ds[0], Elements(stack)).None? {
        var left := Left(s, ds[0]);
        assert Elements(stack + left) == Elements(stack) + Elements(left);
        PrefixShrinks(s, stack, stack + left);
        MembersDecision(s, ds[1..], stack + left);
        if forall d | d in ds :: IsEmpty(s, d) {
          Rest(stack, left, RowLeft(s, ds[1..]));
        }
      }
    }
  }

  lemma Rest(stack: seq<Declaration>, left: seq<Declaration>, rest: seq<Declaration>)
    ensures (stack + left) + rest == stack + (left + rest)
  {
  }

  /** The exact meaning of every outcome, on every schema. */
  lemma ZeroSizeExact(s: Container, d: Declaration)
    ensures IsZeroSize(s, d) == Decision(Obstacle(s, d, {}), IsEmpty(s, d))
  {
    var none: seq<Declaration> := [];
    assert Elements(none) == {};
    AnswerIsDecision(s, d, none);
  }

  // ---- The smallest schema on which an empty declaration is called recursive ----

  /** A pair of the same zero-sized array type. */
  function PairOfEmptyArrays(): Container {
    Container("([(); 2], [(); 2])",
              map["([(); 2], [(); 2])" := Tuple(["[(); 2]", "[(); 2]"]),
                  "[(); 2]" := Sequence(ARRAY_LENGTH_WIDTH, 2, 2, "()"),
                  "()" := Primitive(0)])
  }

  /** A pair of one untagged array type of empty elements, in any schema. */
  lemma EmptyPair(s: Container, p: Declaration, a: Declaration, u: Declaration)
    requires p in s.definitions && a in s.definitions && u in s.definitions && a != p && u != p && a != u
    requires s.definitions[p] == Tuple([a, a]) && s.definitions[a] == Sequence(ARRAY_LENGTH_WIDTH, 2, 2, u)
    requires s.definitions[u] == Primitive(0)
    ensures Empty(s, p, 3) && IsZeroSize(s, p) == Err(Recursive)
  {
    var both := [a, a];
    assert both[1..] == [a];
    assert Empty(s, u, 1) && Empty(s, a, 2) && AllEmpty(s, both, 2);
    assert [p] + [a] == [p, a];
    assert ZeroWalk(s, u, [p, a]).answer == Ok(true);
    assert ZeroWalk(s, a, [p]) == Outcome(Ok(true), [p, a]);
    assert ZeroAll(s, both, [p]).answer == ZeroAll(s, both[1..], [p, a]).answer == Err(Recursive);
    assert [] + [p] == [p];
  }

  /** Two such arrays hide whatever comes after them, defined or not. */
  lemma PairThenAnything(s: Container, p: Declaration, a: Declaration, u: Declaration, b: Declaration)
    requires p in s.definitions && a in s.definitions && u in s.definitions && a != p && u != p && a != u
    requires s.definitions[p] == Tuple([a, a, b]) && s.definitions[a] == Sequence(ARRAY_LENGTH_WIDTH, 2, 2, u)
    requires s.definitions[u] == Primitive(0)
    ensures IsZeroSize(s, p) == Err(Recursive)
  {
    var row := [a, a, b];
    assert row[1..] == [a, b];
    assert [p] + [a] == [p, a] && [] + [p] == [p];
    assert ZeroWalk(s, u, [p, a]).answer == Ok(true);
    assert ZeroWalk(s, a, [p]) == Outcome(Ok(true), [p, a]);
    assert ZeroAll(s, row, [p]).answer == ZeroAll(s, row[1..], [p, a]).answer == Err(Recursive);
  }

  /** Two such arrays and then a byte: not empty, not recursive, and called so. */
  lemma PairThenByte(s: Container, p: Declaration, a: Declaration, u: Declaration, b: Declaration)
    requires p in s.definitions && a in s.definitions && u in s.definitions && b in s.definitions
    requires a != p && u != p && a != u
    requires s.definitions[p] == Tuple([a, a, b]) && s.definitions[a] == Sequence(ARRAY_LENGTH_WIDTH, 2, 2, u)
    requires s.definitions[u] == Primitive(0) && s.definitions[b] == Primitive(1)
    ensures Finite(s, p, 3) && Extent(s, EveryCopy, p, 3) == 1
    ensures IsZeroSize(s, p) == Err(Recursive)
  {
    PairThenAnything(s, p, a, u, b);
    var row := [a, a, b];
    assert row[1..] == [a, b] && row[1..][1..] == [b];
    assert Finite(s, u, 1) && AllFinite(s, [u], 1) && Finite(s, a, 2) && Finite(s, b, 2) && AllFinite(s, row, 2);
    assert Extent(s, EveryCopy, a, 2) == 0;
    assert SumExtent(s, EveryCopy, row[1..][1..], 2) == 1;
    assert SumExtent(s, EveryCopy, row[1..], 2) == 1;
  }

  /** An untagged sequence that permits every length makes the walk panic. */
  lemma FullRangePanics(s: Container, d: Declaration)
    requires d in s.definitions && s.definitions[d].Sequence?
    requires s.definitions[d].lengthWidth == 0 && s.definitions[d].start == 0 && s.definitions[d].end == U64_MAX
    ensures IsZeroSize(s, d) == Err(Panicked)
  {
  }

  /** The pair describes only the empty string and is not recursive, yet the
      zero-size walk reports recursion; the size walk answers zero. */
  lemma PairOfEmptyArraysIsCalledRecursive()
    ensures Empty(PairOfEmptyArrays(), PairOfEmptyArrays().declaration, 3)
    ensures IsZeroSize(PairOfEmptyArrays(), PairOfEmptyArrays().declaration) == Err(Recursive)
    ensures M.MaxSerializedSize(PairOfEmptyArrays()) == Ok(0)
  {
    var s := PairOfEmptyArrays();
    var p := s.declaration;
    EmptyPair(s, p, "[(); 2]", "()");
    EmptyExtent(s, p, 3);
    EnumOnceIsLess(s, p, 3);
    M.MaxSizeExact(s, p, 0);
  }
}
