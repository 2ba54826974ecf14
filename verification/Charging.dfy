/** What is lost when an enum is charged once, whatever the number of its copies. */
module Charging {
  import opened Arithmetic
  import opened Schema
  import opened Extents

  // ---- What charging an enum element once changes ----

  /** A sequence that can hold two or more enums which are not always empty. */
  ghost predicate IsEnumRow(s: Container, x: Declaration) {
    && x in s.definitions
    && s.definitions[x].Sequence?
    && s.definitions[x].end > 1
    && IsEnum(s, s.definitions[x].elements)
    && exists k :: Finite(s, s.definitions[x].elements, k) && Extent(s, EveryCopy, s.definitions[x].elements, k) > 0
  }

  ghost predicate HasEnumRow(s: Container, d: Declaration) {
    exists x :: Reaches(s, Contributing, d, x) && IsEnumRow(s, x)
  }

  lemma NoEnumRowPart(s: Container, d: Declaration, c: Declaration)
    requires !HasEnumRow(s, d) && c in Next(s, Contributing, d)
    ensures !HasEnumRow(s, c)
  {
    if HasEnumRow(s, c) {
      var x :| Reaches(s, Contributing, c, x) && IsEnumRow(s, x);
      ReachesStep(s, Contributing, d, c, x);
    }
  }

  /** Charging enums once never overestimates. */
  lemma {:induction false} EnumOnceIsLess(s: Container, d: Declaration, k: nat)
    requires Finite(s, d, k)
    ensures Extent(s, EnumOnce, d, k) <= Extent(s, EveryCopy, d, k)
    decreases k, 0, 0
  {
    match s.definitions[d]
    case Primitive(_) =>
    case Sequence(_, _, end, elements) =>
      if end > 0 {
        EnumOnceIsLess(s, elements, k - 1);
        MulMonotone(Copies(s, EnumOnce, end, elements), end,
                    Extent(s, EnumOnce, elements, k - 1), Extent(s, EveryCopy, elements, k - 1));
      }
    case Enum(_, variants) => EnumOnceRow(s, VariantTypes(variants), k - 1);
    case Tuple(members) => EnumOnceRow(s, members, k - 1);
    case Struct(fields) => EnumOnceRow(s, FieldTypes(fields), k - 1);
  }

  lemma {:induction false} EnumOnceRow(s: Container, ds: seq<Declaration>, k: nat)
    requires AllFinite(s, ds, k)
    ensures SumExtent(s, EnumOnce, ds, k) <= SumExtent(s, EveryCopy, ds, k)
    ensures MaxExtent(s, EnumOnce, ds, k) <= MaxExtent(s, EveryCopy, ds, k)
    decreases k, 1, |ds|
  {
    if ds != [] {
      EnumOnceIsLess(s, ds[0], k);
      EnumOnceRow(s, ds[1..], k);
    }
  }

  /** Without enum rows the two ways of charging agree. */
  lemma {:induction false} EnumOnceIsExact(s: Container, d: Declaration, k: nat)
    requires Finite(s, d, k) && !HasEnumRow(s, d)
    ensures Extent(s, EnumOnce, d, k) == Extent(s, EveryCopy, d, k)
    decreases k, 0, 0
  {
    ReachesSelf(s, Contributing, d);
    match s.definitions[d]
    case Primitive(_) =>
    case Sequence(_, _, end, elements) =>
      if end > 0 {
        NoEnumRowPart(s, d, elements);
        EnumOnceIsExact(s, elements, k - 1);
        if end > 1 && IsEnum(s, elements) {
          assert Extent(s, EveryCopy, elements, k - 1) == 0;
        }
      }
    case Enum(_, variants) => EnumOnceExactRow(s, d, VariantTypes(variants), k - 1);
    case Tuple(members) => EnumOnceExactRow(s, d, members, k - 1);
    case Struct(fields) => EnumOnceExactRow(s, d, FieldTypes(fields), k - 1);
  }

  lemma {:induction false} EnumOnceExactRow(s: Container, owner: Declaration, ds: seq<Declaration>, k: nat)
    requires AllFinite(s, ds, k) && !HasEnumRow(s, owner)
    requires forall d | d in ds :: d in Next(s, Contributing, owner)
    ensures SumExtent(s, EnumOnce, ds, k) == SumExtent(s, EveryCopy, ds, k)
    ensures MaxExtent(s, EnumOnce, ds, k) == MaxExtent(s, EveryCopy, ds, k)
    decreases k, 1, |ds|
  {
    if ds != [] {
      NoEnumRowPart(s, owner, ds[0]);
      EnumOnceIsExact(s, ds[0], k);
      EnumOnceExactRow(s, owner, ds[1..], k);
    }
  }

  /** At an enum row the two ways of charging differ. */
  lemma EnumRowFallsShort(s: Container, x: Declaration, k: nat)
    requires Finite(s, x, k) && IsEnumRow(s, x)
    ensures Extent(s, EnumOnce, x, k) < Extent(s, EveryCopy, x, k)
  {
    var e, end := s.definitions[x].elements, s.definitions[x].end;
    var l :| Finite(s, e, l) && Extent(s, EveryCopy, e, l) > 0;
    ExtentUnique(s, EveryCopy, e, k - 1, l);
    EnumOnceIsLess(s, e, k - 1);
    MulMonotone(2, end, Extent(s, EveryCopy, e, k - 1), Extent(s, EveryCopy, e, k - 1));
  }

  // ---- Where the difference reaches the whole ----

  /** Charging enums once undercounts `d` itself: at an enum row, or where a
      part is undercounted and the difference is not lost. It is lost only in an
      enum, where the full size of an undercounted variant has to exceed what is
      charged for every variant. */
  ghost predicate Undercharged(s: Container, d: Declaration, k: nat)
    requires Finite(s, d, k)
    decreases k, 0
  {
    var def := s.definitions[d];
    assert AllFinite(s, Parts(def), k - 1);
    if def.Sequence? then
      && def.end > 0
      && Finite(s, def.elements, k - 1)
      && (|| (def.end > 1 && IsEnum(s, def.elements) && Extent(s, EveryCopy, def.elements, k - 1) > 0)
          || Undercharged(s, def.elements, k - 1))
    else if def.Enum? then exists c :: c in VariantTypes(def.variants) && Exceeds(s, VariantTypes(def.variants), c, k - 1)
    else exists c :: c in Parts(def) && Undercharged(s, c, k - 1)
  }

  /** `c` is undercounted, and its full size exceeds what is charged for any of `ds`. */
  ghost predicate Exceeds(s: Container, ds: seq<Declaration>, c: Declaration, k: nat)
    requires AllFinite(s, ds, k) && c in ds
    decreases k, 1
  {
    && Undercharged(s, c, k)
    && forall d | d in ds :: Extent(s, EnumOnce, d, k) < Extent(s, EveryCopy, c, k)
  }

  /** The two ways of charging differ exactly there. */
  lemma {:induction false} UnderchargedIffLess(s: Container, d: Declaration, k: nat)
    requires Finite(s, d, k)
    ensures Undercharged(s, d, k) <==> Extent(s, EnumOnce, d, k) < Extent(s, EveryCopy, d, k)
    decreases k, 1
  {
    var def := s.definitions[d];
    if def.Sequence? {
      if def.end > 0 {
        assert AllFinite(s, [def.elements], k - 1);
        UnderchargedIffLess(s, def.elements, k - 1);
        EnumOnceIsLess(s, def.elements, k - 1);
        ChargedLess(def.end, Copies(s, EnumOnce, def.end, def.elements),
                        Extent(s, EnumOnce, def.elements, k - 1), Extent(s, EveryCopy, def.elements, k - 1));
      }
    } else if def.Enum? {
      EnumUndercharged(s, VariantTypes(def.variants), k - 1);
    } else if !def.Primitive? {
      RowUndercharged(s, References(def), k - 1);
    }
  }

  lemma {:induction false} EnumUndercharged(s: Container, ds: seq<Declaration>, k: nat)
    requires AllFinite(s, ds, k)
    ensures (exists c :: c in ds && Exceeds(s, ds, c, k)) <==> MaxExtent(s, EnumOnce, ds, k) < MaxExtent(s, EveryCopy, ds, k)
    decreases k, 3
  {
    if c :| c in ds && Exceeds(s, ds, c, k) {
      var i :| 0 <= i < |ds| && ds[i] == c;
      MaxExtentAt(s, EveryCopy, ds, i, k);
      var j := MaxExtentAttained(s, EnumOnce, ds, k);
      assert ds[j] in ds;
    }
    if MaxExtent(s, EnumOnce, ds, k) < MaxExtent(s, EveryCopy, ds, k) {
      var i := MaxExtentAttained(s, EveryCopy, ds, k);
      forall d | d in ds ensures Extent(s, EnumOnce, d, k) < Extent(s, EveryCopy, ds[i], k) {
        var j :| 0 <= j < |ds| && ds[j] == d;
        MaxExtentAt(s, EnumOnce, ds, j, k);
      }
      UnderchargedIffLess(s, ds[i], k);
      assert Exceeds(s, ds, ds[i], k);
    }
  }

  lemma {:induction false} RowUndercharged(s: Container, ds: seq<Declaration>, k: nat)
    requires AllFinite(s, ds, k)
    ensures (exists c :: c in ds && Undercharged(s, c, k)) <==> SumExtent(s, EnumOnce, ds, k) < SumExtent(s, EveryCopy, ds, k)
    decreases k, 2, |ds|
  {
    if ds != [] {
      UnderchargedIffLess(s, ds[0], k);
      EnumOnceIsLess(s, ds[0], k);
      RowUndercharged(s, ds[1..], k);
      EnumOnceRow(s, ds[1..], k);
      assert forall c :: c in ds <==> c == ds[0] || c in ds[1..];
    }
  }

  // ---- Contributing parts are no larger than the whole ----

  lemma ExtentBelow(s: Container, charge: Charge, d: Declaration, x: Declaration, k: nat)
    requires Finite(s, d, k) && Reaches(s, Contributing, d, x)
    ensures Finite(s, x, k) && Extent(s, charge, x, k) <= Extent(s, charge, d, k)
  {
    FiniteBelow(s, d, x, k);
    var p :| IsPath(s, Contributing, p) && p[0] == d && p[|p| - 1] == x;
    ExtentAlong(s, charge, p, k);
  }

  lemma {:induction false} ExtentAlong(s: Container, charge: Charge, p: seq<Declaration>, k: nat)
    requires IsPath(s, Contributing, p) && Finite(s, p[0], k) && Finite(s, p[|p| - 1], k)
    ensures Extent(s, charge, p[|p| - 1], k) <= Extent(s, charge, p[0], k)
    decreases |p|
  {
    if |p| > 1 {
      PathTail(s, Contributing, p);
      ExtentOfPart(s, charge, p[0], p[1], k);
      FiniteHigher(s, p[1], k - 1, k);
      ExtentHigher(s, charge, p[1], k - 1, k);
      ExtentAlong(s, charge, p[1..], k);
    }
  }

  lemma ExtentOfPart(s: Container, charge: Charge, d: Declaration, c: Declaration, k: nat)
    requires Finite(s, d, k) && c in Parts(s.definitions[d])
    ensures Finite(s, c, k - 1)
    ensures Extent(s, charge, c, k - 1) <= Extent(s, charge, d, k)
  {
    var ds := Parts(s.definitions[d]);
    var i :| 0 <= i < |ds| && ds[i] == c;
    if s.definitions[d].Sequence? {
      MulMonotone(1, Copies(s, charge, s.definitions[d].end, c), Extent(s, charge, c, k - 1), Extent(s, charge, c, k - 1));
    } else {
      MaxExtentAt(s, charge, ds, i, k - 1);
      SumExtentAt(s, charge, ds, i, k - 1);
    }
  }

  lemma {:induction false} SumExtentAt(s: Container, charge: Charge, ds: seq<Declaration>, i: nat, k: nat)
    requires i < |ds| && AllFinite(s, ds, k)
    ensures Extent(s, charge, ds[i], k) <= SumExtent(s, charge, ds, k)
  {
    if i > 0 {
      SumExtentAt(s, charge, ds[1..], i - 1, k);
    }
  }
}
