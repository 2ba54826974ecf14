/** The largest encoding of a declaration, by recursion on the declaration graph
    in unbounded integers and without a stack: the reference the size walk is
    measured against. */
module Extents {
  import opened Arithmetic
  import opened Bytes
  import opened Schema
  import opened Wire

  /** How many copies of a sequence's elements are charged. The wire needs
      `EveryCopy`; the size walk charges an enum element once, because its enum
      arm drops the count it was handed. */
  datatype Charge = EveryCopy | EnumOnce

  predicate IsEnum(s: Container, d: Declaration) {
    d in s.definitions && s.definitions[d].Enum?
  }

  function Copies(s: Container, charge: Charge, count: nat, d: Declaration): nat {
    if charge.EnumOnce? && IsEnum(s, d) then 1 else count
  }

  /** The part of the graph that contributes to `d` is defined and has no cycle:
      it unfolds to a tree of height at most `k`. */
  ghost predicate Finite(s: Container, d: Declaration, k: nat)
    decreases k, 0
  {
    && k > 0
    && d in s.definitions
    && AllFinite(s, Parts(s.definitions[d]), k - 1)
  }

  ghost predicate AllFinite(s: Container, ds: seq<Declaration>, k: nat)
    decreases k, 1
  {
    forall d | d in ds :: Finite(s, d, k)
  }

  ghost function Extent(s: Container, charge: Charge, d: Declaration, k: nat): nat
    requires Finite(s, d, k)
    decreases k, 0, 0
  {
    match s.definitions[d]
    case Primitive(size) => size
    case Sequence(width, _, end, elements) =>
      if end == 0 then width
      else
        assert AllFinite(s, [elements], k - 1);
        width + Copies(s, charge, end, elements) * Extent(s, charge, elements, k - 1)
    case Enum(tagWidth, variants) => tagWidth + MaxExtent(s, charge, VariantTypes(variants), k - 1)
    case Tuple(members) => SumExtent(s, charge, members, k - 1)
    case Struct(fields) => SumExtent(s, charge, FieldTypes(fields), k - 1)
  }

  ghost function SumExtent(s: Container, charge: Charge, ds: seq<Declaration>, k: nat): nat
    requires AllFinite(s, ds, k)
    decreases k, 1, |ds|
  {
    if ds == [] then 0 else Extent(s, charge, ds[0], k) + SumExtent(s, charge, ds[1..], k)
  }

  ghost function MaxExtent(s: Container, charge: Charge, ds: seq<Declaration>, k: nat): nat
    requires AllFinite(s, ds, k)
    decreases k, 1, |ds|
  {
    if ds == [] then 0
    else Max(Extent(s, charge, ds[0], k), MaxExtent(s, charge, ds[1..], k))
  }

  function Max(a: nat, b: nat): nat {
    if a < b then b else a
  }

  // The unfolding height is only a bound: any height that works gives the same extent.

  lemma {:induction false} FiniteHigher(s: Container, d: Declaration, k: nat, higher: nat)
    requires Finite(s, d, k) && k <= higher
    ensures Finite(s, d, higher)
    decreases k, 0
  {
    AllFiniteHigher(s, Parts(s.definitions[d]), k - 1, higher - 1);
  }

  lemma {:induction false} AllFiniteHigher(s: Container, ds: seq<Declaration>, k: nat, higher: nat)
    requires AllFinite(s, ds, k) && k <= higher
    ensures AllFinite(s, ds, higher)
    decreases k, 1
  {
    forall d | d in ds ensures Finite(s, d, higher) {
      FiniteHigher(s, d, k, higher);
    }
  }

  lemma {:induction false} ExtentHigher(s: Container, charge: Charge, d: Declaration, k: nat, higher: nat)
    requires Finite(s, d, k) && Finite(s, d, higher) && k <= higher
    ensures Extent(s, charge, d, k) == Extent(s, charge, d, higher)
    decreases k, 0, 0
  {
    match s.definitions[d]
    case Primitive(_) =>
    case Sequence(_, _, end, elements) =>
      if end > 0 {
        assert AllFinite(s, [elements], k - 1);
        ExtentHigher(s, charge, elements, k - 1, higher - 1);
      }
    case Enum(_, variants) => RowHigher(s, charge, VariantTypes(variants), k - 1, higher - 1);
    case Tuple(members) => RowHigher(s, charge, members, k - 1, higher - 1);
    case Struct(fields) => RowHigher(s, charge, FieldTypes(fields), k - 1, higher - 1);
  }

  lemma {:induction false} RowHigher(s: Container, charge: Charge, ds: seq<Declaration>, k: nat, higher: nat)
    requires AllFinite(s, ds, k) && AllFinite(s, ds, higher) && k <= higher
    ensures SumExtent(s, charge, ds, k) == SumExtent(s, charge, ds, higher)
    ensures MaxExtent(s, charge, ds, k) == MaxExtent(s, charge, ds, higher)
    decreases k, 1, |ds|
  {
    if ds != [] {
      ExtentHigher(s, charge, ds[0], k, higher);
      RowHigher(s, charge, ds[1..], k, higher);
    }
  }

  lemma ExtentUnique(s: Container, charge: Charge, d: Declaration, k: nat, l: nat)
    requires Finite(s, d, k) && Finite(s, d, l)
    ensures Extent(s, charge, d, k) == Extent(s, charge, d, l)
  {
    if k <= l {
      ExtentHigher(s, charge, d, k, l);
    } else {
      ExtentHigher(s, charge, d, l, k);
    }
  }

  /** Finiteness passes down to whatever contributes. */
  lemma FiniteBelow(s: Container, d: Declaration, x: Declaration, k: nat)
    requires Finite(s, d, k) && Reaches(s, Contributing, d, x)
    ensures Finite(s, x, k)
  {
    var p :| IsPath(s, Contributing, p) && p[0] == d && p[|p| - 1] == x;
    FiniteAlong(s, p, k);
  }

  lemma {:induction false} FiniteAlong(s: Container, p: seq<Declaration>, k: nat)
    requires IsPath(s, Contributing, p) && Finite(s, p[0], k)
    ensures Finite(s, p[|p| - 1], k)
    decreases |p|
  {
    if |p| > 1 {
      PathTail(s, Contributing, p);
      FiniteHigher(s, p[1], k - 1, k);
      FiniteAlong(s, p[1..], k);
    }
  }

  // ---- The extent bounds the wire ----

  /** Every byte string a finite declaration describes is within its extent. */
  lemma {:induction false} ExtentBounds(s: Container, d: Declaration, b: seq<byte>, h: nat, k: nat)
    requires Matches(s, d, b, h) && Finite(s, d, k)
    ensures |b| <= Extent(s, EveryCopy, d, k)
    decreases h, 0, 0
  {
    match s.definitions[d]
    case Primitive(_) =>
    case Sequence(width, start, end, elements) =>
      var n: nat :| start <= n <= end && IsSequence(s, width, n, elements, b, h);
      if end == 0 {
        assert MatchesTimes(s, elements, 0, b[width..], h - 1);
      } else {
        assert AllFinite(s, [elements], k - 1);
        TimesBounds(s, elements, n, b[width..], h - 1, k - 1);
        MulMonotone(n, end, Extent(s, EveryCopy, elements, k - 1), Extent(s, EveryCopy, elements, k - 1));
      }
    case Enum(tagWidth, variants) =>
      var i :| 0 <= i < |variants| && IsVariant(s, tagWidth, variants[i], b, h);
      assert VariantTypes(variants)[i] == variants[i].2;
      ExtentBounds(s, variants[i].2, b[tagWidth..], h - 1, k - 1);
      MaxExtentAt(s, EveryCopy, VariantTypes(variants), i, k - 1);
    case Tuple(members) => RowBounds(s, members, b, h - 1, k - 1);
    case Struct(fields) => RowBounds(s, FieldTypes(fields), b, h - 1, k - 1);
  }

  lemma {:induction false} TimesBounds(s: Container, d: Declaration, n: nat, b: seq<byte>, h: nat, k: nat)
    requires MatchesTimes(s, d, n, b, h) && Finite(s, d, k)
    ensures |b| <= n * Extent(s, EveryCopy, d, k)
    decreases h, 1, n
  {
    if n > 0 {
      var cut: nat :| TimesCut(s, d, n, b, cut, h);
      ExtentBounds(s, d, b[..cut], h, k);
      TimesBounds(s, d, n - 1, b[cut..], h, k);
      var e := Extent(s, EveryCopy, d, k);
      assert n * e == (n - 1) * e + e;
    }
  }

  lemma {:induction false} RowBounds(s: Container, ds: seq<Declaration>, b: seq<byte>, h: nat, k: nat)
    requires MatchesRow(s, ds, b, h) && AllFinite(s, ds, k)
    ensures |b| <= SumExtent(s, EveryCopy, ds, k)
    decreases h, 1, |ds|
  {
    if ds != [] {
      var cut: nat :| RowCut(s, ds, b, cut, h);
      ExtentBounds(s, ds[0], b[..cut], h, k);
      RowBounds(s, ds[1..], b[cut..], h, k);
    }
  }

  lemma {:induction false} MaxExtentAt(s: Container, charge: Charge, ds: seq<Declaration>, i: nat, k: nat)
    requires i < |ds| && AllFinite(s, ds, k)
    ensures Extent(s, charge, ds[i], k) <= MaxExtent(s, charge, ds, k)
  {
    if i > 0 {
      MaxExtentAt(s, charge, ds[1..], i - 1, k);
    }
  }

  lemma {:induction false} MaxExtentAttained(s: Container, charge: Charge, ds: seq<Declaration>, k: nat) returns (i: nat)
    requires ds != [] && AllFinite(s, ds, k)
    ensures i < |ds| && Extent(s, charge, ds[i], k) == MaxExtent(s, charge, ds, k)
  {
    i := 0;
    if |ds| > 1 {
      var j := MaxExtentAttained(s, charge, ds[1..], k);
      if Extent(s, charge, ds[0], k) < MaxExtent(s, charge, ds[1..], k) {
        i := j + 1;
      }
    }
  }
}
