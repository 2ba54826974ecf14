/** Some described byte string is as long as the extent. */
module Attainment {
  import opened Bytes
  import opened Schema
  import opened Wire
  import opened Extents

  /** The largest case of this definition can be written down: the longest
      permitted length exists and fits its prefix, and an enum has a variant. */
  predicate Inhabited(def: Definition) {
    match def
    case Sequence(width, start, end, _) => start <= end && Representable(width, end)
    case Enum(_, variants) => variants != []
    case _ => true
  }

  ghost predicate InhabitedBelow(s: Container, d: Declaration) {
    forall x :: InhabitedAt(s, d, x)
  }

  ghost predicate InhabitedAt(s: Container, d: Declaration, x: Declaration) {
    Reaches(s, Contributing, d, x) && x in s.definitions ==> Inhabited(s.definitions[x])
  }

  lemma InhabitedPart(s: Container, d: Declaration, c: Declaration)
    requires InhabitedBelow(s, d) && c in Next(s, Contributing, d)
    ensures InhabitedBelow(s, c)
  {
    forall x ensures InhabitedAt(s, c, x) {
      if Reaches(s, Contributing, c, x) {
        ReachesStep(s, Contributing, d, c, x);
        assert InhabitedAt(s, d, x);
      }
    }
  }

  /** Some described byte string is exactly as long as the extent. */
  lemma {:induction false} ExtentAttained(s: Container, d: Declaration, k: nat) returns (b: seq<byte>)
    requires Finite(s, d, k) && InhabitedBelow(s, d)
    ensures Matches(s, d, b, k) && |b| == Extent(s, EveryCopy, d, k)
    decreases k, 0, 0
  {
    ReachesSelf(s, Contributing, d);
    assert InhabitedAt(s, d, d);
    match s.definitions[d]
    case Primitive(size) => b := Zeros(size);
    case Sequence(_, _, _, _) => b := SequenceAttained(s, d, k);
    case Enum(_, _) => b := EnumAttained(s, d, k);
    case Tuple(members) => b := RowAttained(s, d, members, k - 1);
    case Struct(fields) => b := RowAttained(s, d, FieldTypes(fields), k - 1);
  }

  lemma {:induction false} SequenceAttained(s: Container, d: Declaration, k: nat) returns (b: seq<byte>)
    requires Finite(s, d, k) && InhabitedBelow(s, d)
    requires s.definitions[d].Sequence? && Inhabited(s.definitions[d])
    ensures Matches(s, d, b, k) && |b| == Extent(s, EveryCopy, d, k)
    decreases k - 1, 5, 0
  {
    var Sequence(width, start, end, elements) := s.definitions[d];
    var body := [];
    if end > 0 {
      InhabitedPart(s, d, elements);
      var longest := ExtentAttained(s, elements, k - 1);
      body := TimesAttained(s, elements, end, longest, k - 1);
    }
    b := LittleEndian(width, end) + body;
    SequenceOf(s, width, end, elements, body, k - 1);
    assert IsSequence(s, width, end, elements, b, k);
  }

  lemma {:induction false} EnumAttained(s: Container, d: Declaration, k: nat) returns (b: seq<byte>)
    requires Finite(s, d, k) && InhabitedBelow(s, d)
    requires s.definitions[d].Enum? && Inhabited(s.definitions[d])
    ensures Matches(s, d, b, k) && |b| == Extent(s, EveryCopy, d, k)
    decreases k - 1, 5, 0
  {
    var Enum(tagWidth, variants) := s.definitions[d];
    var i := MaxExtentAttained(s, EveryCopy, VariantTypes(variants), k - 1);
    assert VariantTypes(variants)[i] == variants[i].2;
    InhabitedPart(s, d, variants[i].2);
    var body := ExtentAttained(s, variants[i].2, k - 1);
    b := TagBytes(tagWidth, variants[i].0) + body;
    VariantOf(s, tagWidth, variants[i], body, k - 1);
    assert IsVariant(s, tagWidth, variants[i], b, k);
  }

  lemma {:induction false} TimesAttained(s: Container, d: Declaration, n: nat, each: seq<byte>, h: nat) returns (b: seq<byte>)
    requires Matches(s, d, each, h)
    ensures MatchesTimes(s, d, n, b, h) && |b| == n * |each|
  {
    b := [];
    if n > 0 {
      var rest := TimesAttained(s, d, n - 1, each, h);
      TimesCons(s, d, n - 1, each, rest, h);
      b := each + rest;
      assert n * |each| == (n - 1) * |each| + |each|;
    }
  }

  lemma {:induction false} RowAttained(s: Container, owner: Declaration, ds: seq<Declaration>, k: nat) returns (b: seq<byte>)
    requires AllFinite(s, ds, k) && InhabitedBelow(s, owner)
    requires forall d | d in ds :: d in Next(s, Contributing, owner)
    ensures MatchesRow(s, ds, b, k) && |b| == SumExtent(s, EveryCopy, ds, k)
    decreases k, 1, |ds|
  {
    b := [];
    if ds != [] {
      InhabitedPart(s, owner, ds[0]);
      var first := ExtentAttained(s, ds[0], k);
      var rest := RowAttained(s, owner, ds[1..], k);
      RowCons(s, ds, first, rest, k);
      b := first + rest;
    }
  }

  function Zeros(n: nat): (b: seq<byte>)
    ensures |b| == n
  {
    seq(n, _ => 0)
  }
}
