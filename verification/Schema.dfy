/** Declarations, definitions and the declaration graph of a schema container. */
module Schema {
  import opened Bytes
  import opened Wrappers

  type Declaration = string

  datatype Fields =
    | NamedFields(named: seq<(string, Declaration)>)
    | UnnamedFields(unnamed: seq<Declaration>)
    | NoFields

  datatype Definition =
    | Primitive(size: u8)
    | Sequence(lengthWidth: u8, start: u64, end: u64, elements: Declaration)
    | Tuple(members: seq<Declaration>)
    | Enum(tagWidth: u8, variants: seq<(i64, string, Declaration)>)
    | Struct(fields: Fields)

  const ARRAY_LENGTH_WIDTH: u8 := 0
  const DEFAULT_LENGTH_WIDTH: u8 := 4

  datatype Container = Container(declaration: Declaration, definitions: map<Declaration, Definition>)

  function FieldTypes(fields: Fields): seq<Declaration> {
    match fields
    case NamedFields(named) => seq(|named|, i requires 0 <= i < |named| => named[i].1)
    case UnnamedFields(unnamed) => unnamed
    case NoFields => []
  }

  function VariantTypes(variants: seq<(i64, string, Declaration)>): seq<Declaration> {
    seq(|variants|, i requires 0 <= i < |variants| => variants[i].2)
  }

  /** The number of lengths a sequence permits; counting all lengths from zero to
      the largest word overflows a word, and the count panics. */
  function LengthCount(def: Definition): Option<usize>
    requires def.Sequence?
  {
    if def.start > def.end then Some(0)
    else if def.end - def.start == USIZE_MAX then None
    else Some(def.end - def.start + 1)
  }

  /** The zero-size walk and validation count the lengths of untagged sequences only. */
  predicate CountPanics(def: Definition) {
    def.Sequence? && def.lengthWidth == ARRAY_LENGTH_WIDTH && LengthCount(def).None?
  }

  /** A sequence of one permitted length and without a tag, as of an array. */
  predicate IsFixed(def: Definition) {
    def.Sequence? && def.lengthWidth == 0 && def.start == def.end
  }

  /** A sequence of every length from zero to the largest word and without a tag. */
  predicate PermitsEveryLength(def: Definition) {
    def.Sequence? && def.lengthWidth == 0 && def.start == 0 && def.end == U64_MAX
  }

  /** Counting fails for exactly one range. */
  lemma CountPanicsExactly(def: Definition)
    ensures CountPanics(def) <==> PermitsEveryLength(def)
  {
  }

  /** Every declaration a definition mentions. */
  function References(def: Definition): seq<Declaration> {
    match def
    case Primitive(_) => []
    case Sequence(_, _, _, elements) => [elements]
    case Tuple(members) => members
    case Enum(_, variants) => VariantTypes(variants)
    case Struct(fields) => FieldTypes(fields)
  }

  /** The mentioned declarations that can contribute bytes: a sequence that
      holds no element never looks at its element type. */
  function Parts(def: Definition): seq<Declaration> {
    if def.Sequence? && def.end == 0 then [] else References(def)
  }

  /** The members of tuples, the fields of structs and the variants of enums are
      mentioned in the order in which they are written. */
  lemma MentionedInOrder(def: Definition)
    ensures def.Sequence? ==> References(def) == [def.elements]
    ensures def.Tuple? ==>
              |References(def)| == |def.members| && forall i | 0 <= i < |def.members| :: References(def)[i] == def.members[i]
    ensures def.Enum? ==>
              |References(def)| == |def.variants| && forall i | 0 <= i < |def.variants| :: References(def)[i] == def.variants[i].2
    ensures def.Struct? && def.fields.NamedFields? ==>
              var fields := def.fields.named;
              |References(def)| == |fields| && forall i | 0 <= i < |fields| :: References(def)[i] == fields[i].1
    ensures def.Struct? && def.fields.UnnamedFields? ==>
              var fields := def.fields.unnamed;
              |References(def)| == |fields| && forall i | 0 <= i < |fields| :: References(def)[i] == fields[i]
    ensures (def.Primitive? || (def.Struct? && def.fields.NoFields?)) ==> References(def) == []
  {
  }

  datatype Edge = Mentioned | Contributing

  function Next(s: Container, edge: Edge, d: Declaration): seq<Declaration> {
    if d !in s.definitions then []
    else if edge.Mentioned? then References(s.definitions[d])
    else Parts(s.definitions[d])
  }

  ghost predicate IsPath(s: Container, edge: Edge, p: seq<Declaration>) {
    && |p| > 0
    && forall i | 0 <= i < |p| - 1 :: IsStep(s, edge, p, i)
  }

  ghost predicate IsStep(s: Container, edge: Edge, p: seq<Declaration>, i: nat)
    requires i + 1 < |p|
  {
    p[i + 1] in Next(s, edge, p[i])
  }

  /** `x` can be reached from `d` along the given kind of edge, in any number of steps. */
  ghost predicate Reaches(s: Container, edge: Edge, d: Declaration, x: Declaration) {
    exists p :: IsPath(s, edge, p) && p[0] == d && p[|p| - 1] == x
  }

  lemma ReachesSelf(s: Container, edge: Edge, d: Declaration)
    ensures Reaches(s, edge, d, d)
  {
    assert IsPath(s, edge, [d]);
  }

  lemma ReachesStep(s: Container, edge: Edge, d: Declaration, c: Declaration, x: Declaration)
    requires c in Next(s, edge, d)
    requires Reaches(s, edge, c, x)
    ensures Reaches(s, edge, d, x)
  {
    var p :| IsPath(s, edge, p) && p[0] == c && p[|p| - 1] == x;
    var q := [d] + p;
    forall i | 0 <= i < |q| - 1 ensures IsStep(s, edge, q, i) {
      if i > 0 {
        assert IsStep(s, edge, p, i - 1);
      }
    }
    assert IsPath(s, edge, q);
  }

  lemma ReachesTransitive(s: Container, edge: Edge, d: Declaration, x: Declaration, y: Declaration)
    requires Reaches(s, edge, d, x) && Reaches(s, edge, x, y)
    ensures Reaches(s, edge, d, y)
  {
    var p :| IsPath(s, edge, p) && p[0] == d && p[|p| - 1] == x;
    var q :| IsPath(s, edge, q) && q[0] == x && q[|q| - 1] == y;
    var r := p + q[1..];
    forall i | 0 <= i < |r| - 1 ensures IsStep(s, edge, r, i) {
      if i >= |p| - 1 {
        assert IsStep(s, edge, q, i - |p| + 1);
      } else {
        assert IsStep(s, edge, p, i);
      }
    }
    assert IsPath(s, edge, r);
  }

  lemma ContributingIsMentioned(s: Container, d: Declaration, x: Declaration)
    requires Reaches(s, Contributing, d, x)
    ensures Reaches(s, Mentioned, d, x)
  {
    var p :| IsPath(s, Contributing, p) && p[0] == d && p[|p| - 1] == x;
    forall i | 0 <= i < |p| - 1 ensures IsStep(s, Mentioned, p, i) {
      assert IsStep(s, Contributing, p, i);
    }
    assert IsPath(s, Mentioned, p);
  }

  /** A path without its first declaration. */
  lemma PathTail(s: Container, edge: Edge, p: seq<Declaration>)
    requires IsPath(s, edge, p) && |p| > 1
    ensures p[1] in Next(s, edge, p[0]) && IsPath(s, edge, p[1..])
  {
    assert IsStep(s, edge, p, 0);
    forall i | 0 <= i < |p[1..]| - 1 ensures IsStep(s, edge, p[1..], i) {
      assert IsStep(s, edge, p, i + 1);
    }
  }

  lemma {:induction false} PathSuffix(s: Container, edge: Edge, p: seq<Declaration>, i: nat)
    requires IsPath(s, edge, p) && i < |p|
    ensures IsPath(s, edge, p[i..])
  {
    if i > 0 {
      PathTail(s, edge, p);
      PathSuffix(s, edge, p[1..], i - 1);
      assert p[1..][i - 1..] == p[i..];
    }
  }

  // The recursion measure shared by every walk over the graph: the defined
  // declarations that are not on the stack.

  function Elements(stack: seq<Declaration>): set<Declaration> {
    set d | d in stack
  }

  ghost function Unvisited(s: Container, stack: seq<Declaration>): nat {
    Count(s.definitions.Keys - Elements(stack))
  }

  lemma PushShrinks(s: Container, stack: seq<Declaration>, d: Declaration)
    requires d in s.definitions && d !in stack
    ensures Unvisited(s, stack + [d]) < Unvisited(s, stack)
  {
    var before, after := s.definitions.Keys - Elements(stack), s.definitions.Keys - Elements(stack + [d]);
    assert after == before - {d};
    CountSubset(after, before - {d});
    CountIsSize(before);
    CountIsSize(before - {d});
  }

  lemma PrefixShrinks(s: Container, stack: seq<Declaration>, longer: seq<Declaration>)
    requires stack <= longer
    ensures Unvisited(s, longer) <= Unvisited(s, stack)
  {
    CountSubset(s.definitions.Keys - Elements(longer), s.definitions.Keys - Elements(stack));
  }

  /** The number of elements of a set, by removing them one at a time. */
  ghost function Count<T>(a: set<T>): nat {
    if a == {} then 0 else
      var x :| x in a;
      1 + Count(a - {x})
  }

  lemma {:induction false} CountIsSize<T>(a: set<T>)
    ensures Count(a) == |a|
  {
    if a != {} {
      var x :| x in a && Count(a) == 1 + Count(a - {x});
      CountIsSize(a - {x});
    }
  }

  lemma {:induction false} SubsetSize<T>(a: set<T>, b: set<T>)
    requires a <= b
    ensures |a| <= |b|
  {
    if x :| x in a {
      SubsetSize(a - {x}, b - {x});
    }
  }

  lemma CountSubset<T>(a: set<T>, b: set<T>)
    requires a <= b
    ensures Count(a) <= Count(b)
  {
    CountIsSize(a);
    CountIsSize(b);
    SubsetSize(a, b);
  }

  /** The `&mut Vec` of declarations under inspection that the walks share. */
  class DeclStack {
    var items: seq<Declaration>

    constructor ()
      ensures items == []
    {
      items := [];
    }

    method Push(d: Declaration)
      modifies this
      ensures items == old(items) + [d]
    {
      items := items + [d];
    }

    method Pop()
      requires items != []
      modifies this
      ensures items == old(items[..|items| - 1])
    {
      items := items[..|items| - 1];
    }
  }
}
