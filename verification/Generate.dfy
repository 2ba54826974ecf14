/** Schema generation: the depth-first collection of definitions for a type. */
module Generate {
  import opened Bytes
  import opened Wrappers
  import opened Types
  import opened Schema
  import opened Collection

  // ---- Declarations and definitions ----

  function NatString(n: nat): string {
    var digit := "0123456789"[n % 10];
    if n < 10 then [digit] else NatString(n / 10) + [digit]
  }

  function SeqName(kind: SeqKind): string {
    match kind
    case Vec => "Vec"
    case VecDeque => "VecDeque"
    case LinkedList => "LinkedList"
  }

  function SortedName(kind: SortedKind): string {
    if kind.BTree? then "BTree" else "Hash"
  }

  function Decl(ty: Ty): Declaration {
    match ty
    case TInt(signed, width) => (if signed then "i" else "u") + NatString(8 * width)
    case TNonZero(signed, width) => (if signed then "NonZeroI" else "NonZeroU") + NatString(8 * width)
    case TFloat(width) => "f" + NatString(8 * width)
    case TBool => "bool"
    case TUnit => "()"
    case TString => "String"
    case TOption(some) => "Option" + Angled(Decl(some))
    case TResult(ok, err) => "Result" + Angled(Decl(ok) + ", " + Decl(err))
    case TTuple(elems) => if |elems| == 1 then "(" + Decl(elems[0]) + ",)" else "(" + Join(elems) + ")"
    case TArray(elem, len) => "[" + Decl(elem) + "; " + NatString(len) + "]"
    case TSeq(kind, item) => SeqName(kind) + Angled(Decl(item))
    case TSet(kind, member) => SortedName(kind) + "Set" + Angled(Decl(member))
    case TMap(kind, key, val) => SortedName(kind) + "Map" + Angled(Decl(key) + ", " + Decl(val))
    case TNamed(name) => Ident(name)
  }

  function Angled(arguments: string): string {
    "<" + arguments + ">"
  }

  function Join(tys: seq<Ty>): string {
    if tys == [] then ""
    else if |tys| == 1 then Decl(tys[0])
    else Decl(tys[0]) + ", " + Join(tys[1..])
  }

  function Decls(tys: seq<Ty>): (ds: seq<Declaration>)
    ensures |ds| == |tys|
  {
    seq(|tys|, i requires 0 <= i < |tys| => Decl(tys[i]))
  }

  function FieldsOf(named: bool, fields: seq<(string, Ty)>): Fields {
    if fields == [] then NoFields
    else if named then NamedFields(seq(|fields|, i requires 0 <= i < |fields| => (fields[i].0, Decl(fields[i].1))))
    else UnnamedFields(Decls(FieldTys(fields)))
  }

  function VariantsOf(variants: seq<Variant>): seq<(i64, string, Declaration)> {
    seq(|variants|, i requires 0 <= i < |variants| => (variants[i].tag, variants[i].name, Ident(variants[i].payload)))
  }

  predicate Known(env: Env, ty: Ty) {
    ty.TNamed? ==> ty.name in env.defs
  }

  function VecOf(item: Ty): Definition {
    Sequence(DEFAULT_LENGTH_WIDTH, 0, U32_MAX, Decl(item))
  }

  function DefOf(env: Env, ty: Ty): Definition
    requires Known(env, ty)
  {
    match ty
    case TInt(_, width) => Primitive(width)
    case TNonZero(_, width) => Primitive(width)
    case TFloat(width) => Primitive(width)
    case TBool => Primitive(1)
    case TUnit => Primitive(0)
    case TString => VecOf(U8)
    case TOption(some) => Enum(1, [(0, "None", Decl(TUnit)), (1, "Some", Decl(some))])
    case TResult(ok, err) => Enum(1, [(1, "Ok", Decl(ok)), (0, "Err", Decl(err))])
    case TTuple(elems) => Tuple(Decls(elems))
    case TArray(elem, len) => Sequence(ARRAY_LENGTH_WIDTH, len, len, Decl(elem))
    case TSeq(_, item) => VecOf(item)
    case TSet(_, member) => VecOf(member)
    case TMap(_, key, val) => VecOf(TTuple([key, val]))
    case TNamed(name) =>
      match env.defs[name]
      case StructDef(named, fields) => Struct(FieldsOf(named, fields))
      case EnumDef(variants) => Enum(1, VariantsOf(variants))
  }

  function PayloadTys(variants: seq<Variant>): seq<Ty> {
    seq(|variants|, i requires 0 <= i < |variants| => TNamed(variants[i].payload))
  }

  /** The types whose definitions are added along with `ty`, in order. */
  function Refs(env: Env, ty: Ty): seq<Ty>
    requires Known(env, ty)
  {
    match ty
    case TString => [U8]
    case TOption(some) => [some, TUnit]
    case TResult(ok, err) => [ok, err]
    case TTuple(elems) => elems
    case TArray(elem, _) => [elem]
    case TSeq(_, item) => [item]
    case TSet(_, member) => [member]
    case TMap(_, key, val) => [TTuple([key, val])]
    case TNamed(name) =>
      (match env.defs[name]
       case StructDef(_, fields) => FieldTys(fields)
       case EnumDef(variants) => PayloadTys(variants))
    case _ => []
  }

  /** The definition of a type mentions exactly the declarations of the types it refers
      to, and in the same order but for options, whose unit comes last. */
  lemma ReferencesAreRefs(env: Env, ty: Ty)
    requires Known(env, ty)
    ensures !ty.TOption? ==> References(DefOf(env, ty)) == Decls(Refs(env, ty))
    ensures ty.TOption? ==> Refs(env, ty) == [ty.some, TUnit]
    ensures forall c :: c in References(DefOf(env, ty)) <==> c in Decls(Refs(env, ty))
  {
    var rs, ds := References(DefOf(env, ty)), Decls(Refs(env, ty));
    if ty.TOption? {
      assert rs == [Decl(TUnit), Decl(ty.some)] && ds == [Decl(ty.some), Decl(TUnit)];
    } else {
      assert rs == ds;
    }
  }

  // ---- The types as nodes of the collection ----

  function TySize(env: Env, ty: Ty): (n: nat)
    ensures n > 0
  {
    match ty
    case TString => 2
    case TOption(some) => 2 + TySize(env, some)
    case TResult(ok, err) => 1 + TySize(env, ok) + TySize(env, err)
    case TTuple(elems) => 1 + RowTySize(env, elems)
    case TArray(elem, _) => 1 + TySize(env, elem)
    case TSeq(_, item) => 1 + TySize(env, item)
    case TSet(_, member) => 1 + TySize(env, member)
    case TMap(_, key, val) => 2 + TySize(env, key) + TySize(env, val)
    case TNamed(name) => if name in env.defs && env.defs[name].EnumDef? then 2 + |env.defs[name].variants| else 1
    case _ => 1
  }

  function RowTySize(env: Env, tys: seq<Ty>): nat {
    if tys == [] then 0 else TySize(env, tys[0]) + RowTySize(env, tys[1..])
  }

  /** A derived struct is guarded, a derived enum comes last, everything built in comes first. */
  function ModeOf(env: Env, ty: Ty): Mode {
    if !ty.TNamed? then First else if IsStruct(env, ty.name) then Guarded else Last
  }

  function NodeOf(env: Env, ty: Ty): Node
    requires Known(env, ty)
  {
    Node(ModeOf(env, ty), Decl(ty), DefOf(env, ty), Refs(env, ty), TySize(env, ty))
  }

  /** A set of types closed under reference, with every name defined. */
  ghost predicate Universe(env: Env, all: set<Ty>) {
    forall t | t in all :: RefersWithin(env, all, t)
  }

  ghost predicate RefersWithin(env: Env, all: set<Ty>, t: Ty) {
    Known(env, t) && forall r | r in Refs(env, t) :: r in all
  }

  ghost function TableOf(env: Env, all: set<Ty>): Table
    requires Universe(env, all)
  {
    map t | t in all && (assert RefersWithin(env, all, t); true) :: NodeOf(env, t)
  }

  lemma RowSizes(env: Env, all: set<Ty>, tys: seq<Ty>)
    requires Universe(env, all) && forall t | t in tys :: t in all
    ensures RowSize(TableOf(env, all), tys) == RowTySize(env, tys)
  {
    if tys != [] {
      assert RefersWithin(env, all, tys[0]);
      RowSizes(env, all, tys[1..]);
    }
  }

  lemma RowOfTwo(env: Env, a: Ty, b: Ty)
    ensures RowTySize(env, [a]) == TySize(env, a)
    ensures RowTySize(env, [a, b]) == TySize(env, a) + TySize(env, b)
  {
    assert [a, b][1..] == [b] && [b][1..] == [] && [a][1..] == [];
  }

  lemma {:induction false} PayloadSize(env: Env, variants: seq<Variant>)
    requires forall i | 0 <= i < |variants| :: IsStruct(env, variants[i].payload)
    ensures RowTySize(env, PayloadTys(variants)) == |variants|
  {
    if variants != [] {
      assert PayloadTys(variants)[1..] == PayloadTys(variants[1..]);
      PayloadSize(env, variants[1..]);
    }
  }

  lemma EntryIsSmaller(env: Env, key: Ty, val: Ty)
    ensures RowTySize(env, [TTuple([key, val])]) == 1 + TySize(env, key) + TySize(env, val)
  {
    RowOfTwo(env, key, val);
    RowOfTwo(env, TTuple([key, val]), TUnit);
  }

  lemma RefsAreSmaller(env: Env, ty: Ty)
    requires HasVariantStructs(env) && Known(env, ty) && !ModeOf(env, ty).Guarded?
    ensures RowTySize(env, Refs(env, ty)) < TySize(env, ty)
  {
    if ty.TOption? {
      RowOfTwo(env, ty.some, TUnit);
    } else if ty.TResult? {
      RowOfTwo(env, ty.ok, ty.err);
    } else if ty.TMap? {
      EntryIsSmaller(env, ty.key, ty.val);
    } else if ty.TNamed? {
      assert VariantsAreStructs(env, ty.name);
      PayloadSize(env, env.defs[ty.name].variants);
    } else if ty.TString? || ty.TArray? || ty.TSeq? || ty.TSet? {
      RowOfTwo(env, Refs(env, ty)[0], TUnit);
    }
  }

  /** The table of a universe of types meets what the collection asks of it. */
  lemma TableIsSound(env: Env, all: set<Ty>)
    requires HasVariantStructs(env) && Universe(env, all)
    ensures SoundTable(TableOf(env, all))
  {
    var table := TableOf(env, all);
    forall t ensures SoundNode(table, t) {
      if t in table {
        NodeIsSound(env, all, t);
      }
    }
  }

  lemma NodeIsSound(env: Env, all: set<Ty>, t: Ty)
    requires HasVariantStructs(env) && Universe(env, all) && t in all
    ensures SoundNode(TableOf(env, all), t)
  {
    var table := TableOf(env, all);
    assert RefersWithin(env, all, t);
    ReferencesAreRefs(env, t);
    assert DeclsIn(table, table[t].refs) == Decls(Refs(env, t)) by {
      forall i | 0 <= i < |Refs(env, t)| ensures table[Refs(env, t)[i]].decl == Decl(Refs(env, t)[i]) {
        assert RefersWithin(env, all, Refs(env, t)[i]);
      }
    }
    if !ModeOf(env, t).Guarded? {
      RefsAreSmaller(env, t);
      RowSizes(env, all, Refs(env, t));
    }
  }

  ghost function ForType(env: Env, all: set<Ty>, ty: Ty): Result<Container, Declaration>
    requires HasVariantStructs(env) && Universe(env, all) && ty in all
  {
    TableIsSound(env, all);
    var m :- Add(TableOf(env, all), ty, map[]);
    Ok(Container(Decl(ty), m))
  }

  // ---- The collection as the program runs it ----

  /** The `&mut BTreeMap` that the recursion fills. */
  class DefinitionMap {
    var defs: Definitions

    constructor ()
      ensures defs == map[]
    {
      defs := map[];
    }

    method AddOne(d: Declaration, def: Definition) returns (r: Result<(), Declaration>)
      modifies this
      ensures match AddDefinition(d, def, old(defs))
              case Ok(m) => r == Ok(()) && defs == m
              case Err(e) => r == Err(e) && defs == old(defs)
    {
      if d in defs {
        if defs[d] != def {
          return Err(d);
        }
      } else {
        defs := defs[d := def];
      }
      return Ok(());
    }

    method AddRecursively(env: Env, ghost all: set<Ty>, ty: Ty) returns (r: Result<(), Declaration>)
      requires HasVariantStructs(env) && Universe(env, all) && SoundTable(TableOf(env, all)) && ty in all
      modifies this
      ensures match Add(TableOf(env, all), ty, old(defs))
              case Ok(m) => r == Ok(()) && defs == m
              case Err(e) => r == Err(e)
      decreases Missing(TableOf(env, all), defs), TySize(env, ty), 1
    {
      assert RefersWithin(env, all, ty);
      ghost var table := TableOf(env, all);
      assert SoundNode(table, ty) && table[ty] == NodeOf(env, ty);
      var mode, d, def, refs := ModeOf(env, ty), Decl(ty), DefOf(env, ty), Refs(env, ty);
      if mode.Guarded? {
        var noRecursion := d !in defs;
        var _ :- AddOne(d, def);
        if noRecursion {
          MissingShrinks(table, old(defs), defs, ty);
          var _ :- AddEach(env, all, refs);
        }
      } else if mode.Last? {
        RowSizes(env, all, refs);
        var _ :- AddEach(env, all, refs);
        var _ :- AddOne(d, def);
      } else {
        RowSizes(env, all, refs);
        var _ :- AddOne(d, def);
        MissingShrinks(table, old(defs), defs, ty);
        var _ :- AddEach(env, all, refs);
      }
      return Ok(());
    }

    method AddEach(env: Env, ghost all: set<Ty>, tys: seq<Ty>) returns (r: Result<(), Declaration>)
      requires HasVariantStructs(env) && Universe(env, all) && SoundTable(TableOf(env, all)) && forall t | t in tys :: t in all
      modifies this
      ensures match AddAll(TableOf(env, all), tys, old(defs))
              case Ok(m) => r == Ok(()) && defs == m
              case Err(e) => r == Err(e)
      decreases Missing(TableOf(env, all), defs), RowTySize(env, tys), 2
    {
      if tys != [] {
        assert RefersWithin(env, all, tys[0]);
        var _ :- AddRecursively(env, all, tys[0]);
        MissingShrinks(TableOf(env, all), old(defs), defs, tys[0]);
        var _ :- AddEach(env, all, tys[1..]);
      }
      return Ok(());
    }
  }

  /** Which panic comes first: an enum adds what it refers to and then itself, every
      other type is found to conflict before anything else is added. */
  lemma FirstPanic(env: Env, all: set<Ty>, ty: Ty, m: Definitions)
    requires HasVariantStructs(env) && Universe(env, all) && SoundTable(TableOf(env, all)) && ty in all && Known(env, ty)
    ensures var table, d := TableOf(env, all), Decl(ty);
            var conflicts := d in m && m[d] != DefOf(env, ty);
            if ty.TNamed? && env.defs[ty.name].EnumDef? then
              && (forall r | r in Refs(env, ty) :: r in table)
              && match AddAll(table, Refs(env, ty), m)
                 case Ok(m') =>
                   if d in m' && m'[d] != DefOf(env, ty) then Add(table, ty, m) == Err(d) else Add(table, ty, m).Ok?
                 case Err(c) => Add(table, ty, m) == Err(c)
            else conflicts ==> Add(table, ty, m) == Err(d)
  {
    assert SoundNode(TableOf(env, all), ty) && RefersWithin(env, all, ty);
  }

  // ---- The generated container ----

  /** The generated container defines exactly the declarations reachable from
      its root, and lacks none that a definition mentions. */
  lemma GeneratedExact(env: Env, all: set<Ty>, ty: Ty)
    requires HasVariantStructs(env) && Universe(env, all) && ty in all && ForType(env, all, ty).Ok?
    ensures var s := ForType(env, all, ty).value;
            && ClosedExcept(s.definitions, {})
            && forall x :: x in s.definitions <==> Reaches(s, Mentioned, s.declaration, x)
  {
    TableIsSound(env, all);
    assert RefersWithin(env, all, ty);
    CollectedExact(TableOf(env, all), ty);
  }

  /** No two different definitions share a declaration. */
  ghost predicate Coherent(env: Env, all: set<Ty>)
    requires Universe(env, all)
  {
    NoConflicts(TableOf(env, all))
  }

  /** Types whose declarations determine their definitions generate a schema
      without a panic, and every definition in it is the one its type has. */
  lemma GenerationSucceeds(env: Env, all: set<Ty>, ty: Ty)
    requires HasVariantStructs(env) && Universe(env, all) && Coherent(env, all) && ty in all
    ensures ForType(env, all, ty).Ok?
    ensures forall t | t in all && Decl(t) in ForType(env, all, ty).value.definitions ::
              RefersWithin(env, all, t) && ForType(env, all, ty).value.definitions[Decl(t)] == DefOf(env, t)
    ensures forall d | d in ForType(env, all, ty).value.definitions ::
              exists t :: IsOwnDefinition(env, all, d, ForType(env, all, ty).value.definitions[d], t)
  {
    TableIsSound(env, all);
    var table := TableOf(env, all);
    AddSucceeds(table, ty, map[]);
    var m := ForType(env, all, ty).value.definitions;
    forall t | t in all && Decl(t) in m ensures RefersWithin(env, all, t) && m[Decl(t)] == DefOf(env, t) {
      assert RefersWithin(env, all, t);
      var u :| IsDefinitionOf(table, table.Keys, Decl(t), m[Decl(t)], u);
      assert NoConflict(table, t, u);
    }
    forall d | d in m ensures exists t :: IsOwnDefinition(env, all, d, m[d], t) {
      var t :| IsDefinitionOf(table, table.Keys, d, m[d], t);
      assert RefersWithin(env, all, t);
      assert IsOwnDefinition(env, all, d, m[d], t);
    }
  }

  /** Structs of these types with one name and one definition hold the same types. */
  ghost predicate FaithfulStructs(env: Env, all: set<Ty>) {
    forall s, u :: FaithfulStructPair(env, all, s, u)
  }

  ghost predicate FaithfulStructPair(env: Env, all: set<Ty>, s: string, u: string) {
    && IsStruct(env, s) && TNamed(s) in all && IsStruct(env, u) && TNamed(u) in all
    && Ident(s) == Ident(u) && DefOf(env, TNamed(s)) == DefOf(env, TNamed(u)) ==>
      FieldTys(env.defs[s].fields) == FieldTys(env.defs[u].fields)
  }

  /** Structs are the guarded types, and only they are declared as structs. */
  lemma StructsAreFaithful(env: Env, all: set<Ty>, some: set<Ty>)
    requires Universe(env, all) && some <= all
    ensures FaithfulStructs(env, some) <==> Faithful(TableOf(env, all), some)
  {
    var table := TableOf(env, all);
    if FaithfulStructs(env, some) {
      forall t, u ensures FaithfulPair(table, some, t, u) {
        if t in some && u in some && table[t].mode.Guarded? && table[t].decl == table[u].decl && table[t].def == table[u].def {
          assert RefersWithin(env, all, t) && RefersWithin(env, all, u);
          assert DefOf(env, u).Struct?;
          assert FaithfulStructPair(env, some, t.name, u.name);
        }
      }
    }
    if Faithful(table, some) {
      forall s, u ensures FaithfulStructPair(env, some, s, u) {
        if IsStruct(env, s) && TNamed(s) in some && IsStruct(env, u) && TNamed(u) in some {
          assert RefersWithin(env, all, TNamed(s)) && RefersWithin(env, all, TNamed(u));
          assert FaithfulPair(table, some, TNamed(s), TNamed(u));
        }
      }
    }
  }

  /** The panic, exactly: of the types that `ty` leads to, two have one declaration
      and different definitions. Only of structs is anything assumed. */
  lemma PanicsIffConflict(env: Env, all: set<Ty>, ty: Ty)
    requires HasVariantStructs(env) && Universe(env, all) && ty in all
    requires FaithfulStructs(env, Below(TableOf(env, all), ty))
    ensures ForType(env, all, ty).Err? <==> HasConflict(TableOf(env, all), Below(TableOf(env, all), ty))
  {
    TableIsSound(env, all);
    assert RefersWithin(env, all, ty);
    StructsAreFaithful(env, all, Below(TableOf(env, all), ty));
    PanicIffConflict(TableOf(env, all), ty);
  }

  /** Nothing assumed: there is a conflict below `ty` if and only if generation
      panics or its schema lacks the own definition of some type below. */
  lemma PanicsOrHides(env: Env, all: set<Ty>, ty: Ty)
    requires HasVariantStructs(env) && Universe(env, all) && ty in all
    ensures ForType(env, all, ty).Err? || !HasAllBelow(TableOf(env, all), ForType(env, all, ty).value.definitions, ty) <==>
            HasConflict(TableOf(env, all), Below(TableOf(env, all), ty))
  {
    TableIsSound(env, all);
    assert RefersWithin(env, all, ty);
    PanicOrHidden(TableOf(env, all), ty);
  }

  // ---- A directly recursive type ----

  /** A struct that holds only itself, as through a box. */
  predicate IsDirectlyRecursive(env: Env, name: string) {
    name in env.defs && env.defs[name] == StructDef(false, [("0", TNamed(name))])
  }

  /** The guard ends the recursion: the schema has the one definition, which
      refers to itself. */
  lemma DirectlyRecursiveSchema(env: Env, name: string)
    requires HasVariantStructs(env) && IsDirectlyRecursive(env, name)
    ensures Universe(env, {TNamed(name)})
    ensures ForType(env, {TNamed(name)}, TNamed(name)) ==
            Ok(Container(Ident(name), map[Ident(name) := Struct(UnnamedFields([Ident(name)]))]))
  {
    var ty := TNamed(name);
    var all := {ty};
    assert FieldTys(env.defs[name].fields) == [ty];
    assert RefersWithin(env, all, ty);
    TableIsSound(env, all);
    var table := TableOf(env, all);
    assert Decls([ty]) == [Ident(name)];
    var m := map[Ident(name) := Struct(UnnamedFields([Ident(name)]))];
    assert table[ty].def == m[Ident(name)] && table[ty].refs == [ty] && table[ty].mode == Guarded;
    assert AddDefinition(Ident(name), table[ty].def, map[]) == Ok(m);
    assert Add(table, ty, m) == Ok(m);
    assert [ty][1..] == [] && AddAll(table, [], m) == Ok(m);
    assert AddAll(table, [ty], m) == Ok(m);
  }

  ghost predicate IsOwnDefinition(env: Env, all: set<Ty>, d: Declaration, def: Definition, t: Ty) {
    t in all && Known(env, t) && Decl(t) == d && DefOf(env, t) == def
  }
}
