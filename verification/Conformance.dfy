/** The generated schema describes the encoder's bytes, and what the schema analyses then say about values. */
module Conformance {
  import opened Bytes
  import opened Wrappers
  import opened Types
  import opened Codec
  import opened Schema
  import opened Wire
  import opened Extents
  import opened Attainment
  import opened Collection
  import opened Generate
  import C = Charging
  import M = MaxSize
  import V = Validate
  import Z = ZeroSize

  ghost predicate DefinedAs(env: Env, all: set<Ty>, s: Container, t: Ty) {
    t in all && Decl(t) in s.definitions ==> RefersWithin(env, all, t) && s.definitions[Decl(t)] == DefOf(env, t)
  }

  /** A schema without gaps in which each declared type has its own definition. */
  ghost predicate Covers(env: Env, all: set<Ty>, s: Container) {
    && ClosedExcept(s.definitions, {})
    && forall t :: DefinedAs(env, all, s, t)
  }

  /** What a covered schema says about one type and the types it refers to. */
  lemma Covered(env: Env, all: set<Ty>, s: Container, t: Ty)
    requires Covers(env, all, s) && t in all && Decl(t) in s.definitions
    ensures Known(env, t) && s.definitions[Decl(t)] == DefOf(env, t)
    ensures forall r | r in Refs(env, t) :: r in all && Decl(r) in s.definitions
  {
    assert DefinedAs(env, all, s, t);
    ReferencesAreRefs(env, t);
    forall r | r in Refs(env, t) ensures r in all && Decl(r) in s.definitions {
      var i :| 0 <= i < |Refs(env, t)| && Refs(env, t)[i] == r;
      assert Decls(Refs(env, t))[i] == Decl(r);
      assert Decl(r) in References(DefOf(env, t));
    }
  }

  lemma OneByteTag(tag: byte)
    ensures TagBytes(1, tag) == [tag]
  {
    Pow256Values();
    assert tag % Pow256(8) == tag;
    assert LittleEndian(1, tag) == [tag];
  }

  ghost predicate Encodes(env: Env, ty: Ty, v: Val) {
    HasType(env, ty, v) && Encode(env, ty, v).Ok?
  }

  /** The bytes of every value belong to what the schema describes for its type. */
  lemma {:induction false} EncodingConforms(env: Env, all: set<Ty>, s: Container, ty: Ty, v: Val) returns (h: nat)
    requires Covers(env, all, s) && ty in all && Decl(ty) in s.definitions
    requires Encodes(env, ty, v)
    ensures Matches(s, Decl(ty), Encode(env, ty, v).value, h)
    decreases v, 2
  {
    Covered(env, all, s, ty);
    if ty.TOption? {
      h := OptionConforms(env, all, s, ty.some, v);
    } else if ty.TResult? {
      h := ResultConforms(env, all, s, ty.ok, ty.err, v);
    } else if ty.TString? || ty.TSeq? || IsSorted(ty) || ty.TArray? {
      h := SequenceConforms(env, all, s, ty, v);
    } else if ty.TTuple? {
      h := RowConforms(env, all, s, ty.elems, v.items);
      h := h + 1;
    } else if ty.TNamed? {
      h := NamedConforms(env, all, s, ty, v);
    } else {
      h := 1;
    }
  }

  /** A one-byte tag and the payload of its variant. */
  lemma VariantConforms(s: Container, d: Declaration, i: nat, tag: byte, body: seq<byte>, h: nat)
    requires d in s.definitions && s.definitions[d].Enum? && s.definitions[d].tagWidth == 1
    requires i < |s.definitions[d].variants| && s.definitions[d].variants[i].0 == tag
    requires Matches(s, s.definitions[d].variants[i].2, body, h)
    ensures Matches(s, d, [tag] + body, h + 1)
  {
    var variants := s.definitions[d].variants;
    VariantOf(s, 1, variants[i], body, h);
    OneByteTag(tag);
    assert IsVariant(s, 1, variants[i], [tag] + body, h + 1);
  }

  lemma {:induction false} OptionConforms(env: Env, all: set<Ty>, s: Container, some: Ty, v: Val) returns (h: nat)
    requires Covers(env, all, s) && TOption(some) in all && Decl(TOption(some)) in s.definitions
    requires Encodes(env, TOption(some), v)
    ensures Matches(s, Decl(TOption(some)), Encode(env, TOption(some), v).value, h)
    decreases v, 1
  {
    var ty := TOption(some);
    Covered(env, all, s, ty);
    assert some in Refs(env, ty) && TUnit in Refs(env, ty);
    if v.VNone? {
      Covered(env, all, s, TUnit);
      assert Matches(s, Decl(TUnit), [], 1);
      VariantConforms(s, Decl(ty), 0, 0, [], 1);
      h := 2;
    } else {
      h := EncodingConforms(env, all, s, some, v.v);
      VariantConforms(s, Decl(ty), 1, 1, Encode(env, some, v.v).value, h);
      h := h + 1;
    }
  }

  lemma {:induction false} ResultConforms(env: Env, all: set<Ty>, s: Container, ok: Ty, err: Ty, v: Val) returns (h: nat)
    requires Covers(env, all, s) && TResult(ok, err) in all && Decl(TResult(ok, err)) in s.definitions
    requires Encodes(env, TResult(ok, err), v)
    ensures Matches(s, Decl(TResult(ok, err)), Encode(env, TResult(ok, err), v).value, h)
    decreases v, 1
  {
    var ty := TResult(ok, err);
    Covered(env, all, s, ty);
    assert ok in Refs(env, ty) && err in Refs(env, ty);
    if v.VOk? {
      h := EncodingConforms(env, all, s, ok, v.v);
      VariantConforms(s, Decl(ty), 0, 1, Encode(env, ok, v.v).value, h);
    } else {
      h := EncodingConforms(env, all, s, err, v.v);
      VariantConforms(s, Decl(ty), 1, 0, Encode(env, err, v.v).value, h);
    }
    h := h + 1;
  }

  lemma {:induction false} SequenceConforms(env: Env, all: set<Ty>, s: Container, ty: Ty, v: Val) returns (h: nat)
    requires Covers(env, all, s) && ty in all && Decl(ty) in s.definitions
    requires Encodes(env, ty, v) && (ty.TString? || ty.TSeq? || IsSorted(ty) || ty.TArray?)
    ensures Matches(s, Decl(ty), Encode(env, ty, v).value, h)
    decreases v, 1
  {
    Covered(env, all, s, ty);
    Pow256Values();
    var item := Refs(env, ty)[0];
    assert Encode(env, ty, v) == if ty.TArray? then EncodeAll(env, item, v.items) else EncodeItems(env, item, v.items);
    h := TimesConforms(env, all, s, item, v.items, v);
    var width := s.definitions[Decl(ty)].lengthWidth;
    var body := EncodeAll(env, item, v.items).value;
    SequenceOf(s, width, |v.items|, Decl(item), body, h);
    assert width == 0 ==> LittleEndian(width, |v.items|) + body == body;
    h := h + 1;
    assert IsSequence(s, width, |v.items|, Decl(item), Encode(env, ty, v).value, h);
  }

  lemma {:induction false} NamedConforms(env: Env, all: set<Ty>, s: Container, ty: Ty, v: Val) returns (h: nat)
    requires Covers(env, all, s) && ty in all && Decl(ty) in s.definitions
    requires Encodes(env, ty, v) && ty.TNamed?
    ensures Matches(s, Decl(ty), Encode(env, ty, v).value, h)
    decreases v, 1
  {
    Covered(env, all, s, ty);
    if env.defs[ty.name].EnumDef? {
      h := EnumConforms(env, all, s, ty, v);
    } else {
      var named, fields := env.defs[ty.name].named, env.defs[ty.name].fields;
      h := RowConforms(env, all, s, FieldTys(fields), v.items);
      assert FieldTypes(FieldsOf(named, fields)) == Decls(FieldTys(fields));
      h := h + 1;
    }
  }

  lemma {:induction false} EnumConforms(env: Env, all: set<Ty>, s: Container, ty: Ty, v: Val) returns (h: nat)
    requires Covers(env, all, s) && ty in all && Decl(ty) in s.definitions
    requires Encodes(env, ty, v) && ty.TNamed? && env.defs[ty.name].EnumDef?
    ensures Matches(s, Decl(ty), Encode(env, ty, v).value, h)
    decreases v, 0
  {
    Covered(env, all, s, ty);
    var variants := env.defs[ty.name].variants;
    var payload := TNamed(variants[v.variant].payload);
    assert PayloadTys(variants)[v.variant] == payload;
    h := EncodingConforms(env, all, s, payload, v.payload);
    VariantConforms(s, Decl(ty), v.variant, variants[v.variant].tag, Encode(env, payload, v.payload).value, h);
    h := h + 1;
  }

  lemma {:induction false} TimesConforms(env: Env, all: set<Ty>, s: Container, ty: Ty, items: seq<Val>, owner: Val) returns (h: nat)
    requires Covers(env, all, s) && ty in all && Decl(ty) in s.definitions
    requires AllHaveType(env, ty, items) && EncodeAll(env, ty, items).Ok?
    requires forall i | 0 <= i < |items| :: items[i] < owner
    ensures MatchesTimes(s, Decl(ty), |items|, EncodeAll(env, ty, items).value, h)
    decreases owner, 0, |items|
  {
    h := 0;
    if items != [] {
      var first := EncodingConforms(env, all, s, ty, items[0]);
      var rest := TimesConforms(env, all, s, ty, items[1..], owner);
      h := Max(first, rest);
      var a, b := Encode(env, ty, items[0]).value, EncodeAll(env, ty, items[1..]).value;
      MatchesHigher(s, Decl(ty), a, first, h);
      MatchesTimesHigher(s, Decl(ty), |items| - 1, b, rest, h);
      TimesCons(s, Decl(ty), |items| - 1, a, b, h);
    }
  }

  lemma {:induction false} RowConforms(env: Env, all: set<Ty>, s: Container, tys: seq<Ty>, items: seq<Val>) returns (h: nat)
    requires Covers(env, all, s) && forall t | t in tys :: t in all && Decl(t) in s.definitions
    requires RowHasTypes(env, tys, items) && EncodeRow(env, tys, items).Ok?
    ensures MatchesRow(s, Decls(tys), EncodeRow(env, tys, items).value, h)
    decreases items, 0
  {
    h := 0;
    if items != [] {
      var first := EncodingConforms(env, all, s, tys[0], items[0]);
      var rest := RowConforms(env, all, s, tys[1..], items[1..]);
      h := Max(first, rest);
      var a, b := Encode(env, tys[0], items[0]).value, EncodeRow(env, tys[1..], items[1..]).value;
      assert Decls(tys)[1..] == Decls(tys[1..]);
      MatchesHigher(s, Decl(tys[0]), a, first, h);
      MatchesRowHigher(s, Decls(tys[1..]), b, rest, h);
      RowCons(s, Decls(tys), a, b, h);
    }
  }

  // ---- From types to their generated schema ----

  lemma GeneratedCovers(env: Env, all: set<Ty>, ty: Ty)
    requires HasVariantStructs(env) && Universe(env, all) && Coherent(env, all) && ty in all
    ensures ForType(env, all, ty).Ok?
    ensures var s := ForType(env, all, ty).value;
            Covers(env, all, s) && s.declaration == Decl(ty) && Decl(ty) in s.definitions
  {
    GenerationSucceeds(env, all, ty);
    GeneratedExact(env, all, ty);
    var s := ForType(env, all, ty).value;
    ReachesSelf(s, Mentioned, Decl(ty));
    forall t ensures DefinedAs(env, all, s, t) {
    }
  }

  /** Without a conflict below a type its schema is generated and covers everything
      below it, whatever else is in the universe. */
  lemma BelowIsCovered(env: Env, all: set<Ty>, ty: Ty)
    requires HasVariantStructs(env) && Universe(env, all) && ty in all
    requires !HasConflict(TableOf(env, all), Below(TableOf(env, all), ty))
    ensures ForType(env, all, ty).Ok?
    ensures var s, below := ForType(env, all, ty).value, Below(TableOf(env, all), ty);
            Covers(env, below, s) && ty in below && Decl(ty) in s.definitions
  {
    var table := TableOf(env, all);
    var below := Below(table, ty);
    TableIsSound(env, all);
    assert RefersWithin(env, all, ty);
    BelowIsClosed(table, ty);
    PanicsOrHides(env, all, ty);
    GeneratedExact(env, all, ty);
    var s := ForType(env, all, ty).value;
    ReachesSelf(s, Mentioned, Decl(ty));
    forall t ensures DefinedAs(env, below, s, t) {
      if t in below {
        assert RefersWithin(env, all, t) && StaysWithin(table, below, t) && Has(table, s.definitions, t);
      }
    }
  }

  lemma CoherentBelow(env: Env, all: set<Ty>, ty: Ty)
    requires Universe(env, all) && Coherent(env, all)
    ensures !HasConflict(TableOf(env, all), Below(TableOf(env, all), ty))
  {
    var table := TableOf(env, all);
    forall t, u ensures !Conflict(table, Below(table, ty), t, u) {
      assert NoConflict(table, t, u);
    }
  }

  /** For every type, recursive ones included, without a conflict below it and every
      value that encodes, the schema generated for the type describes the value's
      bytes. */
  lemma SchemaDescribesTheWire(env: Env, all: set<Ty>, ty: Ty, v: Val)
    requires HasVariantStructs(env) && Universe(env, all) && ty in all
    requires !HasConflict(TableOf(env, all), Below(TableOf(env, all), ty))
    requires Encodes(env, ty, v)
    ensures ForType(env, all, ty).Ok?
    ensures Describes(ForType(env, all, ty).value, Decl(ty), Encode(env, ty, v).value)
  {
    BelowIsCovered(env, all, ty);
    var h := EncodingConforms(env, Below(TableOf(env, all), ty), ForType(env, all, ty).value, ty, v);
  }

  /** No analysis of a generated schema runs into a missing definition. */
  lemma GeneratedHasNoGap(env: Env, all: set<Ty>, ty: Ty)
    requires HasVariantStructs(env) && Universe(env, all) && ty in all && ForType(env, all, ty).Ok?
    ensures var s := ForType(env, all, ty).value;
            && (M.MaxSerializedSize(s).Err? ==> !M.MaxSerializedSize(s).error.MissingDefinition?)
            && forall x | Reaches(s, Mentioned, s.declaration, x) :: x in s.definitions
  {
    var s := ForType(env, all, ty).value;
    GeneratedExact(env, all, ty);
    M.Verdict(s, s.declaration);
    var r := M.MaxSerializedSize(s);
    if r.Err? && r.error.MissingDefinition? {
      ContributingIsMentioned(s, s.declaration, r.error.declaration);
    }
  }

  /** A generated schema passes validation exactly when none of its vector-like
      sequences has an element type that the zero-size walk calls empty: no
      other rule can fail. */
  lemma GeneratedValidates(env: Env, all: set<Ty>, ty: Ty)
    requires HasVariantStructs(env) && Universe(env, all) && Coherent(env, all) && ty in all
    ensures ForType(env, all, ty).Ok?
    ensures var s := ForType(env, all, ty).value;
            V.Validated(s).Ok? <==> forall x | x in s.definitions :: !HoldsEmptyItems(s, x)
  {
    GenerationSucceeds(env, all, ty);
    GeneratedExact(env, all, ty);
    var s := ForType(env, all, ty).value;
    V.ValidateExact(s);
    forall x | x in s.definitions ensures V.Acceptable(s, x) <==> !HoldsEmptyItems(s, x) {
      var t :| IsOwnDefinition(env, all, x, s.definitions[x], t);
      OwnDefinitionAcceptable(env, t, s, x);
      NoPanicBelow(env, all, s, x);
    }
    if V.Validated(s).Ok? {
      forall x | x in s.definitions ensures !HoldsEmptyItems(s, x) {
        assert Reaches(s, Mentioned, s.declaration, x);
      }
    } else {
      var x :| Reaches(s, Mentioned, s.declaration, x) && !V.Acceptable(s, x);
      assert x in s.definitions && HoldsEmptyItems(s, x);
    }
  }

  lemma OwnDefinitionAcceptable(env: Env, t: Ty, s: Container, x: Declaration)
    requires Known(env, t) && x in s.definitions && s.definitions[x] == DefOf(env, t)
    ensures !PanicsInItems(s, x) ==> (V.Acceptable(s, x) <==> !HoldsEmptyItems(s, x))
    ensures !PermitsEveryLength(s.definitions[x])
  {
    Pow256Values();
    var def := DefOf(env, t);
    assert def.Sequence? ==> IsFixed(def) || (def.lengthWidth == 4 && def.start == 0 && def.end == U32_MAX);
    assert def.Enum? ==> def.tagWidth == 1;
  }

  predicate PanicsInItems(s: Container, x: Declaration)
    requires x in s.definitions
  {
    s.definitions[x].Sequence? && Z.IsZeroSize(s, s.definitions[x].elements) == Err(Z.Panicked)
  }

  /** No generated definition permits every length, so nothing panics. */
  lemma NoPanicBelow(env: Env, all: set<Ty>, s: Container, x: Declaration)
    requires Universe(env, all) && x in s.definitions
    requires forall d | d in s.definitions :: exists t :: IsOwnDefinition(env, all, d, s.definitions[d], t)
    ensures !PanicsInItems(s, x)
  {
    if PanicsInItems(s, x) {
      var y := Z.PanicIsReachable(s, s.definitions[x].elements, []);
      var t :| IsOwnDefinition(env, all, y, s.definitions[y], t);
      OwnDefinitionAcceptable(env, t, s, y);
    }
  }

  /** A sequence of varying length whose element type the zero-size walk calls empty. */
  predicate HoldsEmptyItems(s: Container, x: Declaration)
    requires x in s.definitions
  {
    var def := s.definitions[x];
    def.Sequence? && !IsFixed(def) && Z.IsZeroSize(s, def.elements) == Ok(true)
  }

  /** When the size analysis of a type's schema returns a number and does not
      undercount the type, no value of the type encodes to more bytes than that. */
  lemma EncodedSizeIsBounded(env: Env, all: set<Ty>, ty: Ty, v: Val, n: usize)
    requires HasVariantStructs(env) && Universe(env, all) && ty in all
    requires !HasConflict(TableOf(env, all), Below(TableOf(env, all), ty))
    requires Encodes(env, ty, v)
    ensures ForType(env, all, ty).Ok?
    ensures var s := ForType(env, all, ty).value;
            M.MaxSerializedSize(s) == Ok(n) && !M.Undercharges(s, Decl(ty)) ==> |Encode(env, ty, v).value| <= n
  {
    SchemaDescribesTheWire(env, all, ty, v);
    var s := ForType(env, all, ty).value;
    if M.MaxSerializedSize(s) == Ok(n) && !M.Undercharges(s, Decl(ty)) {
      M.UpperBound(s, Decl(ty), n);
    }
  }

  /** Every enum among the types can have a value. */
  predicate HasVariants(env: Env, t: Ty) {
    t.TNamed? && t.name in env.defs && env.defs[t.name].EnumDef? ==> env.defs[t.name].variants != []
  }

  lemma OwnedIsInhabited(env: Env, all: set<Ty>, s: Container, d: Declaration)
    requires Owned(env, all, s) && forall t | t in all :: HasVariants(env, t)
    ensures InhabitedBelow(s, d)
  {
    forall x ensures InhabitedAt(s, d, x) {
      if x in s.definitions {
        var t :| IsOwnDefinition(env, all, x, s.definitions[x], t);
        OwnDefinitionInhabited(env, t);
      }
    }
  }

  lemma OwnDefinitionInhabited(env: Env, t: Ty)
    requires Known(env, t) && HasVariants(env, t)
    ensures Inhabited(DefOf(env, t))
  {
    Pow256Values();
  }

  /** Of the byte strings that a type's schema describes, the maximum that is
      returned bounds them all if and only if it does not undercount the type, and
      then it is attained. */
  lemma MaximumIsExact(env: Env, all: set<Ty>, ty: Ty, n: usize)
    requires HasVariantStructs(env) && Universe(env, all) && Coherent(env, all) && ty in all
    requires forall t | t in all :: HasVariants(env, t)
    ensures ForType(env, all, ty).Ok?
    ensures var s := ForType(env, all, ty).value;
            M.MaxSerializedSize(s) == Ok(n) ==>
              && (M.IsBound(s, Decl(ty), n) <==> !M.Undercharges(s, Decl(ty)))
              && (!M.Undercharges(s, Decl(ty)) ==> M.IsAttained(s, Decl(ty), n))
  {
    GenerationSucceeds(env, all, ty);
    var s := ForType(env, all, ty).value;
    OwnedIsInhabited(env, all, s, Decl(ty));
    if M.MaxSerializedSize(s) == Ok(n) {
      InhabitedSize(s, n);
    }
  }

  lemma InhabitedSize(s: Container, n: usize)
    requires InhabitedBelow(s, s.declaration) && M.MaxSerializedSize(s) == Ok(n)
    ensures M.IsBound(s, s.declaration, n) <==> !M.Undercharges(s, s.declaration)
    ensures !M.Undercharges(s, s.declaration) ==> M.IsAttained(s, s.declaration, n)
  {
    M.BoundIffNotUndercharged(s, s.declaration, n);
    if !M.Undercharges(s, s.declaration) {
      M.Tight(s, s.declaration, n);
    }
  }

  // ---- The same in terms of the types ----

  /** A type whose declaration is an enum. */
  predicate IsEnumTy(env: Env, t: Ty) {
    t.TOption? || t.TResult? || (t.TNamed? && t.name in env.defs && env.defs[t.name].EnumDef?)
  }

  /** A collection, or an array of more than one element, directly over an enum. */
  predicate RepeatsEnum(env: Env, t: Ty) {
    match t
    case TSeq(_, item) => IsEnumTy(env, item)
    case TSet(_, member) => IsEnumTy(env, member)
    case TArray(elem, len) => len > 1 && IsEnumTy(env, elem)
    case _ => false
  }

  /** Only a type that repeats an enum makes an enum row of its schema. */
  lemma EnumRowRepeatsEnum(env: Env, all: set<Ty>, s: Container, t: Ty)
    requires Covers(env, all, s) && t in all && Decl(t) in s.definitions && C.IsEnumRow(s, Decl(t))
    ensures RepeatsEnum(env, t)
  {
    Covered(env, all, s, t);
    assert DefOf(env, t).Sequence?;
    var item := Refs(env, t)[0];
    Covered(env, all, s, item);
    assert DefOf(env, item).Enum?;
  }

  /** Where no collection and no longer array is directly over an enum, the maximum
      is one: no value of the type encodes to more bytes. */
  lemma NoRepeatedEnumIsBounded(env: Env, all: set<Ty>, ty: Ty, v: Val, n: usize)
    requires HasVariantStructs(env) && Universe(env, all) && Coherent(env, all) && ty in all
    requires forall t | t in all :: !RepeatsEnum(env, t)
    requires Encodes(env, ty, v)
    ensures ForType(env, all, ty).Ok?
    ensures M.MaxSerializedSize(ForType(env, all, ty).value) == Ok(n) ==> |Encode(env, ty, v).value| <= n
  {
    GeneratedCovers(env, all, ty);
    GenerationSucceeds(env, all, ty);
    var s := ForType(env, all, ty).value;
    NoEnumRowOfTypes(env, all, s, Decl(ty));
    if M.Undercharges(s, Decl(ty)) {
      M.UnderchargeHasEnumRow(s, Decl(ty));
    }
    CoherentBelow(env, all, ty);
    EncodedSizeIsBounded(env, all, ty, v, n);
  }

  /** Every definition is the one of some type. */
  ghost predicate Owned(env: Env, all: set<Ty>, s: Container) {
    forall d | d in s.definitions :: exists t :: IsOwnDefinition(env, all, d, s.definitions[d], t)
  }

  lemma NoEnumRowOfTypes(env: Env, all: set<Ty>, s: Container, d: Declaration)
    requires Covers(env, all, s) && Owned(env, all, s) && forall t | t in all :: !RepeatsEnum(env, t)
    ensures !C.HasEnumRow(s, d)
  {
    forall x ensures !C.IsEnumRow(s, x) {
      if C.IsEnumRow(s, x) {
        var t :| IsOwnDefinition(env, all, x, s.definitions[x], t);
        EnumRowRepeatsEnum(env, all, s, t);
      }
    }
  }

  predicate IsVectorLike(t: Ty) {
    t.TString? || t.TSeq? || IsSorted(t)
  }

  /** Some value of the type takes bytes. */
  ghost predicate TakesBytes(env: Env, t: Ty) {
    exists v :: Encodes(env, t, v) && Encode(env, t, v).value != []
  }

  ghost predicate HasItemBytes(env: Env, t: Ty)
    requires IsVectorLike(t)
  {
    TakesBytes(env, Refs(env, t)[0])
  }

  /** A type's schema passes validation if the items of every vector, set and map
      in it can take bytes. */
  lemma ItemsTakeBytes(env: Env, all: set<Ty>, ty: Ty)
    requires HasVariantStructs(env) && Universe(env, all) && Coherent(env, all) && ty in all
    requires forall t | t in all && IsVectorLike(t) :: HasItemBytes(env, t)
    ensures ForType(env, all, ty).Ok? && V.Validated(ForType(env, all, ty).value).Ok?
  {
    GeneratedValidates(env, all, ty);
    GeneratedCovers(env, all, ty);
    GenerationSucceeds(env, all, ty);
    NoEmptyItems(env, all, ForType(env, all, ty).value);
  }

  lemma NoEmptyItems(env: Env, all: set<Ty>, s: Container)
    requires Covers(env, all, s) && Owned(env, all, s)
    requires forall t | t in all && IsVectorLike(t) :: HasItemBytes(env, t)
    ensures forall x | x in s.definitions :: !HoldsEmptyItems(s, x)
  {
    forall x | x in s.definitions ensures !HoldsEmptyItems(s, x) {
      var t :| IsOwnDefinition(env, all, x, s.definitions[x], t);
      ItemsNotEmpty(env, all, s, t);
    }
  }

  lemma ItemsNotEmpty(env: Env, all: set<Ty>, s: Container, t: Ty)
    requires Covers(env, all, s) && t in all && Decl(t) in s.definitions && (IsVectorLike(t) ==> HasItemBytes(env, t))
    ensures !HoldsEmptyItems(s, Decl(t))
  {
    Covered(env, all, s, t);
    if IsVectorLike(t) {
      var item := Refs(env, t)[0];
      assert s.definitions[Decl(t)].Sequence? && s.definitions[Decl(t)].elements == Decl(item);
      TakesBytesIsNotEmpty(env, all, s, item);
    }
  }

  lemma TakesBytesIsNotEmpty(env: Env, all: set<Ty>, s: Container, t: Ty)
    requires Covers(env, all, s) && t in all && Decl(t) in s.definitions && TakesBytes(env, t)
    ensures Z.IsZeroSize(s, Decl(t)) != Ok(true)
  {
    var v :| Encodes(env, t, v) && Encode(env, t, v).value != [];
    var h := EncodingConforms(env, all, s, t, v);
    assert Describes(s, Decl(t), Encode(env, t, v).value);
    if Z.IsZeroSize(s, Decl(t)) == Ok(true) {
      Z.YesMeansNoBytes(s, Decl(t));
    }
  }

  /** A struct that holds only itself has a schema, and no maximum. */
  lemma DirectlyRecursiveSize(env: Env, name: string)
    requires HasVariantStructs(env) && IsDirectlyRecursive(env, name)
    ensures Universe(env, {TNamed(name)}) && ForType(env, {TNamed(name)}, TNamed(name)).Ok?
    ensures M.MaxSerializedSize(ForType(env, {TNamed(name)}, TNamed(name)).value) == Err(M.Recursive)
  {
    DirectlyRecursiveSchema(env, name);
    var s, d := ForType(env, {TNamed(name)}, TNamed(name)).value, Ident(name);
    assert FieldTypes(UnnamedFields([d])) == [d];
    assert M.ChargedWalk(s, EnumOnce, 1, d, [d]) == Err(M.Recursive);
    assert M.ChargedSum(s, EnumOnce, [d], 0, [d]) == Err(M.Recursive);
    assert [] + [d] == [d];
  }

  // ---- A value longer than its type's returned maximum ----

  const U64 := TInt(false, 8)
  const VEC_OPTION_U64 := TSeq(Vec, TOption(U64))

  function VecOptionU64Types(): set<Ty> {
    {VEC_OPTION_U64, TOption(U64), U64, TUnit}
  }

  predicate AllDiffer(ds: seq<Declaration>) {
    forall i, j | 0 <= i < j < |ds| :: ds[i] != ds[j]
  }

  /** Collecting a container of a two-way choice between two leaves. */
  lemma CollectChoice(table: Table, outer: Ty, choice: Ty, a: Ty, b: Ty)
    requires SoundTable(table) && outer in table && choice in table && a in table && b in table
    requires table[outer].mode == table[choice].mode == table[a].mode == table[b].mode == First
    requires table[outer].refs == [choice] && table[choice].refs == [a, b] && table[a].refs == [] && table[b].refs == []
    requires AllDiffer([table[outer].decl, table[choice].decl, table[a].decl, table[b].decl])
    ensures Add(table, outer, map[]) ==
            Ok(map[table[outer].decl := table[outer].def, table[choice].decl := table[choice].def,
                   table[a].decl := table[a].def, table[b].decl := table[b].def])
  {
    var ds := [table[outer].decl, table[choice].decl, table[a].decl, table[b].decl];
    assert ds[0] != ds[1] && ds[0] != ds[2] && ds[0] != ds[3] && ds[1] != ds[2] && ds[1] != ds[3] && ds[2] != ds[3];
    var m1 := map[table[outer].decl := table[outer].def];
    var m2 := m1[table[choice].decl := table[choice].def];
    var m3 := m2[table[a].decl := table[a].def];
    var m4 := m3[table[b].decl := table[b].def];
    assert Add(table, b, m3) == Ok(m4) by { assert AddAll(table, [], m4) == Ok(m4); }
    assert Add(table, a, m2) == Ok(m3) by { assert AddAll(table, [], m3) == Ok(m3); }
    RowOfOne(table, b, m3);
    assert [a, b][1..] == [b];
    assert AddAll(table, [a, b], m2) == Ok(m4);
    assert Add(table, choice, m1) == Ok(m4);
    RowOfOne(table, choice, m1);
  }

  lemma RowOfOne(table: Table, t: Ty, m: Definitions)
    requires SoundTable(table) && t in table
    ensures AddAll(table, [t], m) == Add(table, t, m)
  {
    assert [t][1..] == [];
    assert Add(table, t, m).Ok? ==> AddAll(table, [], Add(table, t, m).value) == Add(table, t, m);
  }

  lemma VecOptionU64Decls()
    ensures Decl(U64) == "u64" && Decl(TOption(U64)) == "Option<u64>"
    ensures Decl(VEC_OPTION_U64) == "Vec<Option<u64>>" && Decl(TUnit) == "()"
  {
    assert NatString(64) == "64";
  }

  lemma VecOptionU64Universe(env: Env)
    ensures Universe(env, VecOptionU64Types())
  {
    forall t | t in VecOptionU64Types() ensures RefersWithin(env, VecOptionU64Types(), t) {
    }
  }

  lemma VecOptionU64Nodes(env: Env)
    requires Universe(env, VecOptionU64Types())
    ensures var table := TableOf(env, VecOptionU64Types());
            && table[VEC_OPTION_U64] == Node(First, "Vec<Option<u64>>", Sequence(DEFAULT_LENGTH_WIDTH, 0, U32_MAX, "Option<u64>"), [TOption(U64)], 4)
            && table[TOption(U64)] == Node(First, "Option<u64>", Enum(1, [(0, "None", "()"), (1, "Some", "u64")]), [U64, TUnit], 3)
            && table[U64] == Node(First, "u64", Primitive(8), [], 1)
            && table[TUnit] == Node(First, "()", Primitive(0), [], 1)
  {
    VecOptionU64Decls();
    assert TySize(env, U64) == 1 && TySize(env, TOption(U64)) == 3 && TySize(env, VEC_OPTION_U64) == 4;
    assert DefOf(env, VEC_OPTION_U64) == VecOf(TOption(U64));
  }

  /** The schema the generator builds for a vector of optional 64-bit integers. */
  lemma VecOptionU64Schema(env: Env)
    requires HasVariantStructs(env)
    ensures Universe(env, VecOptionU64Types())
    ensures ForType(env, VecOptionU64Types(), VEC_OPTION_U64) == Ok(M.VecOptionU64())
  {
    VecOptionU64Universe(env);
    VecOptionU64Nodes(env);
    TableIsSound(env, VecOptionU64Types());
    var ds := ["Vec<Option<u64>>", "Option<u64>", "u64", "()"];
    assert |ds[0]| == 16 && |ds[1]| == 11 && |ds[2]| == 3 && |ds[3]| == 2;
    assert AllDiffer(ds);
    CollectChoice(TableOf(env, VecOptionU64Types()), VEC_OPTION_U64, TOption(U64), U64, TUnit);
    VecOptionU64Decls();
  }

  /** The returned maximum for that type is 13, yet the vector of two present
      integers is a value of the type and encodes to 22 bytes. */
  lemma EncodedSizeExceedsMaximum(env: Env)
    requires WellFormed(env) && !env.zst(TOption(U64))
    ensures ForType(env, VecOptionU64Types(), VEC_OPTION_U64) == Ok(M.VecOptionU64())
    ensures M.MaxSerializedSize(M.VecOptionU64()) == Ok(13)
    ensures var v := VSeq([VSome(VInt(0)), VSome(VInt(0))]);
            Encodes(env, VEC_OPTION_U64, v) && |Encode(env, VEC_OPTION_U64, v).value| == 22
  {
    VecOptionU64Schema(env);
    M.VecOptionU64Size();
    TwoPresent(env);
  }

  lemma TwoPresent(env: Env)
    requires !env.zst(TOption(U64))
    ensures var v := VSeq([VSome(VInt(0)), VSome(VInt(0))]);
            Encodes(env, VEC_OPTION_U64, v) && |Encode(env, VEC_OPTION_U64, v).value| == 22
  {
    OnePresent(env);
    var one, opt := VSome(VInt(0)), TOption(U64);
    TwiceEncoded(env, opt, one);
    assert Encode(env, VEC_OPTION_U64, VSeq([one, one])) == EncodeItems(env, opt, [one, one]);
  }

  lemma TwiceEncoded(env: Env, ty: Ty, one: Val)
    requires HasType(env, ty, one) && Encode(env, ty, one).Ok?
    ensures AllHaveType(env, ty, [one, one])
    ensures EncodeItems(env, ty, [one, one]).Ok?
    ensures |EncodeItems(env, ty, [one, one]).value| == 4 + 2 * |Encode(env, ty, one).value|
  {
    var items, e := [one, one], Encode(env, ty, one).value;
    assert items[1..] == [one] && [one][1..] == [] && EncodeAll(env, ty, []) == Ok([]);
    assert AllHaveType(env, ty, [one]);
    assert EncodeAll(env, ty, [one]) == Ok(e + []);
    assert EncodeAll(env, ty, items) == Ok(e + (e + []));
  }

  lemma OnePresent(env: Env)
    ensures Encodes(env, TOption(U64), VSome(VInt(0))) && |Encode(env, TOption(U64), VSome(VInt(0))).value| == 9
  {
    assert HasType(env, U64, VInt(0));
    assert Encode(env, U64, VInt(0)) == Ok(LittleEndian(8, 0));
  }

  // ---- Structs of one name: a schema that does not describe its values ----

  /** Two structs with one name, each holding a struct; these two also have one
      name, but the first is empty and the second holds a boolean. */
  ghost predicate Namesakes(env: Env, s: string, u: string, x: string, y: string) {
    && s in env.defs && env.defs[s] == StructDef(false, [("0", TNamed(x))])
    && u in env.defs && env.defs[u] == StructDef(false, [("0", TNamed(y))])
    && x in env.defs && env.defs[x] == StructDef(false, [])
    && y in env.defs && env.defs[y] == StructDef(false, [("0", TBool)])
    && Ident(s) == Ident(u) && Ident(x) == Ident(y) && Ident(s) != Ident(x)
    && Decl(PairTy(s, u)) != Ident(s) && Decl(PairTy(s, u)) != Ident(x)
  }

  function PairTy(s: string, u: string): Ty {
    TTuple([TNamed(s), TNamed(u)])
  }

  function NamesakeTypes(s: string, u: string, x: string, y: string): set<Ty> {
    {PairTy(s, u), TNamed(s), TNamed(u), TNamed(x), TNamed(y), TBool}
  }

  function NamesakeSchema(pair: Declaration, outer: Declaration, inner: Declaration): Container {
    Container(pair, map[pair := Tuple([outer, outer]), outer := Struct(UnnamedFields([inner])), inner := Struct(NoFields)])
  }

  lemma NamesakesClosed(env: Env, s: string, u: string, x: string, y: string)
    requires Namesakes(env, s, u, x, y)
    ensures Universe(env, NamesakeTypes(s, u, x, y))
    ensures Refs(env, TNamed(s)) == [TNamed(x)] && Refs(env, TNamed(u)) == [TNamed(y)] && Refs(env, TNamed(x)) == []
  {
    assert FieldTys(env.defs[s].fields) == [TNamed(x)] && FieldTys(env.defs[u].fields) == [TNamed(y)];
    assert FieldTys(env.defs[x].fields) == [] && FieldTys(env.defs[y].fields) == [TBool];
    forall t | t in NamesakeTypes(s, u, x, y) ensures RefersWithin(env, NamesakeTypes(s, u, x, y), t) {
    }
  }

  lemma NamesakeDefinitions(env: Env, s: string, u: string, x: string, y: string)
    requires Namesakes(env, s, u, x, y)
    ensures DefOf(env, PairTy(s, u)) == Tuple([Ident(s), Ident(s)])
    ensures DefOf(env, TNamed(s)) == DefOf(env, TNamed(u)) == Struct(UnnamedFields([Ident(x)]))
    ensures DefOf(env, TNamed(x)) == Struct(NoFields) && DefOf(env, TNamed(y)) != Struct(NoFields)
  {
    assert Decls([TNamed(s), TNamed(u)]) == [Ident(s), Ident(s)];
    assert FieldTys(env.defs[s].fields) == [TNamed(x)] && FieldTys(env.defs[u].fields) == [TNamed(y)];
    assert Decls([TNamed(x)]) == [Ident(x)] && Decls([TNamed(y)]) == [Ident(x)];
  }

  /** The conflict below the pair goes unnoticed. */
  lemma NamesakesPass(env: Env, s: string, u: string, x: string, y: string)
    requires HasVariantStructs(env) && Namesakes(env, s, u, x, y)
    ensures Universe(env, NamesakeTypes(s, u, x, y))
    ensures ForType(env, NamesakeTypes(s, u, x, y), PairTy(s, u)) == Ok(NamesakeSchema(Decl(PairTy(s, u)), Ident(s), Ident(x)))
    ensures var table := TableOf(env, NamesakeTypes(s, u, x, y)); HasConflict(table, Below(table, PairTy(s, u)))
  {
    var all := NamesakeTypes(s, u, x, y);
    NamesakesClosed(env, s, u, x, y);
    NamesakeDefinitions(env, s, u, x, y);
    TableIsSound(env, all);
    ConflictStaysHidden(TableOf(env, all), PairTy(s, u), TNamed(s), TNamed(u), TNamed(x), TNamed(y));
  }

  /** The schema describes nothing but the empty string. */
  lemma NamesakeSchemaIsEmpty(pair: Declaration, outer: Declaration, inner: Declaration, b: seq<byte>)
    requires pair != outer && pair != inner && outer != inner
    ensures Describes(NamesakeSchema(pair, outer, inner), pair, b) ==> b == []
  {
    var c := NamesakeSchema(pair, outer, inner);
    assert Z.AllEmpty(c, [], 0) && Z.Empty(c, inner, 1) && Z.AllEmpty(c, [inner], 1);
    assert Z.Empty(c, outer, 2) && Z.AllEmpty(c, [outer, outer], 2);
    assert Z.Empty(c, pair, 3);
    Z.EmptyExtent(c, pair, 3);
    if Describes(c, pair, b) {
      var h :| Matches(c, pair, b, h);
      ExtentBounds(c, pair, b, h, 3);
    }
  }

  /** A value of the pair that holds `true`: it encodes to one byte, and its own
      type's schema does not describe it. */
  lemma NamesakesMisdescribed(env: Env, s: string, u: string, x: string, y: string)
    requires HasVariantStructs(env) && Namesakes(env, s, u, x, y)
    ensures var v := VTuple([VTuple([VTuple([])]), VTuple([VTuple([VBool(true)])])]);
            && Encodes(env, PairTy(s, u), v) && Encode(env, PairTy(s, u), v) == Ok([1])
            && Universe(env, NamesakeTypes(s, u, x, y)) && ForType(env, NamesakeTypes(s, u, x, y), PairTy(s, u)).Ok?
            && !Describes(ForType(env, NamesakeTypes(s, u, x, y), PairTy(s, u)).value, Decl(PairTy(s, u)), [1])
  {
    NamesakesPass(env, s, u, x, y);
    NamesakeSchemaIsEmpty(Decl(PairTy(s, u)), Ident(s), Ident(x), [1]);
    NamesakesEncode(env, s, u, x, y);
  }

  lemma NamesakesEncode(env: Env, s: string, u: string, x: string, y: string)
    requires Namesakes(env, s, u, x, y)
    ensures var v := VTuple([VTuple([VTuple([])]), VTuple([VTuple([VBool(true)])])]);
            HasType(env, PairTy(s, u), v) && Encode(env, PairTy(s, u), v) == Ok([1])
  {
    NoFieldEncodes(env, x);
    OneFieldEncodes(env, s, TNamed(x), VTuple([]));
    OneFieldEncodes(env, y, TBool, VBool(true));
    OneFieldEncodes(env, u, TNamed(y), VTuple([VBool(true)]));
    PairEncodes(env, TNamed(s), TNamed(u), VTuple([VTuple([])]), VTuple([VTuple([VBool(true)])]), [], [1]);
    assert [] + [1] == [1];
  }

  /** There are such structs: `S` holding `X`, once in a path `a` and once in `b`. */
  lemma NamesakesExist(base: Env)
    ensures var env := base.(defs := map["a:S" := StructDef(false, [("0", TNamed("a:X"))]),
                                         "b:S" := StructDef(false, [("0", TNamed("b:X"))]),
                                         "a:X" := StructDef(false, []),
                                         "b:X" := StructDef(false, [("0", TBool)])]);
            HasVariantStructs(env) && Namesakes(env, "a:S", "b:S", "a:X", "b:X")
  {
    assert Ident("a:S") == Ident("b:S") == "S" by {
      assert "a:S"[1..][1..] == "S" == "b:S"[1..][1..];
      assert Ident("a:S"[1..]) == Ident("S") == Ident("b:S"[1..]);
    }
    assert Ident("a:X") == Ident("b:X") == "X" by {
      assert "a:X"[1..][1..] == "X" == "b:X"[1..][1..];
      assert Ident("a:X"[1..]) == Ident("X") == Ident("b:X"[1..]);
    }
    assert Decl(PairTy("a:S", "b:S"))[0] == '(';
  }

  lemma PairEncodes(env: Env, a: Ty, b: Ty, v: Val, w: Val, p: seq<byte>, q: seq<byte>)
    requires HasType(env, a, v) && HasType(env, b, w) && Encode(env, a, v) == Ok(p) && Encode(env, b, w) == Ok(q)
    ensures HasType(env, TTuple([a, b]), VTuple([v, w])) && Encode(env, TTuple([a, b]), VTuple([v, w])) == Ok(p + q)
  {
    var tys, items := [a, b], [v, w];
    assert tys[1..] == [b] && items[1..] == [w];
    OneFieldRow(env, b, w);
    assert RowHasTypes(env, tys, items);
  }

  lemma OneFieldRow(env: Env, ty: Ty, v: Val)
    requires HasType(env, ty, v)
    ensures RowHasTypes(env, [ty], [v]) && EncodeRow(env, [ty], [v]) == Encode(env, ty, v)
  {
    assert [ty][1..] == [] && [v][1..] == [] && EncodeRow(env, [], []) == Ok([]);
    assert Encode(env, ty, v).Ok? ==> Encode(env, ty, v).value + [] == Encode(env, ty, v).value;
  }

  lemma OneFieldEncodes(env: Env, name: string, ty: Ty, v: Val)
    requires name in env.defs && env.defs[name] == StructDef(false, [("0", ty)]) && HasType(env, ty, v)
    ensures HasType(env, TNamed(name), VTuple([v])) && Encode(env, TNamed(name), VTuple([v])) == Encode(env, ty, v)
  {
    assert FieldTys(env.defs[name].fields) == [ty];
    OneFieldRow(env, ty, v);
  }

  lemma NoFieldEncodes(env: Env, name: string)
    requires name in env.defs && env.defs[name] == StructDef(false, [])
    ensures HasType(env, TNamed(name), VTuple([])) && Encode(env, TNamed(name), VTuple([])) == Ok([])
  {
    assert FieldTys(env.defs[name].fields) == [];
  }
}
