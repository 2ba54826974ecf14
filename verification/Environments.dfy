/** An environment that meets everything the codec and the schema prefix ask for. */
module Environments {
  import opened Types
  import opened ContainerCodec
  import O = Orders
  import P = SchemaPrefix

  /** The derived types of a schema and nothing else; only the unit type takes no
      memory, and every sequence of bytes is let through as a string. */
  function Smallest(): Env {
    Env(map["Definition" :=
              EnumDef([Variant(0, "Primitive", "DefinitionPrimitive"), Variant(1, "Sequence", "DefinitionSequence"),
                       Variant(2, "Tuple", "DefinitionTuple"), Variant(3, "Enum", "DefinitionEnum"),
                       Variant(4, "Struct", "DefinitionStruct")]),
            "DefinitionPrimitive" := StructDef(false, [("0", U8)]),
            "DefinitionSequence" :=
              StructDef(true, [("length_width", U8), ("length_range", TTuple([WORD, WORD])), ("elements", TString)]),
            "DefinitionTuple" := StructDef(true, [("elements", TEXTS)]),
            "DefinitionEnum" := StructDef(true, [("tag_width", U8), ("variants", TSeq(Vec, VARIANT))]),
            "DefinitionStruct" := StructDef(true, [("fields", TNamed("Fields"))]),
            "Fields" :=
              EnumDef([Variant(0, "NamedFields", "FieldsNamedFields"), Variant(1, "UnnamedFields", "FieldsUnnamedFields"),
                       Variant(2, "Empty", "FieldsEmpty")]),
            "FieldsNamedFields" := StructDef(false, [("0", TSeq(Vec, NAMED))]),
            "FieldsUnnamedFields" := StructDef(false, [("0", TEXTS)]),
            "FieldsEmpty" := StructDef(false, [])],
        map["DefinitionPrimitive" := 0, "DefinitionSequence" := 0, "DefinitionTuple" := 0, "DefinitionEnum" := 0,
            "DefinitionStruct" := 0, "FieldsNamedFields" := 0, "FieldsUnnamedFields" := 0, "FieldsEmpty" := 0],
        t => t == TUnit, _ => true, O.Less)
  }

  lemma SmallestIsReady()
    ensures P.Ready(Smallest())
  {
    var env := Smallest();
    O.LessIsLawful();
    SmallestHasTypes();
    forall name | name in env.defs ensures WellFormedDef(env, name) {
      if env.defs[name].StructDef? {
        StructIsFlat(env, name);
      } else {
        EnumIsWellFormed(env, name);
      }
    }
  }

  lemma SmallestHasTypes()
    ensures HasSchemaTypes(Smallest())
  {
  }

  lemma EnumIsWellFormed(env: Env, name: string)
    requires HasSchemaTypes(env) && (name == "Definition" || name == "Fields")
    ensures WellFormedDef(env, name)
  {
  }

  lemma StructIsFlat(env: Env, name: string)
    requires env == Smallest() && name in env.defs && env.defs[name].StructDef?
    ensures RowRank(env, FieldTys(env.defs[name].fields)) == 0 && name in env.rank
  {
    var fields := env.defs[name].fields;
    FlatRow(env, [WORD, WORD]);
    assert TyRank(env, TTuple([WORD, WORD])) == 0;
    assert forall i | 0 <= i < |fields| :: TyRank(env, fields[i].1) == 0;
    FlatRow(env, FieldTys(fields));
  }

  lemma {:induction false} FlatRow(env: Env, tys: seq<Ty>)
    requires forall i | 0 <= i < |tys| :: TyRank(env, tys[i]) == 0
    ensures RowRank(env, tys) == 0
  {
    if tys != [] {
      FlatRow(env, tys[1..]);
    }
  }
}
