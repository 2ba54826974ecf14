/** Schema containers as values of the codec: how a schema itself is written. */
module ContainerCodec {
  import opened Bytes
  import opened Wrappers
  import opened Types
  import opened Schema
  import opened Codec
  import opened Text
  import opened RoundTrip
  import opened Hashing
  import S = Serialize

  // ---- The types of the schema, as the derive sees them ----

  const WORD := TInt(false, 8)
  const TEXTS := TSeq(Vec, TString)
  const NAMED := TTuple([TString, TString])
  const VARIANT := TTuple([TInt(true, 8), TString, TString])
  const DEFINITION := TNamed("Definition")
  const DEFINITIONS := TMap(BTree, TString, DEFINITION)

  /** A container is written as its declaration and its definitions in key order. */
  const CONTAINER := TTuple([TString, DEFINITIONS])

  predicate Defines(env: Env, name: string, def: NamedDef) {
    name in env.defs && env.defs[name] == def
  }

  /** The environment has the derived types of a schema, a range being written as
      its two ends; strings are UTF-8, and none of the items take no memory. */
  ghost predicate HasSchemaTypes(env: Env) {
    && Defines(env, "Definition",
               EnumDef([Variant(0, "Primitive", "DefinitionPrimitive"), Variant(1, "Sequence", "DefinitionSequence"),
                        Variant(2, "Tuple", "DefinitionTuple"), Variant(3, "Enum", "DefinitionEnum"),
                        Variant(4, "Struct", "DefinitionStruct")]))
    && Defines(env, "DefinitionPrimitive", StructDef(false, [("0", U8)]))
    && Defines(env, "DefinitionSequence",
               StructDef(true, [("length_width", U8), ("length_range", TTuple([WORD, WORD])), ("elements", TString)]))
    && Defines(env, "DefinitionTuple", StructDef(true, [("elements", TEXTS)]))
    && Defines(env, "DefinitionEnum", StructDef(true, [("tag_width", U8), ("variants", TSeq(Vec, VARIANT))]))
    && Defines(env, "DefinitionStruct", StructDef(true, [("fields", TNamed("Fields"))]))
    && Defines(env, "Fields",
               EnumDef([Variant(0, "NamedFields", "FieldsNamedFields"), Variant(1, "UnnamedFields", "FieldsUnnamedFields"),
                        Variant(2, "Empty", "FieldsEmpty")]))
    && Defines(env, "FieldsNamedFields", StructDef(false, [("0", TSeq(Vec, NAMED))]))
    && Defines(env, "FieldsUnnamedFields", StructDef(false, [("0", TEXTS)]))
    && Defines(env, "FieldsEmpty", StructDef(false, []))
    && (forall s: string :: env.utf8(Utf8(s)))
    && !env.zst(TString) && !env.zst(NAMED) && !env.zst(VARIANT)
  }

  // ---- The values ----

  function TextVal(s: string): Val {
    VSeq(Ints(Utf8(s)))
  }

  function TextVals(ss: seq<string>): (vs: seq<Val>)
    ensures |vs| == |ss|
  {
    seq(|ss|, i requires 0 <= i < |ss| => TextVal(ss[i]))
  }

  function NamedVals(fields: seq<(string, Declaration)>): (vs: seq<Val>)
    ensures |vs| == |fields|
  {
    seq(|fields|, i requires 0 <= i < |fields| => VTuple([TextVal(fields[i].0), TextVal(fields[i].1)]))
  }

  function VariantVals(variants: seq<(i64, string, Declaration)>): (vs: seq<Val>)
    ensures |vs| == |variants|
  {
    seq(|variants|, i requires 0 <= i < |variants| =>
      VTuple([VInt(variants[i].0), TextVal(variants[i].1), TextVal(variants[i].2)]))
  }

  function FieldsVal(fields: Fields): Val {
    match fields
    case NamedFields(named) => VEnum(0, VTuple([VSeq(NamedVals(named))]))
    case UnnamedFields(unnamed) => VEnum(1, VTuple([VSeq(TextVals(unnamed))]))
    case NoFields => VEnum(2, VTuple([]))
  }

  function DefinitionVal(def: Definition): Val {
    match def
    case Primitive(size) => VEnum(0, VTuple([VInt(size)]))
    case Sequence(width, start, end, elements) =>
      VEnum(1, VTuple([VInt(width), VTuple([VInt(start), VInt(end)]), TextVal(elements)]))
    case Tuple(members) => VEnum(2, VTuple([VSeq(TextVals(members))]))
    case Enum(tagWidth, variants) => VEnum(3, VTuple([VInt(tagWidth), VSeq(VariantVals(variants))]))
    case Struct(fields) => VEnum(4, VTuple([FieldsVal(fields)]))
  }

  function EntryVal(d: Declaration, def: Definition): Val {
    VTuple([TextVal(d), DefinitionVal(def)])
  }

  /** The entries of the map in key order, put in one by one. */
  ghost function Entries(env: Env, m: map<Declaration, Definition>): seq<Val> {
    if m == map[] then []
    else
      var d :| d in m;
      Insert(env, DEFINITIONS, Entries(env, m - {d}), EntryVal(d, m[d]))
  }

  ghost function ContainerVal(env: Env, s: Container): Val {
    VTuple([TextVal(s.declaration), VSeq(Entries(env, s.definitions))])
  }

  // ---- Different schemas are different values ----

  lemma TextInjective(s: string, t: string)
    requires TextVal(s) == TextVal(t)
    ensures s == t
  {
    BytesOfInts(Utf8(s));
    BytesOfInts(Utf8(t));
    Utf8Injective(s, t);
  }

  lemma TextsInjective(a: seq<string>, b: seq<string>)
    requires TextVals(a) == TextVals(b)
    ensures a == b
  {
    assert |a| == |TextVals(a)| == |b|;
    forall i | 0 <= i < |a| ensures a[i] == b[i] {
      assert TextVals(a)[i] == TextVals(b)[i];
      TextInjective(a[i], b[i]);
    }
  }

  lemma NamedInjective(a: seq<(string, Declaration)>, b: seq<(string, Declaration)>)
    requires NamedVals(a) == NamedVals(b)
    ensures a == b
  {
    assert |a| == |NamedVals(a)| == |b|;
    forall i | 0 <= i < |a| ensures a[i] == b[i] {
      var p, q := NamedVals(a)[i].items, NamedVals(b)[i].items;
      assert p[0] == q[0] && p[1] == q[1];
      TextInjective(a[i].0, b[i].0);
      TextInjective(a[i].1, b[i].1);
    }
  }

  lemma VariantsInjective(a: seq<(i64, string, Declaration)>, b: seq<(i64, string, Declaration)>)
    requires VariantVals(a) == VariantVals(b)
    ensures a == b
  {
    assert |a| == |VariantVals(a)| == |b|;
    forall i | 0 <= i < |a| ensures a[i] == b[i] {
      var p, q := VariantVals(a)[i].items, VariantVals(b)[i].items;
      assert p[0] == q[0] && p[1] == q[1] && p[2] == q[2];
      TextInjective(a[i].1, b[i].1);
      TextInjective(a[i].2, b[i].2);
    }
  }

  lemma FieldsInjective(a: Fields, b: Fields)
    requires FieldsVal(a) == FieldsVal(b)
    ensures a == b
  {
    var p, q := FieldsVal(a).payload.items, FieldsVal(b).payload.items;
    match a
    case NamedFields(named) =>
      assert p[0] == q[0];
      NamedInjective(named, b.named);
    case UnnamedFields(unnamed) =>
      assert p[0] == q[0];
      TextsInjective(unnamed, b.unnamed);
    case NoFields =>
  }

  lemma DefinitionInjective(a: Definition, b: Definition)
    requires DefinitionVal(a) == DefinitionVal(b)
    ensures a == b
  {
    var p, q := DefinitionVal(a).payload.items, DefinitionVal(b).payload.items;
    assert p[0] == q[0];
    match a
    case Primitive(_) =>
    case Sequence(_, _, _, elements) =>
      assert p[1].items[0] == q[1].items[0] && p[1].items[1] == q[1].items[1] && p[2] == q[2];
      TextInjective(elements, b.elements);
    case Tuple(members) => TextsInjective(members, b.members);
    case Enum(_, variants) =>
      assert p[1] == q[1];
      VariantsInjective(variants, b.variants);
    case Struct(fields) => FieldsInjective(fields, b.fields);
  }

  ghost predicate IsEntry(m: map<Declaration, Definition>, e: Val) {
    exists d :: d in m && e == EntryVal(d, m[d])
  }

  /** The entries are those of the map, each once, in strictly ascending order. */
  lemma {:induction false} EntriesExact(env: Env, m: map<Declaration, Definition>)
    requires StrictTotalOrder(env.less)
    ensures Ascending(env, DEFINITIONS, Entries(env, m))
    ensures forall e :: e in Entries(env, m) <==> IsEntry(m, e)
    ensures |Entries(env, m)| == |m|
    decreases |m|
  {
    if m != map[] {
      var d :| d in m && Entries(env, m) == Insert(env, DEFINITIONS, Entries(env, m - {d}), EntryVal(d, m[d]));
      var rest, x := m - {d}, EntryVal(d, m[d]);
      EntriesExact(env, rest);
      InsertKeepsOrder(env, DEFINITIONS, Entries(env, rest), x);
      forall y | y in Entries(env, rest) ensures Precedes(env, DEFINITIONS, x, y) || Precedes(env, DEFINITIONS, y, x) {
        var c :| c in rest && y == EntryVal(c, rest[c]);
        OtherKey(env, c, rest[c], d, m[d]);
      }
      InsertNew(env, DEFINITIONS, Entries(env, rest), x);
      InsertMembers(env, DEFINITIONS, Entries(env, rest), x);
      forall e ensures e in Entries(env, m) <==> IsEntry(m, e) {
        SplitEntry(m, d, e);
      }
    }
  }

  lemma OtherKey(env: Env, c: Declaration, def: Definition, d: Declaration, def': Definition)
    requires StrictTotalOrder(env.less) && c != d
    ensures Precedes(env, DEFINITIONS, EntryVal(d, def'), EntryVal(c, def)) || Precedes(env, DEFINITIONS, EntryVal(c, def), EntryVal(d, def'))
  {
    if TextVal(c) == TextVal(d) {
      TextInjective(c, d);
    }
    assert env.less(TString, TextVal(c), TextVal(d)) || env.less(TString, TextVal(d), TextVal(c));
  }

  lemma SplitEntry(m: map<Declaration, Definition>, d: Declaration, e: Val)
    requires d in m
    ensures IsEntry(m, e) <==> e == EntryVal(d, m[d]) || IsEntry(m - {d}, e)
  {
    var rest := m - {d};
    if IsEntry(m, e) {
      var c :| c in m && e == EntryVal(c, m[c]);
      assert c == d || (c in rest && rest[c] == m[c]);
    }
    if IsEntry(rest, e) {
      var c :| c in rest && e == EntryVal(c, rest[c]);
      assert c in m && m[c] == rest[c];
    }
  }

  /** Different containers are different values. */
  lemma ContainerInjective(env: Env, s: Container, t: Container)
    requires StrictTotalOrder(env.less) && ContainerVal(env, s) == ContainerVal(env, t)
    ensures s == t
  {
    var p, q := ContainerVal(env, s).items, ContainerVal(env, t).items;
    assert p[0] == q[0] && p[1] == q[1];
    TextInjective(s.declaration, t.declaration);
    SameEntries(env, s.definitions, t.definitions);
    SameEntries(env, t.definitions, s.definitions);
    assert s.definitions.Keys == t.definitions.Keys;
  }

  lemma SameEntries(env: Env, m: map<Declaration, Definition>, n: map<Declaration, Definition>)
    requires StrictTotalOrder(env.less) && Entries(env, m) == Entries(env, n)
    ensures forall d | d in m :: d in n && n[d] == m[d]
  {
    EntriesExact(env, m);
    EntriesExact(env, n);
    forall d | d in m ensures d in n && n[d] == m[d] {
      var e := EntryVal(d, m[d]);
      assert IsEntry(m, e);
      assert e in Entries(env, n);
      var c :| c in n && e == EntryVal(c, n[c]);
      assert e.items[0] == TextVal(c) && e.items[1] == DefinitionVal(n[c]);
      TextInjective(c, d);
      DefinitionInjective(m[d], n[d]);
    }
  }

  // ---- The values are typed ----

  lemma TextTyped(env: Env, s: string)
    requires HasSchemaTypes(env)
    ensures HasType(env, TString, TextVal(s))
  {
    BytesOfInts(Utf8(s));
    BytesTyped(env, Utf8(s));
  }

  lemma BytesTyped(env: Env, b: seq<byte>)
    ensures AllHaveType(env, U8, Ints(b))
  {
    Pow256Values();
  }

  lemma WordTyped(env: Env, n: u64)
    ensures HasType(env, WORD, VInt(n))
  {
    Pow256Values();
  }

  lemma RowTyped(env: Env, tys: seq<Ty>, items: seq<Val>)
    requires |tys| == |items| && forall i | 0 <= i < |items| :: HasType(env, tys[i], items[i])
    ensures HasType(env, TTuple(tys), VTuple(items))
  {
  }

  lemma TextsTyped(env: Env, ss: seq<string>)
    requires HasSchemaTypes(env)
    ensures HasType(env, TEXTS, VSeq(TextVals(ss)))
  {
    forall i | 0 <= i < |ss| ensures HasType(env, TString, TextVals(ss)[i]) {
      TextTyped(env, ss[i]);
    }
  }

  lemma NamedTyped(env: Env, fields: seq<(string, Declaration)>)
    requires HasSchemaTypes(env)
    ensures HasType(env, TSeq(Vec, NAMED), VSeq(NamedVals(fields)))
  {
    forall i | 0 <= i < |fields| ensures HasType(env, NAMED, NamedVals(fields)[i]) {
      TextTyped(env, fields[i].0);
      TextTyped(env, fields[i].1);
      RowTyped(env, [TString, TString], [TextVal(fields[i].0), TextVal(fields[i].1)]);
    }
  }

  lemma VariantsTyped(env: Env, variants: seq<(i64, string, Declaration)>)
    requires HasSchemaTypes(env)
    ensures HasType(env, TSeq(Vec, VARIANT), VSeq(VariantVals(variants)))
  {
    forall i | 0 <= i < |variants| ensures HasType(env, VARIANT, VariantVals(variants)[i]) {
      DiscriminantTyped(env, variants[i].0);
      TextTyped(env, variants[i].1);
      TextTyped(env, variants[i].2);
      RowTyped(env, [TInt(true, 8), TString, TString], [VInt(variants[i].0), TextVal(variants[i].1), TextVal(variants[i].2)]);
    }
  }

  lemma DiscriminantTyped(env: Env, i: i64)
    ensures HasType(env, TInt(true, 8), VInt(i))
  {
    Pow256Values();
    assert Pow256(8) == 256 * Pow256(7);
  }

  /** A variant's payload is a struct, typed field by field. */
  lemma PayloadTyped(env: Env, name: string, named: bool, fields: seq<(string, Ty)>, items: seq<Val>)
    requires Defines(env, name, StructDef(named, fields)) && |items| == |fields|
    requires forall i | 0 <= i < |items| :: HasType(env, fields[i].1, items[i])
    ensures HasType(env, TNamed(name), VTuple(items))
  {
    assert RowHasTypes(env, FieldTys(fields), items);
  }

  lemma FieldsTyped(env: Env, fields: Fields)
    requires HasSchemaTypes(env)
    ensures HasType(env, TNamed("Fields"), FieldsVal(fields))
  {
    var p := FieldsVal(fields).payload;
    match fields
    case NamedFields(named) =>
      NamedTyped(env, named);
      PayloadTyped(env, "FieldsNamedFields", false, [("0", TSeq(Vec, NAMED))], p.items);
    case UnnamedFields(unnamed) =>
      TextsTyped(env, unnamed);
      PayloadTyped(env, "FieldsUnnamedFields", false, [("0", TEXTS)], p.items);
    case NoFields => PayloadTyped(env, "FieldsEmpty", false, [], p.items);
  }

  lemma ByteTyped(env: Env, n: u8)
    ensures HasType(env, U8, VInt(n))
  {
    Pow256Values();
  }

  lemma PayloadOfDefinitionTyped(env: Env, def: Definition)
    requires HasSchemaTypes(env)
    ensures HasType(env, TNamed(PayloadName(def)), DefinitionVal(def).payload)
  {
    var p := DefinitionVal(def).payload;
    match def
    case Primitive(size) =>
      ByteTyped(env, size);
      PayloadTyped(env, "DefinitionPrimitive", false, [("0", U8)], p.items);
    case Sequence(width, start, end, elements) =>
      ByteTyped(env, width);
      WordTyped(env, start);
      WordTyped(env, end);
      RowTyped(env, [WORD, WORD], [VInt(start), VInt(end)]);
      TextTyped(env, elements);
      PayloadTyped(env, "DefinitionSequence", true,
                   [("length_width", U8), ("length_range", TTuple([WORD, WORD])), ("elements", TString)], p.items);
    case Tuple(members) =>
      TextsTyped(env, members);
      PayloadTyped(env, "DefinitionTuple", true, [("elements", TEXTS)], p.items);
    case Enum(tagWidth, variants) =>
      ByteTyped(env, tagWidth);
      VariantsTyped(env, variants);
      PayloadTyped(env, "DefinitionEnum", true, [("tag_width", U8), ("variants", TSeq(Vec, VARIANT))], p.items);
    case Struct(fields) =>
      FieldsTyped(env, fields);
      PayloadTyped(env, "DefinitionStruct", true, [("fields", TNamed("Fields"))], p.items);
  }

  function PayloadName(def: Definition): string {
    match def
    case Primitive(_) => "DefinitionPrimitive"
    case Sequence(_, _, _, _) => "DefinitionSequence"
    case Tuple(_) => "DefinitionTuple"
    case Enum(_, _) => "DefinitionEnum"
    case Struct(_) => "DefinitionStruct"
  }

  lemma DefinitionTyped(env: Env, def: Definition)
    requires HasSchemaTypes(env)
    ensures HasType(env, DEFINITION, DefinitionVal(def))
  {
    PayloadOfDefinitionTyped(env, def);
  }

  lemma EntryTyped(env: Env, d: Declaration, def: Definition)
    requires HasSchemaTypes(env)
    ensures HasType(env, TTuple([TString, DEFINITION]), EntryVal(d, def))
  {
    TextTyped(env, d);
    DefinitionTyped(env, def);
    RowTyped(env, [TString, DEFINITION], [TextVal(d), DefinitionVal(def)]);
  }

  lemma EntriesTyped(env: Env, m: map<Declaration, Definition>)
    requires HasSchemaTypes(env) && StrictTotalOrder(env.less)
    ensures HasType(env, DEFINITIONS, VSeq(Entries(env, m)))
  {
    EntriesExact(env, m);
    var entries := Entries(env, m);
    forall i | 0 <= i < |entries| ensures HasType(env, TTuple([TString, DEFINITION]), entries[i]) {
      assert entries[i] in entries;
      var d :| d in m && entries[i] == EntryVal(d, m[d]);
      EntryTyped(env, d, m[d]);
    }
  }

  /** Every container is a value of the container type. */
  lemma ContainerTyped(env: Env, s: Container)
    requires HasSchemaTypes(env) && StrictTotalOrder(env.less)
    ensures HasType(env, CONTAINER, ContainerVal(env, s))
  {
    TextTyped(env, s.declaration);
    EntriesTyped(env, s.definitions);
    RowTyped(env, [TString, DEFINITIONS], [TextVal(s.declaration), VSeq(Entries(env, s.definitions))]);
  }

  // ---- The values can be written ----

  predicate Short(s: string) {
    |Utf8(s)| <= U32_MAX
  }

  /** Every string and every list of a definition fits a 32-bit length. */
  predicate Compact(def: Definition) {
    match def
    case Primitive(_) => true
    case Sequence(_, _, _, elements) => Short(elements)
    case Tuple(members) => CompactTexts(members)
    case Enum(_, variants) =>
      |variants| <= U32_MAX && forall i | 0 <= i < |variants| :: Short(variants[i].1) && Short(variants[i].2)
    case Struct(NamedFields(named)) =>
      |named| <= U32_MAX && forall i | 0 <= i < |named| :: Short(named[i].0) && Short(named[i].1)
    case Struct(UnnamedFields(unnamed)) => CompactTexts(unnamed)
    case Struct(NoFields) => true
  }

  predicate CompactTexts(ss: seq<string>) {
    |ss| <= U32_MAX && forall i | 0 <= i < |ss| :: Short(ss[i])
  }

  predicate CompactContainer(s: Container) {
    && Short(s.declaration)
    && |s.definitions| <= U32_MAX
    && forall d | d in s.definitions :: Short(d) && Compact(s.definitions[d])
  }

  ghost predicate Writes(env: Env, ty: Ty, v: Val) {
    HasType(env, ty, v) && Encode(env, ty, v).Ok?
  }

  lemma TextWrites(env: Env, s: string)
    requires HasSchemaTypes(env)
    ensures HasType(env, TString, TextVal(s))
    ensures Writes(env, TString, TextVal(s)) <==> Short(s)
  {
    TextTyped(env, s);
    var items := Ints(Utf8(s));
    BytesTyped(env, Utf8(s));
    S.BulkBytes(env, items);
    assert Encode(env, TString, TextVal(s)) == EncodeItems(env, U8, items);
  }

  /** A row can be written exactly when each of its members can. */
  lemma {:induction false} RowWrites(env: Env, tys: seq<Ty>, items: seq<Val>)
    requires RowHasTypes(env, tys, items)
    ensures EncodeRow(env, tys, items).Ok? <==> forall i | 0 <= i < |items| :: Writes(env, tys[i], items[i])
    decreases |items|
  {
    if items != [] {
      RowWrites(env, tys[1..], items[1..]);
      assert forall i | 0 < i < |items| :: items[i] == items[1..][i - 1] && tys[i] == tys[1..][i - 1];
      assert EncodeRow(env, tys, items).Ok? <==> Writes(env, tys[0], items[0]) && EncodeRow(env, tys[1..], items[1..]).Ok?;
    }
  }

  lemma TupleWrites(env: Env, tys: seq<Ty>, items: seq<Val>)
    requires |tys| == |items| && forall i | 0 <= i < |items| :: HasType(env, tys[i], items[i])
    ensures Writes(env, TTuple(tys), VTuple(items)) <==> forall i | 0 <= i < |items| :: Writes(env, tys[i], items[i])
  {
    RowTyped(env, tys, items);
    RowWrites(env, tys, items);
  }

  lemma PairWrites(env: Env, a: Ty, b: Ty, v: Val, w: Val)
    requires HasType(env, a, v) && HasType(env, b, w)
    ensures HasType(env, TTuple([a, b]), VTuple([v, w]))
    ensures Writes(env, TTuple([a, b]), VTuple([v, w])) <==> Writes(env, a, v) && Writes(env, b, w)
  {
    var tys, items := [a, b], [v, w];
    RowTyped(env, tys, items);
    TupleWrites(env, tys, items);
    assert Writes(env, tys[0], items[0]) <==> Writes(env, a, v);
    assert Writes(env, tys[1], items[1]) <==> Writes(env, b, w);
  }

  lemma VecWrites(env: Env, ty: Ty, items: seq<Val>)
    requires !env.zst(ty) && forall i | 0 <= i < |items| :: HasType(env, ty, items[i])
    ensures Writes(env, TSeq(Vec, ty), VSeq(items)) <==>
            |items| <= U32_MAX && forall i | 0 <= i < |items| :: Writes(env, ty, items[i])
  {
    EncodableAll(env, ty, items);
    assert HasType(env, TSeq(Vec, ty), VSeq(items));
    assert Encode(env, TSeq(Vec, ty), VSeq(items)) == EncodeItems(env, ty, items);
    assert EncodeItems(env, ty, items).Ok? <==> |items| <= U32_MAX && EncodeAll(env, ty, items).Ok?;
  }

  lemma TextsWrite(env: Env, ss: seq<string>)
    requires HasSchemaTypes(env)
    ensures HasType(env, TEXTS, VSeq(TextVals(ss)))
    ensures Writes(env, TEXTS, VSeq(TextVals(ss))) <==> CompactTexts(ss)
  {
    TextsTyped(env, ss);
    forall i | 0 <= i < |ss|
      ensures HasType(env, TString, TextVals(ss)[i]) && (Writes(env, TString, TextVals(ss)[i]) <==> Short(ss[i]))
    {
      TextWrites(env, ss[i]);
    }
    VecWrites(env, TString, TextVals(ss));
  }

  lemma NamedWrite(env: Env, named: seq<(string, Declaration)>)
    requires HasSchemaTypes(env)
    ensures HasType(env, TSeq(Vec, NAMED), VSeq(NamedVals(named)))
    ensures Writes(env, TSeq(Vec, NAMED), VSeq(NamedVals(named))) <==> Compact(Struct(NamedFields(named)))
  {
    NamedTyped(env, named);
    forall i | 0 <= i < |named|
      ensures HasType(env, NAMED, NamedVals(named)[i])
      ensures Writes(env, NAMED, NamedVals(named)[i]) <==> Short(named[i].0) && Short(named[i].1)
    {
      TextWrites(env, named[i].0);
      TextWrites(env, named[i].1);
      PairWrites(env, TString, TString, TextVal(named[i].0), TextVal(named[i].1));
    }
    VecWrites(env, NAMED, NamedVals(named));
  }

  lemma VariantWrites(env: Env, variant: (i64, string, Declaration))
    requires HasSchemaTypes(env)
    ensures var v := VTuple([VInt(variant.0), TextVal(variant.1), TextVal(variant.2)]);
            HasType(env, VARIANT, v) && (Writes(env, VARIANT, v) <==> Short(variant.1) && Short(variant.2))
  {
    DiscriminantTyped(env, variant.0);
    TextWrites(env, variant.1);
    TextWrites(env, variant.2);
    var tys, items := [TInt(true, 8), TString, TString], [VInt(variant.0), TextVal(variant.1), TextVal(variant.2)];
    RowTyped(env, tys, items);
    TupleWrites(env, tys, items);
    assert Writes(env, tys[0], items[0]);
    assert Writes(env, tys[1], items[1]) <==> Short(variant.1);
    assert Writes(env, tys[2], items[2]) <==> Short(variant.2);
  }

  lemma VariantsWrite(env: Env, tagWidth: u8, variants: seq<(i64, string, Declaration)>)
    requires HasSchemaTypes(env)
    ensures HasType(env, TSeq(Vec, VARIANT), VSeq(VariantVals(variants)))
    ensures Writes(env, TSeq(Vec, VARIANT), VSeq(VariantVals(variants))) <==> Compact(Enum(tagWidth, variants))
  {
    VariantsTyped(env, variants);
    forall i | 0 <= i < |variants|
      ensures HasType(env, VARIANT, VariantVals(variants)[i])
      ensures Writes(env, VARIANT, VariantVals(variants)[i]) <==> Short(variants[i].1) && Short(variants[i].2)
    {
      VariantWrites(env, variants[i]);
    }
    VecWrites(env, VARIANT, VariantVals(variants));
  }

  lemma PayloadWrites(env: Env, name: string, named: bool, fields: seq<(string, Ty)>, items: seq<Val>)
    requires Defines(env, name, StructDef(named, fields)) && |items| == |fields|
    requires forall i | 0 <= i < |items| :: HasType(env, fields[i].1, items[i])
    ensures Writes(env, TNamed(name), VTuple(items)) <==> forall i | 0 <= i < |items| :: Writes(env, fields[i].1, items[i])
  {
    PayloadTyped(env, name, named, fields, items);
    RowWrites(env, FieldTys(fields), items);
    assert forall i | 0 <= i < |items| :: FieldTys(fields)[i] == fields[i].1;
  }

  /** A payload can be written exactly when its last field can, if the others can. */
  lemma LastDecides(env: Env, name: string, named: bool, fields: seq<(string, Ty)>, items: seq<Val>)
    requires Defines(env, name, StructDef(named, fields)) && 0 < |items| == |fields|
    requires forall i | 0 <= i < |items| - 1 :: Writes(env, fields[i].1, items[i])
    requires HasType(env, fields[|fields| - 1].1, items[|fields| - 1])
    ensures Writes(env, TNamed(name), VTuple(items)) <==> Writes(env, fields[|fields| - 1].1, items[|fields| - 1])
  {
    PayloadWrites(env, name, named, fields, items);
  }

  lemma FieldsWrite(env: Env, fields: Fields)
    requires HasSchemaTypes(env)
    ensures Writes(env, TNamed("Fields"), FieldsVal(fields)) <==> Compact(Struct(fields))
  {
    var p := FieldsVal(fields).payload;
    FieldsTyped(env, fields);
    match fields
    case NamedFields(named) =>
      NamedWrite(env, named);
      LastDecides(env, "FieldsNamedFields", false, [("0", TSeq(Vec, NAMED))], p.items);
    case UnnamedFields(unnamed) =>
      TextsWrite(env, unnamed);
      LastDecides(env, "FieldsUnnamedFields", false, [("0", TEXTS)], p.items);
    case NoFields => PayloadWrites(env, "FieldsEmpty", false, [], p.items);
  }

  lemma PayloadOfDefinitionWrites(env: Env, def: Definition)
    requires HasSchemaTypes(env)
    ensures Writes(env, TNamed(PayloadName(def)), DefinitionVal(def).payload) <==> Compact(def)
  {
    var p := DefinitionVal(def).payload;
    match def
    case Primitive(size) =>
      ByteTyped(env, size);
      LastDecides(env, "DefinitionPrimitive", false, [("0", U8)], p.items);
    case Sequence(width, start, end, elements) =>
      ByteTyped(env, width);
      WordTyped(env, start);
      WordTyped(env, end);
      PairWrites(env, WORD, WORD, VInt(start), VInt(end));
      TextWrites(env, elements);
      LastDecides(env, "DefinitionSequence", true,
                  [("length_width", U8), ("length_range", TTuple([WORD, WORD])), ("elements", TString)], p.items);
    case Tuple(members) =>
      TextsWrite(env, members);
      LastDecides(env, "DefinitionTuple", true, [("elements", TEXTS)], p.items);
    case Enum(tagWidth, variants) =>
      ByteTyped(env, tagWidth);
      VariantsWrite(env, tagWidth, variants);
      LastDecides(env, "DefinitionEnum", true, [("tag_width", U8), ("variants", TSeq(Vec, VARIANT))], p.items);
    case Struct(fields) =>
      FieldsTyped(env, fields);
      FieldsWrite(env, fields);
      LastDecides(env, "DefinitionStruct", true, [("fields", TNamed("Fields"))], p.items);
  }

  lemma DefinitionWrites(env: Env, def: Definition)
    requires HasSchemaTypes(env)
    ensures Writes(env, DEFINITION, DefinitionVal(def)) <==> Compact(def)
  {
    DefinitionTyped(env, def);
    PayloadOfDefinitionWrites(env, def);
  }

  lemma EntryWrites(env: Env, d: Declaration, def: Definition)
    requires HasSchemaTypes(env)
    ensures Writes(env, TTuple([TString, DEFINITION]), EntryVal(d, def)) <==> Short(d) && Compact(def)
  {
    TextWrites(env, d);
    DefinitionTyped(env, def);
    DefinitionWrites(env, def);
    PairWrites(env, TString, DEFINITION, TextVal(d), DefinitionVal(def));
  }

  lemma EntriesWrite(env: Env, m: map<Declaration, Definition>)
    requires HasSchemaTypes(env) && StrictTotalOrder(env.less)
    ensures HasType(env, DEFINITIONS, VSeq(Entries(env, m)))
    ensures Writes(env, DEFINITIONS, VSeq(Entries(env, m))) <==>
            |m| <= U32_MAX && forall d | d in m :: Short(d) && Compact(m[d])
  {
    var entries, item := Entries(env, m), TTuple([TString, DEFINITION]);
    EntriesExact(env, m);
    EntriesTyped(env, m);
    EncodableAll(env, item, entries);
    assert Encode(env, DEFINITIONS, VSeq(entries)) == EncodeItems(env, item, entries);
    forall d | d in m ensures IsEntry(m, EntryVal(d, m[d])) && (Writes(env, item, EntryVal(d, m[d])) <==> Short(d) && Compact(m[d])) {
      EntryWrites(env, d, m[d]);
    }
    EntriesOf(env, item, m, entries);
  }

  /** What holds of every entry holds of every declaration, and back. */
  lemma EntriesOf(env: Env, item: Ty, m: map<Declaration, Definition>, entries: seq<Val>)
    requires forall e :: e in entries <==> IsEntry(m, e)
    ensures (forall i | 0 <= i < |entries| :: Writes(env, item, entries[i])) <==>
            forall d | d in m :: Writes(env, item, EntryVal(d, m[d]))
  {
    if forall i | 0 <= i < |entries| :: Writes(env, item, entries[i]) {
      forall d | d in m ensures Writes(env, item, EntryVal(d, m[d])) {
        assert IsEntry(m, EntryVal(d, m[d]));
      }
    }
    if forall d | d in m :: Writes(env, item, EntryVal(d, m[d])) {
      forall i | 0 <= i < |entries| ensures Writes(env, item, entries[i]) {
        assert entries[i] in entries;
      }
    }
  }

  /** A container can be written exactly when its strings and lists fit 32-bit lengths. */
  lemma ContainerWrites(env: Env, s: Container)
    requires HasSchemaTypes(env) && StrictTotalOrder(env.less)
    ensures Writes(env, CONTAINER, ContainerVal(env, s)) <==> CompactContainer(s)
  {
    EntriesWrite(env, s.definitions);
    TextWrites(env, s.declaration);
    PairWrites(env, TString, DEFINITIONS, TextVal(s.declaration), VSeq(Entries(env, s.definitions)));
  }

  // ---- The bytes ----

  /** A string is its length in bytes and its bytes. */
  lemma TextBytes(env: Env, s: string)
    requires HasSchemaTypes(env) && Short(s)
    ensures HasType(env, TString, TextVal(s)) && Encode(env, TString, TextVal(s)) == Ok(LittleEndian(4, |Utf8(s)|) + Utf8(s))
  {
    TextTyped(env, s);
    var items := Ints(Utf8(s));
    BytesTyped(env, Utf8(s));
    S.BulkBytes(env, items);
    BytesOfInts(Utf8(s));
    assert Encode(env, TString, TextVal(s)) == EncodeItems(env, U8, items);
  }

  lemma ByteAlone(env: Env, n: byte)
    ensures HasType(env, U8, VInt(n)) && Encode(env, U8, VInt(n)) == Ok([n])
  {
    ByteTyped(env, n);
    assert Pow256(1) == 256 * Pow256(0);
    assert LittleEndian(1, n) == [n];
  }

  lemma RowOfOne(env: Env, ty: Ty, v: Val)
    requires HasType(env, ty, v)
    ensures RowHasTypes(env, [ty], [v]) && EncodeRow(env, [ty], [v]) == Encode(env, ty, v)
  {
    RowTyped(env, [ty], [v]);
    assert [ty][1..] == [] && [v][1..] == [] && EncodeRow(env, [], []) == Ok([]);
    if Encode(env, ty, v).Ok? {
      assert Encode(env, ty, v).value + [] == Encode(env, ty, v).value;
    }
  }

  /** A row starts with its first member. */
  lemma RowOfMore(env: Env, ty: Ty, v: Val, tys: seq<Ty>, items: seq<Val>)
    requires HasType(env, ty, v) && RowHasTypes(env, tys, items)
    requires Encode(env, ty, v).Ok? && EncodeRow(env, tys, items).Ok?
    ensures RowHasTypes(env, [ty] + tys, [v] + items)
    ensures EncodeRow(env, [ty] + tys, [v] + items) == Ok(Encode(env, ty, v).value + EncodeRow(env, tys, items).value)
  {
    assert ([ty] + tys)[1..] == tys && ([v] + items)[1..] == items;
    assert RowHasTypes(env, [ty] + tys, [v] + items);
  }

  lemma OneField(env: Env, name: string, named: bool, field: string, ty: Ty, v: Val)
    requires Defines(env, name, StructDef(named, [(field, ty)])) && HasType(env, ty, v)
    ensures HasType(env, TNamed(name), VTuple([v])) && Encode(env, TNamed(name), VTuple([v])) == Encode(env, ty, v)
  {
    PayloadTyped(env, name, named, [(field, ty)], [v]);
    RowOfOne(env, ty, v);
    assert FieldTys([(field, ty)]) == [ty];
  }

  function Tag(def: Definition): byte {
    match def
    case Primitive(_) => 0
    case Sequence(_, _, _, _) => 1
    case Tuple(_) => 2
    case Enum(_, _) => 3
    case Struct(_) => 4
  }

  function FieldsTag(fields: Fields): byte {
    match fields
    case NamedFields(_) => 0
    case UnnamedFields(_) => 1
    case NoFields => 2
  }

  /** A definition is the tag of its kind and then its contents. */
  lemma TagThenContents(env: Env, def: Definition)
    requires HasSchemaTypes(env)
    ensures var v, payload := DefinitionVal(def), DefinitionVal(def).payload;
            && HasType(env, DEFINITION, v) && HasType(env, TNamed(PayloadName(def)), payload)
            && match Encode(env, TNamed(PayloadName(def)), payload)
               case Ok(b) => Encode(env, DEFINITION, v) == Ok([Tag(def)] + b)
               case Err(e) => Encode(env, DEFINITION, v) == Err(e)
  {
    DefinitionTyped(env, def);
    PayloadOfDefinitionTyped(env, def);
  }

  /** The first bytes of a definition tell its kind and, for a struct, that of its fields. */
  lemma FirstBytes(env: Env, def: Definition)
    requires HasSchemaTypes(env) && Compact(def)
    ensures HasType(env, DEFINITION, DefinitionVal(def)) && Encode(env, DEFINITION, DefinitionVal(def)).Ok?
    ensures var b := Encode(env, DEFINITION, DefinitionVal(def)).value;
            |b| > 0 && b[0] == Tag(def) && (def.Struct? ==> |b| > 1 && b[1] == FieldsTag(def.fields))
  {
    DefinitionWrites(env, def);
    TagThenContents(env, def);
    if def.Struct? {
      FieldsTyped(env, def.fields);
      OneField(env, "DefinitionStruct", true, "fields", TNamed("Fields"), FieldsVal(def.fields));
    }
  }

  /** A primitive definition is its tag and its size. */
  lemma PrimitiveBytes(env: Env, size: u8)
    requires HasSchemaTypes(env)
    ensures HasType(env, DEFINITION, DefinitionVal(Primitive(size)))
    ensures Encode(env, DEFINITION, DefinitionVal(Primitive(size))) == Ok([0, size])
  {
    TagThenContents(env, Primitive(size));
    ByteAlone(env, size);
    OneField(env, "DefinitionPrimitive", false, "0", U8, VInt(size));
    assert [0] + [size] == [0, size];
  }

  lemma RangeBytes(env: Env, start: u64, end: u64)
    ensures var v := VTuple([VInt(start), VInt(end)]);
            && HasType(env, TTuple([WORD, WORD]), v)
            && Encode(env, TTuple([WORD, WORD]), v) == Ok(LittleEndian(8, start) + LittleEndian(8, end))
  {
    WordTyped(env, start);
    WordTyped(env, end);
    RowOfOne(env, WORD, VInt(end));
    RowOfMore(env, WORD, VInt(start), [WORD], [VInt(end)]);
    assert [WORD] + [WORD] == [WORD, WORD] && [VInt(start)] + [VInt(end)] == [VInt(start), VInt(end)];
  }

  lemma SequenceRow(env: Env, width: u8, start: u64, end: u64, elements: Declaration)
    requires HasSchemaTypes(env) && Short(elements)
    ensures var tys := [U8] + ([TTuple([WORD, WORD])] + [TString]);
            var items := [VInt(width)] + ([VTuple([VInt(start), VInt(end)])] + [TextVal(elements)]);
            && RowHasTypes(env, tys, items)
            && EncodeRow(env, tys, items) ==
               Ok([width] + ((LittleEndian(8, start) + LittleEndian(8, end)) + (LittleEndian(4, |Utf8(elements)|) + Utf8(elements))))
  {
    var ends, range, text := TTuple([WORD, WORD]), VTuple([VInt(start), VInt(end)]), TextVal(elements);
    ByteAlone(env, width);
    RangeBytes(env, start, end);
    TextBytes(env, elements);
    RowOfOne(env, TString, text);
    RowOfMore(env, ends, range, [TString], [text]);
    RowOfMore(env, U8, VInt(width), [ends] + [TString], [range] + [text]);
  }

  lemma Regroup(tag: byte, width: byte, a: seq<byte>, b: seq<byte>, c: seq<byte>)
    ensures [tag] + ([width] + ((a + b) + c)) == [tag, width] + a + b + c
  {
  }

  /** A sequence is its tag, the width of its length, the ends of its range and its items. */
  lemma SequenceBytes(env: Env, width: u8, start: u64, end: u64, elements: Declaration)
    requires HasSchemaTypes(env) && Short(elements)
    ensures var def := Sequence(width, start, end, elements);
            && HasType(env, DEFINITION, DefinitionVal(def))
            && Encode(env, DEFINITION, DefinitionVal(def)) ==
               Ok([1, width] + LittleEndian(8, start) + LittleEndian(8, end) + (LittleEndian(4, |Utf8(elements)|) + Utf8(elements)))
  {
    var fields := [("length_width", U8), ("length_range", TTuple([WORD, WORD])), ("elements", TString)];
    TagThenContents(env, Sequence(width, start, end, elements));
    SequenceRow(env, width, start, end, elements);
    assert FieldTys(fields) == [U8] + ([TTuple([WORD, WORD])] + [TString]);
    assert DefinitionVal(Sequence(width, start, end, elements)).payload.items ==
           [VInt(width)] + ([VTuple([VInt(start), VInt(end)])] + [TextVal(elements)]);
    Regroup(1, width, LittleEndian(8, start), LittleEndian(8, end), LittleEndian(4, |Utf8(elements)|) + Utf8(elements));
  }
}
