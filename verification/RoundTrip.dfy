/** Encoding and decoding undo each other. */
module RoundTrip {
  import opened Bytes
  import opened Wrappers
  import opened Types
  import opened Codec

  // ---- Decoding undoes encoding ----

  lemma WordBack(width: nat, word: nat, rest: seq<byte>)
    requires word < Pow256(width)
    ensures DecodeWord(LittleEndian(width, word) + rest, width) == Ok((word, rest))
  {
    var b := LittleEndian(width, word) + rest;
    assert b[..width] == LittleEndian(width, word) && b[width..] == rest;
    LittleEndianRoundTrip(width, word);
  }

  lemma TagBack(tag: byte, rest: seq<byte>)
    ensures DecodeWord([tag] + rest, 1) == Ok((tag, rest))
  {
    Pow256Values();
    assert LittleEndian(1, tag) == [tag];
    WordBack(1, tag, rest);
  }

  /** Decoding an encoded value, whatever follows it, gives the value back and
      leaves exactly what follows; with or without the strict order check. */
  lemma {:induction false} DecodeEncode(env: Env, strict: bool, ty: Ty, v: Val, rest: seq<byte>)
    requires WellFormed(env) && HasType(env, ty, v) && Encode(env, ty, v).Ok?
    ensures Decode(env, strict, ty, Encode(env, ty, v).value + rest) == Ok(Parsed(v, rest))
    decreases v, 1
  {
    if IsScalar(ty) {
      ScalarBack(env, strict, ty, v, rest);
    } else if ty.TOption? || ty.TResult? {
      TaggedBack(env, strict, ty, v, rest);
    } else if ty.TString? || ty.TSeq? || IsSorted(ty) {
      CollectionBack(env, strict, ty, v, rest);
    } else if ty.TTuple? {
      RowBack(env, strict, ty.elems, v.items, rest);
    } else if ty.TArray? {
      AllBack(env, strict, ty.elem, v.items, rest);
    } else {
      NamedBack(env, strict, ty, v, rest);
    }
  }

  predicate IsScalar(ty: Ty) {
    ty.TInt? || ty.TNonZero? || ty.TFloat? || ty.TBool? || ty.TUnit?
  }

  lemma ScalarBack(env: Env, strict: bool, ty: Ty, v: Val, rest: seq<byte>)
    requires WellFormed(env) && HasType(env, ty, v) && Encode(env, ty, v).Ok? && IsScalar(ty)
    ensures Decode(env, strict, ty, Encode(env, ty, v).value + rest) == Ok(Parsed(v, rest))
  {
    match ty
    case TInt(signed, width) => IntBack(env, strict, signed, width, v, rest);
    case TNonZero(signed, width) => NonZeroBack(env, strict, signed, width, v, rest);
    case TFloat(width) => WordBack(width, v.i, rest);
    case TBool => TagBack(if v.b then 1 else 0, rest);
    case TUnit => assert [] + rest == rest;
  }

  /** What is decoded from a word, as an integer and as a non-zero one. */
  lemma IntegerRead(env: Env, strict: bool, signed: bool, width: IntWidth, b: seq<byte>, word: nat, rest: seq<byte>)
    requires WellFormed(env) && DecodeWord(b, width) == Ok((word, rest))
    ensures var i := FromWord(signed, width, word);
            && Decode(env, strict, TInt(signed, width), b) == Ok(Parsed(VInt(i), rest))
            && Decode(env, strict, TNonZero(signed, width), b) == if i == 0 then Err(ZeroValue) else Ok(Parsed(VInt(i), rest))
  {
  }

  lemma IntBack(env: Env, strict: bool, signed: bool, width: IntWidth, v: Val, rest: seq<byte>)
    requires WellFormed(env) && HasType(env, TInt(signed, width), v)
    ensures Decode(env, strict, TInt(signed, width), Encode(env, TInt(signed, width), v).value + rest) == Ok(Parsed(v, rest))
  {
    WordRoundTrip(signed, width, v.i);
    var word := ToWord(width, v.i);
    WordBack(width, word, rest);
    IntegerRead(env, strict, signed, width, LittleEndian(width, word) + rest, word, rest);
  }

  lemma NonZeroBack(env: Env, strict: bool, signed: bool, width: IntWidth, v: Val, rest: seq<byte>)
    requires WellFormed(env) && HasType(env, TNonZero(signed, width), v)
    ensures Decode(env, strict, TNonZero(signed, width), Encode(env, TNonZero(signed, width), v).value + rest) == Ok(Parsed(v, rest))
  {
    WordRoundTrip(signed, width, v.i);
    var word := ToWord(width, v.i);
    WordBack(width, word, rest);
    IntegerRead(env, strict, signed, width, LittleEndian(width, word) + rest, word, rest);
  }

  lemma {:induction false} TaggedBack(env: Env, strict: bool, ty: Ty, v: Val, rest: seq<byte>)
    requires WellFormed(env) && HasType(env, ty, v) && Encode(env, ty, v).Ok? && (ty.TOption? || ty.TResult?)
    ensures Decode(env, strict, ty, Encode(env, ty, v).value + rest) == Ok(Parsed(v, rest))
    decreases v, 0
  {
    if v.VNone? {
      TagBack(0, rest);
    } else if v.VSome? {
      BodyBack(env, strict, ty.some, 1, v.v, rest);
    } else if v.VErr? {
      BodyBack(env, strict, ty.err, 0, v.v, rest);
    } else {
      BodyBack(env, strict, ty.ok, 1, v.v, rest);
    }
  }

  lemma {:induction false} CollectionBack(env: Env, strict: bool, ty: Ty, v: Val, rest: seq<byte>)
    requires WellFormed(env) && HasType(env, ty, v) && Encode(env, ty, v).Ok?
    requires ty.TString? || ty.TSeq? || IsSorted(ty)
    ensures Decode(env, strict, ty, Encode(env, ty, v).value + rest) == Ok(Parsed(v, rest))
    decreases v, 0
  {
    match ty
    case TString => ItemsBack(env, strict, U8, v.items, rest);
    case TSeq(_, item) => ItemsBack(env, strict, item, v.items, rest);
    case TSet(_, member) =>
      ItemsBack(env, strict, member, v.items, rest);
      CollectAscending(env, ty, v.items);
    case TMap(_, key, val) =>
      ItemsBack(env, strict, TTuple([key, val]), v.items, rest);
      CollectAscending(env, ty, v.items);
  }

  lemma {:induction false} NamedBack(env: Env, strict: bool, ty: Ty, v: Val, rest: seq<byte>)
    requires WellFormed(env) && HasType(env, ty, v) && Encode(env, ty, v).Ok? && ty.TNamed?
    ensures Decode(env, strict, ty, Encode(env, ty, v).value + rest) == Ok(Parsed(v, rest))
    decreases v, 0
  {
    assert WellFormedDef(env, ty.name);
    match env.defs[ty.name]
    case StructDef(_, fields) => RowBack(env, strict, FieldTys(fields), v.items, rest);
    case EnumDef(variants) =>
      FindOwnTag(variants, v.variant);
      BodyBack(env, strict, TNamed(variants[v.variant].payload), variants[v.variant].tag, v.payload, rest);
  }

  /** Distinct tags lead back to the variant they came from. */
  lemma FindOwnTag(variants: seq<Variant>, i: nat)
    requires i < |variants|
    requires forall i, j | 0 <= i < j < |variants| :: variants[i].tag != variants[j].tag
    ensures FindTag(variants, variants[i].tag) == i
  {
    var j := FindTag(variants, variants[i].tag);
    assert !(j < i);
  }

  lemma {:induction false} BodyBack(env: Env, strict: bool, ty: Ty, tag: byte, v: Val, rest: seq<byte>)
    requires WellFormed(env) && HasType(env, ty, v) && Encode(env, ty, v).Ok?
    ensures var b := [tag] + Encode(env, ty, v).value + rest;
            && DecodeWord(b, 1) == Ok((tag, Encode(env, ty, v).value + rest))
            && Decode(env, strict, ty, Encode(env, ty, v).value + rest) == Ok(Parsed(v, rest))
    decreases v, 2
  {
    var body := Encode(env, ty, v).value;
    Regroup([tag], body, rest);
    TagBack(tag, body + rest);
    DecodeEncode(env, strict, ty, v, rest);
  }

  lemma {:induction false} ItemsBack(env: Env, strict: bool, ty: Ty, items: seq<Val>, rest: seq<byte>)
    requires WellFormed(env) && AllHaveType(env, ty, items) && EncodeItems(env, ty, items).Ok? && !env.zst(ty)
    ensures DecodeItems(env, strict, ty, EncodeItems(env, ty, items).value + rest) == Ok(ParsedRow(items, rest))
    decreases items, 1
  {
    Pow256Values();
    var body := EncodeAll(env, ty, items).value;
    Regroup(LittleEndian(4, |items|), body, rest);
    WordBack(4, |items|, body + rest);
    AllBack(env, strict, ty, items, rest);
  }

  lemma {:induction false} AllBack(env: Env, strict: bool, ty: Ty, items: seq<Val>, rest: seq<byte>)
    requires WellFormed(env) && AllHaveType(env, ty, items) && EncodeAll(env, ty, items).Ok?
    ensures DecodeAll(env, strict, ty, |items|, EncodeAll(env, ty, items).value + rest) == Ok(ParsedRow(items, rest))
    decreases items, 0
  {
    if items == [] {
      assert [] + rest == rest;
    } else {
      var first, tail := Encode(env, ty, items[0]).value, EncodeAll(env, ty, items[1..]).value;
      Regroup(first, tail, rest);
      DecodeEncode(env, strict, ty, items[0], tail + rest);
      AllBack(env, strict, ty, items[1..], rest);
      assert [items[0]] + items[1..] == items;
    }
  }

  lemma {:induction false} RowBack(env: Env, strict: bool, tys: seq<Ty>, items: seq<Val>, rest: seq<byte>)
    requires WellFormed(env) && RowHasTypes(env, tys, items) && EncodeRow(env, tys, items).Ok?
    ensures DecodeRow(env, strict, tys, EncodeRow(env, tys, items).value + rest) == Ok(ParsedRow(items, rest))
    decreases items, 0
  {
    if items == [] {
      assert [] + rest == rest;
    } else {
      var first, tail := Encode(env, tys[0], items[0]).value, EncodeRow(env, tys[1..], items[1..]).value;
      Regroup(first, tail, rest);
      DecodeEncode(env, strict, tys[0], items[0], tail + rest);
      RowBack(env, strict, tys[1..], items[1..], rest);
      assert [items[0]] + items[1..] == items;
    }
  }

  /** The whole-input form. */
  lemma FromSliceOfEncode(env: Env, strict: bool, ty: Ty, v: Val)
    requires WellFormed(env) && HasType(env, ty, v) && Encode(env, ty, v).Ok?
    ensures FromSlice(env, strict, ty, Encode(env, ty, v).value) == Ok(v)
  {
    DecodeEncode(env, strict, ty, v, []);
    assert Encode(env, ty, v).value + [] == Encode(env, ty, v).value;
  }

  /** No encoding of a type is a proper prefix of another, and equal bytes mean
      equal values: for maps and sets, equal contents. */
  lemma PrefixFree(env: Env, ty: Ty, v: Val, w: Val)
    requires WellFormed(env) && HasType(env, ty, v) && HasType(env, ty, w)
    requires Encode(env, ty, v).Ok? && Encode(env, ty, w).Ok?
    requires Encode(env, ty, v).value <= Encode(env, ty, w).value
    ensures v == w
  {
    var e, f := Encode(env, ty, v).value, Encode(env, ty, w).value;
    DecodeEncode(env, true, ty, v, f[|e|..]);
    DecodeEncode(env, true, ty, w, []);
    assert e + f[|e|..] == f && f + [] == f;
  }

  // ---- Encoding undoes decoding ----

  /** What a successful decode guarantees about the value, the rest and, in
      strict mode, the bytes consumed. */
  ghost predicate Sound(env: Env, strict: bool, ty: Ty, b: seq<byte>, v: Val, rest: seq<byte>) {
    && HasType(env, ty, v)
    && Encode(env, ty, v).Ok?
    && (strict ==> b == Encode(env, ty, v).value + rest)
  }

  ghost predicate AllSound(env: Env, strict: bool, ty: Ty, b: seq<byte>, p: ParsedRow) {
    && AllHaveType(env, ty, p.values)
    && EncodeAll(env, ty, p.values).Ok?
    && (strict ==> b == EncodeAll(env, ty, p.values).value + p.rest)
  }

  ghost predicate ItemsSound(env: Env, strict: bool, ty: Ty, b: seq<byte>, p: ParsedRow) {
    && AllHaveType(env, ty, p.values)
    && |p.values| <= U32_MAX
    && EncodeAll(env, ty, p.values).Ok?
    && (strict ==> b == EncodeItems(env, ty, p.values).value + p.rest)
  }

  ghost predicate RowSound(env: Env, strict: bool, tys: seq<Ty>, b: seq<byte>, p: ParsedRow) {
    && RowHasTypes(env, tys, p.values)
    && EncodeRow(env, tys, p.values).Ok?
    && (strict ==> b == EncodeRow(env, tys, p.values).value + p.rest)
  }

  lemma WordConsumed(b: seq<byte>, width: nat)
    requires width <= |b|
    ensures DecodeWord(b, width) == Ok((FromLittleEndian(b[..width]), b[width..]))
    ensures b == LittleEndian(width, FromLittleEndian(b[..width])) + b[width..]
  {
    LittleEndianCanonical(b[..width]);
  }

  lemma TagConsumed(b: seq<byte>)
    requires b != []
    ensures DecodeWord(b, 1) == Ok((b[0], b[1..])) && b == [b[0]] + b[1..]
  {
    WordConsumed(b, 1);
    assert b[..1] == [b[0]];
    assert FromLittleEndian(b[..1]) == b[0];
  }

  /** A decoded value is well typed and can be encoded; with the strict check
      the bytes consumed are exactly its encoding, so each value has one
      accepted encoding. */
  lemma {:induction false} EncodeDecode(env: Env, strict: bool, ty: Ty, b: seq<byte>)
    requires WellFormed(env) && Decode(env, strict, ty, b).Ok?
    ensures Sound(env, strict, ty, b, Decode(env, strict, ty, b).value.value, Decode(env, strict, ty, b).value.rest)
    decreases |b|, TyRank(env, ty) + 1, ty, 2
  {
    if IsScalar(ty) {
      ScalarConsumed(env, strict, ty, b);
    } else if ty.TOption? || ty.TResult? {
      TaggedConsumed(env, strict, ty, b);
    } else if ty.TString? || ty.TSeq? || IsSorted(ty) {
      CollectionConsumed(env, strict, ty, b);
    } else if ty.TTuple? {
      RowConsumed(env, strict, ty.elems, b);
    } else if ty.TArray? {
      AllConsumed(env, strict, ty.elem, ty.len, b);
    } else {
      NamedConsumed(env, strict, ty, b);
    }
  }

  ghost predicate DecodesSoundly(env: Env, strict: bool, ty: Ty, b: seq<byte>)
    requires WellFormed(env)
  {
    var r := Decode(env, strict, ty, b);
    r.Ok? ==> Sound(env, strict, ty, b, r.value.value, r.value.rest)
  }

  lemma ScalarConsumed(env: Env, strict: bool, ty: Ty, b: seq<byte>)
    requires WellFormed(env) && Decode(env, strict, ty, b).Ok? && IsScalar(ty)
    ensures DecodesSoundly(env, strict, ty, b)
  {
    match ty
    case TInt(signed, width) => IntConsumed(env, strict, signed, width, b);
    case TNonZero(signed, width) => NonZeroConsumed(env, strict, signed, width, b);
    case TFloat(width) => WordConsumed(b, width);
    case TBool => TagConsumed(b);
    case TUnit => assert [] + b == b;
  }

  lemma IntConsumed(env: Env, strict: bool, signed: bool, width: IntWidth, b: seq<byte>)
    requires WellFormed(env) && Decode(env, strict, TInt(signed, width), b).Ok?
    ensures DecodesSoundly(env, strict, TInt(signed, width), b)
  {
    var word := FromLittleEndian(b[..width]);
    WordConsumed(b, width);
    WordCanonical(signed, width, word);
    var v := VInt(FromWord(signed, width, word));
    IntegerRead(env, strict, signed, width, b, word, b[width..]);
    assert Encode(env, TInt(signed, width), v) == Ok(LittleEndian(width, word));
  }

  lemma NonZeroConsumed(env: Env, strict: bool, signed: bool, width: IntWidth, b: seq<byte>)
    requires WellFormed(env) && Decode(env, strict, TNonZero(signed, width), b).Ok?
    ensures DecodesSoundly(env, strict, TNonZero(signed, width), b)
  {
    var word := FromLittleEndian(b[..width]);
    WordConsumed(b, width);
    WordCanonical(signed, width, word);
    var v := VInt(FromWord(signed, width, word));
    IntegerRead(env, strict, signed, width, b, word, b[width..]);
    assert Encode(env, TNonZero(signed, width), v) == Ok(LittleEndian(width, word));
  }

  lemma {:induction false} TaggedConsumed(env: Env, strict: bool, ty: Ty, b: seq<byte>)
    requires WellFormed(env) && Decode(env, strict, ty, b).Ok? && (ty.TOption? || ty.TResult?)
    ensures DecodesSoundly(env, strict, ty, b)
    decreases |b|, 1, ty, 1
  {
    TagConsumed(b);
    if ty.TResult? {
      BodyConsumed(env, strict, if b[0] == 0 then ty.err else ty.ok, b);
    } else if b[0] == 1 {
      BodyConsumed(env, strict, ty.some, b);
    }
  }

  lemma {:induction false} BodyConsumed(env: Env, strict: bool, ty: Ty, b: seq<byte>)
    requires WellFormed(env) && b != [] && Decode(env, strict, ty, b[1..]).Ok?
    ensures var p := Decode(env, strict, ty, b[1..]).value;
            && Sound(env, strict, ty, b[1..], p.value, p.rest)
            && (strict ==> b == [b[0]] + Encode(env, ty, p.value).value + p.rest)
    decreases |b|, 0, ty, 0
  {
    EncodeDecode(env, strict, ty, b[1..]);
    var p := Decode(env, strict, ty, b[1..]).value;
    if strict {
      var e := Encode(env, ty, p.value).value;
      Regroup([b[0]], e, p.rest);
      assert b == [b[0]] + b[1..];
    }
  }

  lemma {:induction false} CollectionConsumed(env: Env, strict: bool, ty: Ty, b: seq<byte>)
    requires WellFormed(env) && Decode(env, strict, ty, b).Ok?
    requires ty.TString? || ty.TSeq? || IsSorted(ty)
    ensures DecodesSoundly(env, strict, ty, b)
    decreases |b|, 1, ty, 1
  {
    match ty
    case TString => ItemsConsumed(env, strict, U8, b);
    case TSeq(_, item) => ItemsConsumed(env, strict, item, b);
    case TSet(_, member) =>
      ItemsConsumed(env, strict, member, b);
      SortedConsumed(env, strict, ty, member, b);
    case TMap(_, key, val) =>
      ItemsConsumed(env, strict, TTuple([key, val]), b);
      SortedConsumed(env, strict, ty, TTuple([key, val]), b);
  }

  lemma {:induction false} NamedConsumed(env: Env, strict: bool, ty: Ty, b: seq<byte>)
    requires WellFormed(env) && Decode(env, strict, ty, b).Ok? && ty.TNamed?
    ensures DecodesSoundly(env, strict, ty, b)
    decreases |b|, TyRank(env, ty) + 1, ty, 1
  {
    assert WellFormedDef(env, ty.name);
    if env.defs[ty.name].StructDef? {
      RowConsumed(env, strict, FieldTys(env.defs[ty.name].fields), b);
    } else {
      TagConsumed(b);
      var variants := env.defs[ty.name].variants;
      BodyConsumed(env, strict, TNamed(variants[FindTag(variants, b[0])].payload), b);
    }
  }

  /** Collecting keeps items typed and encodable, and changes nothing when the
      strict check has passed. */
  lemma SortedConsumed(env: Env, strict: bool, ty: Ty, item: Ty, b: seq<byte>)
    requires WellFormed(env) && IsSorted(ty)
    requires item == if ty.TSet? then ty.member else TTuple([ty.key, ty.val])
    requires DecodeItems(env, strict, item, b).Ok?
    requires ItemsSound(env, strict, item, b, DecodeItems(env, strict, item, b).value)
    requires ty.TMap? ==> !env.zst(ty.key)
    ensures var r := DecodeSorted(env, strict, ty, DecodeItems(env, strict, item, b).value);
            r.Ok? ==> Sound(env, strict, ty, b, r.value.value, r.value.rest)
  {
    var p := DecodeItems(env, strict, item, b).value;
    var kept := Collect(env, ty, p.values);
    CollectKeepsOrder(env, ty, p.values);
    if strict && Ascending(env, ty, p.values) {
      CollectAscending(env, ty, p.values);
    }
    forall i | 0 <= i < |kept| ensures HasType(env, item, kept[i]) && Encode(env, item, kept[i]).Ok? {
      assert kept[i] in kept;
      var j :| 0 <= j < |p.values| && p.values[j] == kept[i];
      EncodedMember(env, item, p.values, j);
    }
    EncodableAll(env, item, kept);
  }

  lemma {:induction false} EncodedMember(env: Env, ty: Ty, items: seq<Val>, j: nat)
    requires AllHaveType(env, ty, items) && EncodeAll(env, ty, items).Ok? && j < |items|
    ensures Encode(env, ty, items[j]).Ok?
    decreases |items|
  {
    if j > 0 {
      EncodedMember(env, ty, items[1..], j - 1);
    }
  }

  lemma {:induction false} EncodableAll(env: Env, ty: Ty, items: seq<Val>)
    requires AllHaveType(env, ty, items)
    ensures EncodeAll(env, ty, items).Ok? <==> forall i | 0 <= i < |items| :: Encode(env, ty, items[i]).Ok?
    decreases |items|
  {
    if items != [] {
      EncodableAll(env, ty, items[1..]);
      assert forall i | 0 < i < |items| :: items[i] == items[1..][i - 1];
    }
  }

  lemma {:induction false} ItemsConsumed(env: Env, strict: bool, ty: Ty, b: seq<byte>)
    requires WellFormed(env) && DecodeItems(env, strict, ty, b).Ok?
    ensures ItemsSound(env, strict, ty, b, DecodeItems(env, strict, ty, b).value)
    ensures !env.zst(ty)
    decreases |b|, 0, ty, 0
  {
    Pow256Values();
    WordConsumed(b, 4);
    var count := FromLittleEndian(b[..4]);
    AllConsumed(env, strict, ty, count, b[4..]);
    var p := DecodeItems(env, strict, ty, b).value;
    if strict {
      var body := EncodeAll(env, ty, p.values).value;
      Regroup(LittleEndian(4, count), body, p.rest);
    }
  }

  lemma AllConsumedStep(env: Env, strict: bool, ty: Ty, b: seq<byte>, first: Parsed, tail: ParsedRow)
    requires WellFormed(env)
    requires Sound(env, strict, ty, b, first.value, first.rest)
    requires AllSound(env, strict, ty, first.rest, tail)
    ensures AllSound(env, strict, ty, b, ParsedRow([first.value] + tail.values, tail.rest))
  {
    var values := [first.value] + tail.values;
    assert values[1..] == tail.values;
    if strict {
      var e, f := Encode(env, ty, first.value).value, EncodeAll(env, ty, tail.values).value;
      Regroup(e, f, tail.rest);
    }
  }

  lemma {:induction false} AllConsumed(env: Env, strict: bool, ty: Ty, count: nat, b: seq<byte>)
    requires WellFormed(env) && DecodeAll(env, strict, ty, count, b).Ok?
    ensures |DecodeAll(env, strict, ty, count, b).value.values| == count
    ensures AllSound(env, strict, ty, b, DecodeAll(env, strict, ty, count, b).value)
    decreases |b|, TyRank(env, ty) + 1, ty, count + 3
  {
    if count > 0 {
      var first := Decode(env, strict, ty, b).value;
      EncodeDecode(env, strict, ty, b);
      AllConsumed(env, strict, ty, count - 1, first.rest);
      AllConsumedStep(env, strict, ty, b, first, DecodeAll(env, strict, ty, count - 1, first.rest).value);
    }
  }

  lemma {:induction false} RowConsumed(env: Env, strict: bool, tys: seq<Ty>, b: seq<byte>)
    requires WellFormed(env) && DecodeRow(env, strict, tys, b).Ok?
    ensures RowSound(env, strict, tys, b, DecodeRow(env, strict, tys, b).value)
    decreases |b|, RowRank(env, tys) + 1, tys, 0
  {
    if tys != [] {
      var first := Decode(env, strict, tys[0], b).value;
      EncodeDecode(env, strict, tys[0], b);
      RowConsumed(env, strict, tys[1..], first.rest);
      var tail := DecodeRow(env, strict, tys[1..], first.rest).value;
      var values := [first.value] + tail.values;
      assert values[1..] == tail.values;
      if strict {
        var e, f := Encode(env, tys[0], first.value).value, EncodeRow(env, tys[1..], tail.values).value;
        Regroup(e, f, tail.rest);
      }
    }
  }

  // ---- Consequences ----

  /** Strict success is lenient success with the same value and rest. */
  lemma StrictIsLenient(env: Env, ty: Ty, b: seq<byte>)
    requires WellFormed(env) && Decode(env, true, ty, b).Ok?
    ensures Decode(env, false, ty, b) == Decode(env, true, ty, b)
  {
    EncodeDecode(env, true, ty, b);
    var p := Decode(env, true, ty, b).value;
    DecodeEncode(env, false, ty, p.value, p.rest);
  }

  /** Re-encoding anything the lenient decoder accepts gives bytes the strict
      decoder accepts, with the same value. */
  lemma LenientReencodes(env: Env, ty: Ty, b: seq<byte>)
    requires WellFormed(env) && Decode(env, false, ty, b).Ok?
    ensures var v := Decode(env, false, ty, b).value.value;
            && HasType(env, ty, v) && Encode(env, ty, v).Ok?
            && FromSlice(env, true, ty, Encode(env, ty, v).value) == Ok(v)
  {
    EncodeDecode(env, false, ty, b);
    FromSliceOfEncode(env, true, ty, Decode(env, false, ty, b).value.value);
  }

  lemma StrictAcceptsOnlyEncodings(env: Env, ty: Ty, b: seq<byte>)
    requires WellFormed(env) && FromSlice(env, true, ty, b).Ok?
    ensures var v := FromSlice(env, true, ty, b).value;
            HasType(env, ty, v) && Encode(env, ty, v) == Ok(b)
  {
    EncodeDecode(env, true, ty, b);
    var e := Encode(env, ty, FromSlice(env, true, ty, b).value).value;
    assert e + [] == e;
  }

  /** With the strict check a byte string is accepted as a value exactly when it
      is that value's encoding. */
  lemma StrictAcceptsExactlyEncodings(env: Env, ty: Ty, b: seq<byte>, v: Val)
    requires WellFormed(env)
    ensures FromSlice(env, true, ty, b) == Ok(v) <==> HasType(env, ty, v) && Encode(env, ty, v) == Ok(b)
  {
    if FromSlice(env, true, ty, b) == Ok(v) {
      StrictAcceptsOnlyEncodings(env, ty, b);
    } else if HasType(env, ty, v) && Encode(env, ty, v) == Ok(b) {
      FromSliceOfEncode(env, true, ty, v);
    }
  }
}
