/** Values written behind the schema of their type. */
module SchemaPrefix {
  import opened Bytes
  import opened Wrappers
  import opened Types
  import opened Schema
  import opened Codec
  import opened RoundTrip
  import opened ContainerCodec
  import opened Generate
  import N = Names

  /** What writing and reading schemas takes from the environment. */
  ghost predicate Ready(env: Env) {
    WellFormed(env) && HasSchemaTypes(env)
  }

  /** The container's bytes and then the value's. */
  ghost function ToVecWithSchema(env: Env, s: Container, ty: Ty, v: Val): Encoded
    requires Ready(env) && HasType(env, ty, v)
  {
    ContainerTyped(env, s);
    var prefix :- Encode(env, CONTAINER, ContainerVal(env, s));
    var body :- Encode(env, ty, v);
    Ok(prefix + body)
  }

  /** Decodes the pair and compares its schema with the one expected for the type. */
  ghost function FromSliceWithSchema(env: Env, strict: bool, expected: Container, ty: Ty, b: seq<byte>): Result<Val, CodecError>
    requires Ready(env)
  {
    var pair :- FromSlice(env, strict, TTuple([CONTAINER, ty]), b);
    if !pair.VTuple? || |pair.items| != 2 || pair.items[0] != ContainerVal(env, expected) then Err(SchemaMismatch)
    else Ok(pair.items[1])
  }

  lemma DecodePair(env: Env, strict: bool, a: Ty, b: Ty, input: seq<byte>, v: Val, rest: seq<byte>)
    requires WellFormed(env) && Decode(env, strict, a, input) == Ok(Parsed(v, rest))
    ensures Decode(env, strict, TTuple([a, b]), input) ==
            match Decode(env, strict, b, rest)
            case Ok(p) => Ok(Parsed(VTuple([v, p.value]), p.rest))
            case Err(e) => Err(e)
  {
    var tys := [a, b];
    assert tys[1..] == [b];
    DecodeLast(env, strict, b, rest);
    var one := Decode(env, strict, b, rest);
    assert one.Ok? ==> [v] + [one.value.value] == [v, one.value.value];
    assert DecodeRow(env, strict, tys, input) ==
           if one.Ok? then Ok(ParsedRow([v] + [one.value.value], one.value.rest)) else Err(one.error);
  }

  lemma DecodeLast(env: Env, strict: bool, b: Ty, rest: seq<byte>)
    requires WellFormed(env)
    ensures DecodeRow(env, strict, [b], rest) ==
            match Decode(env, strict, b, rest)
            case Ok(p) => Ok(ParsedRow([p.value], p.rest))
            case Err(e) => Err(e)
  {
    var one := Decode(env, strict, b, rest);
    assert [b][1..] == [];
    if one.Ok? {
      assert DecodeRow(env, strict, [], one.value.rest) == Ok(ParsedRow([], one.value.rest));
      assert [one.value.value] + [] == [one.value.value];
    }
  }

  lemma PairFromSlice(env: Env, strict: bool, a: Ty, b: Ty, input: seq<byte>, v: Val, rest: seq<byte>)
    requires WellFormed(env) && Decode(env, strict, a, input) == Ok(Parsed(v, rest))
    ensures FromSlice(env, strict, TTuple([a, b]), input) ==
            match FromSlice(env, strict, b, rest)
            case Ok(w) => Ok(VTuple([v, w]))
            case Err(e) => Err(e)
  {
    DecodePair(env, strict, a, b, input, v, rest);
  }

  lemma EncodePair(env: Env, a: Ty, b: Ty, v: Val, w: Val)
    requires HasType(env, a, v) && HasType(env, b, w)
    ensures HasType(env, TTuple([a, b]), VTuple([v, w]))
    ensures Encode(env, TTuple([a, b]), VTuple([v, w])) ==
            var first, second := Encode(env, a, v), Encode(env, b, w);
            if first.Err? then first else if second.Err? then second else Ok(first.value + second.value)
  {
    var tys, items := [a, b], [v, w];
    assert tys[1..] == [b] && items[1..] == [w] && [b][1..] == [] && [w][1..] == [];
    assert RowHasTypes(env, tys, items) && RowHasTypes(env, [b], [w]);
    var last := Encode(env, b, w);
    assert EncodeRow(env, [], []) == Ok([]);
    assert last.Ok? ==> last.value + [] == last.value;
    assert EncodeRow(env, [b], [w]) == last;
  }

  /** Whatever follows a container is decoded as the value, and accepted exactly
      when the container is the expected one. */
  lemma BehindSchema(env: Env, strict: bool, s: Container, expected: Container, ty: Ty, body: seq<byte>)
    requires Ready(env) && HasType(env, CONTAINER, ContainerVal(env, s)) && Encode(env, CONTAINER, ContainerVal(env, s)).Ok?
    ensures FromSliceWithSchema(env, strict, expected, ty, Encode(env, CONTAINER, ContainerVal(env, s)).value + body) ==
            match FromSlice(env, strict, ty, body)
            case Ok(v) => if s == expected then Ok(v) else Err(SchemaMismatch)
            case Err(e) => Err(e)
  {
    var c := ContainerVal(env, s);
    var input := Encode(env, CONTAINER, c).value + body;
    DecodeEncode(env, strict, CONTAINER, c, body);
    PairFromSlice(env, strict, CONTAINER, ty, input, c, body);
    SameContainer(env, s, expected);
    ComparePair(env, strict, expected, ty, input, c, FromSlice(env, strict, ty, body));
  }

  lemma ComparePair(env: Env, strict: bool, expected: Container, ty: Ty, input: seq<byte>, c: Val, read: Result<Val, CodecError>)
    requires Ready(env)
    requires FromSlice(env, strict, TTuple([CONTAINER, ty]), input) ==
             match read
             case Ok(v) => Ok(VTuple([c, v]))
             case Err(e) => Err(e)
    ensures FromSliceWithSchema(env, strict, expected, ty, input) ==
            match read
            case Ok(v) => if c == ContainerVal(env, expected) then Ok(v) else Err(SchemaMismatch)
            case Err(e) => Err(e)
  {
  }

  lemma SameContainer(env: Env, s: Container, t: Container)
    requires StrictTotalOrder(env.less)
    ensures ContainerVal(env, s) == ContainerVal(env, t) <==> s == t
  {
    if ContainerVal(env, s) == ContainerVal(env, t) {
      ContainerInjective(env, s, t);
    }
  }

  // ---- The schemas that are generated for types ----

  /** A value written behind its type's generated schema is read back, for every
      type of a coherent universe and every value of it that can be written. */
  lemma OwnSchemaRoundTrip(env: Env, strict: bool, all: set<Ty>, ty: Ty, v: Val)
    requires Ready(env) && Universe(env, all) && Coherent(env, all) && ty in all && HasType(env, ty, v)
    ensures ForType(env, all, ty).Ok?
    ensures var s := ForType(env, all, ty).value;
            ToVecWithSchema(env, s, ty, v).Ok? ==>
              FromSliceWithSchema(env, strict, s, ty, ToVecWithSchema(env, s, ty, v).value) == Ok(v)
  {
    GenerationSucceeds(env, all, ty);
    var s := ForType(env, all, ty).value;
    if ToVecWithSchema(env, s, ty, v).Ok? {
      ContainerTyped(env, s);
      FromSliceOfEncode(env, strict, ty, v);
      BehindSchema(env, strict, s, s, ty, Encode(env, ty, v).value);
    }
  }

  /** It can be written exactly when the value can and the schema's strings and
      lists fit 32-bit lengths. */
  lemma PrefixedWrites(env: Env, s: Container, ty: Ty, v: Val)
    requires Ready(env) && HasType(env, ty, v)
    ensures ToVecWithSchema(env, s, ty, v).Ok? <==> Encode(env, ty, v).Ok? && CompactContainer(s)
  {
    ContainerTyped(env, s);
    ContainerWrites(env, s);
  }

  /** Bytes written behind the schema of one type and read as another: when they
      decode as the other type they are refused exactly if the schemas differ,
      and otherwise the error is that of the value. */
  lemma OtherSchema(env: Env, strict: bool, ty: Ty, v: Val, s: Container, other: Ty, t: Container)
    requires Ready(env) && HasType(env, ty, v)
    ensures ToVecWithSchema(env, s, ty, v).Ok? ==>
              var read := FromSlice(env, strict, other, Encode(env, ty, v).value);
              var r := FromSliceWithSchema(env, strict, t, other, ToVecWithSchema(env, s, ty, v).value);
              && (read.Ok? ==> (r == Err(SchemaMismatch) <==> s != t))
              && (read.Ok? && s == t ==> r == read)
              && (read.Err? ==> r == read)
  {
    ContainerTyped(env, s);
    if ToVecWithSchema(env, s, ty, v).Ok? {
      BehindSchema(env, strict, s, t, other, Encode(env, ty, v).value);
    }
  }

  /** Different plain types have different generated schemas, so bytes of one are
      never taken for a value of the other, whatever the two share on the wire. */
  lemma OtherPlainTypeRefused(env: Env, strict: bool, all: set<Ty>, names: set<string>, ty: Ty, v: Val, other: Ty)
    requires Ready(env) && Universe(env, all) && N.PlainNames(names) && forall t | t in all :: N.PlainTy(names, t)
    requires ty in all && other in all && ty != other && HasType(env, ty, v)
    ensures Coherent(env, all) && ForType(env, all, ty).Ok? && ForType(env, all, other).Ok?
    ensures var s, t := ForType(env, all, ty).value, ForType(env, all, other).value;
            ToVecWithSchema(env, s, ty, v).Ok? ==>
              FromSliceWithSchema(env, strict, t, other, ToVecWithSchema(env, s, ty, v).value).Err?
  {
    N.PlainIsCoherent(env, all, names);
    GenerationSucceeds(env, all, ty);
    GenerationSucceeds(env, all, other);
    var s, t := ForType(env, all, ty).value, ForType(env, all, other).value;
    if s == t {
      N.DeclInjective(names, ty, other);
    }
    OtherSchema(env, strict, ty, v, s, other, t);
  }

  // ---- Canonical form ----

  /** The prefixed form is the encoding of the pair of schema and value. */
  lemma PrefixedIsPair(env: Env, s: Container, ty: Ty, v: Val)
    requires Ready(env) && HasType(env, ty, v)
    ensures HasType(env, TTuple([CONTAINER, ty]), VTuple([ContainerVal(env, s), v]))
    ensures Encode(env, TTuple([CONTAINER, ty]), VTuple([ContainerVal(env, s), v])) == ToVecWithSchema(env, s, ty, v)
  {
    ContainerTyped(env, s);
    EncodePair(env, CONTAINER, ty, ContainerVal(env, s), v);
  }

  lemma SecondHasType(env: Env, a: Ty, b: Ty, v: Val, w: Val)
    requires HasType(env, TTuple([a, b]), VTuple([v, w]))
    ensures HasType(env, b, w)
  {
    assert HasType(env, [a, b][1], [v, w][1]);
  }

  /** What the strict decoder accepts behind a schema is the prefixed encoding. */
  lemma AcceptedIsPrefixed(env: Env, s: Container, ty: Ty, b: seq<byte>, v: Val)
    requires Ready(env) && FromSliceWithSchema(env, true, s, ty, b) == Ok(v)
    ensures HasType(env, ty, v) && ToVecWithSchema(env, s, ty, v) == Ok(b)
  {
    var c, pairTy := ContainerVal(env, s), TTuple([CONTAINER, ty]);
    var pair := FromSlice(env, true, pairTy, b).value;
    assert pair.items == [c, v];
    StrictAcceptsExactlyEncodings(env, pairTy, b, VTuple([c, v]));
    SecondHasType(env, CONTAINER, ty, c, v);
    PrefixedIsPair(env, s, ty, v);
  }

  /** With the strict check the accepted bytes are exactly the prefixed encodings. */
  lemma SchemaPrefixCanonical(env: Env, s: Container, ty: Ty, b: seq<byte>, v: Val)
    requires Ready(env)
    ensures FromSliceWithSchema(env, true, s, ty, b) == Ok(v) <==>
            HasType(env, ty, v) && ToVecWithSchema(env, s, ty, v) == Ok(b)
  {
    if FromSliceWithSchema(env, true, s, ty, b) == Ok(v) {
      AcceptedIsPrefixed(env, s, ty, b, v);
    } else if HasType(env, ty, v) && ToVecWithSchema(env, s, ty, v) == Ok(b) {
      PrefixedIsPair(env, s, ty, v);
      StrictAcceptsExactlyEncodings(env, TTuple([CONTAINER, ty]), b, VTuple([ContainerVal(env, s), v]));
    }
  }
}
