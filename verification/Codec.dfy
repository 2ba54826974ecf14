/** The encoding and decoding of every type in the universe, as functions on bytes. */
module Codec {
  import opened Bytes
  import opened Wrappers
  import opened Types

  datatype CodecError =
    | UnexpectedLength            // the input ends early
    | NotAllBytesRead             // the input goes on after the value
    | LengthTooLarge              // more items than a 32-bit length can hold
    | ZeroValue                   // zero where a non-zero integer is expected
    | NaN
    | InfiniteNumber              // not a JSON number
    | InvalidBool(byte)
    | InvalidOption(byte)
    | InvalidResult(byte)
    | InvalidUtf8
    | WrongOrder                  // keys not strictly ascending
    | ZeroSizedItems              // collections of types that occupy no memory
    | UnexpectedTag(byte)
    | UnknownType                 // a name the environment does not define
    | SchemaMismatch              // the schema in front of a value is not the expected one
    | Io(kind: IoError)           // anything else the reader or writer reports

  datatype IoError = UnexpectedEof | WriteZero | Interrupted | Failed

  type Encoded = Result<seq<byte>, CodecError>

  // ---- Encoding ----

  function Encode(env: Env, ty: Ty, v: Val): Encoded
    requires HasType(env, ty, v)
    decreases v
  {
    match ty
    case TInt(_, width) => Ok(LittleEndian(width, ToWord(width, v.i)))
    case TNonZero(_, width) => Ok(LittleEndian(width, ToWord(width, v.i)))
    case TFloat(width) => if IsNaN(width, v.i) then Err(NaN) else Ok(LittleEndian(width, v.i))
    case TBool => Ok([if v.b then 1 else 0])
    case TUnit => Ok([])
    case TString => EncodeItems(env, U8, v.items)
    case TOption(some) =>
      if v.VNone? then Ok([0])
      else
        var body :- Encode(env, some, v.v);
        Ok([1] + body)
    case TResult(ok, err) =>
      if v.VErr? then
        var body :- Encode(env, err, v.v);
        Ok([0] + body)
      else
        var body :- Encode(env, ok, v.v);
        Ok([1] + body)
    case TTuple(elems) => EncodeRow(env, elems, v.items)
    case TArray(elem, _) => EncodeAll(env, elem, v.items)
    case TSeq(_, item) => if env.zst(item) then Err(ZeroSizedItems) else EncodeItems(env, item, v.items)
    case TSet(_, member) => if env.zst(member) then Err(ZeroSizedItems) else EncodeItems(env, member, v.items)
    case TMap(_, key, val) => if env.zst(key) then Err(ZeroSizedItems) else EncodeItems(env, TTuple([key, val]), v.items)
    case TNamed(name) =>
      match env.defs[name]
      case StructDef(_, fields) => EncodeRow(env, FieldTys(fields), v.items)
      case EnumDef(variants) =>
        var body :- Encode(env, TNamed(variants[v.variant].payload), v.payload);
        Ok([variants[v.variant].tag] + body)
  }

  /** A 32-bit count and then the items. */
  function EncodeItems(env: Env, ty: Ty, items: seq<Val>): Encoded
    requires AllHaveType(env, ty, items)
    decreases items, 1
  {
    if |items| > U32_MAX then Err(LengthTooLarge)
    else
      var body :- EncodeAll(env, ty, items);
      Ok(LittleEndian(4, |items|) + body)
  }

  function EncodeAll(env: Env, ty: Ty, items: seq<Val>): Encoded
    requires AllHaveType(env, ty, items)
    decreases items, 0
  {
    if items == [] then Ok([])
    else
      var first :- Encode(env, ty, items[0]);
      var rest :- EncodeAll(env, ty, items[1..]);
      Ok(first + rest)
  }

  function EncodeRow(env: Env, tys: seq<Ty>, items: seq<Val>): Encoded
    requires RowHasTypes(env, tys, items)
    decreases items, 0
  {
    if items == [] then Ok([])
    else
      var first :- Encode(env, tys[0], items[0]);
      var rest :- EncodeRow(env, tys[1..], items[1..]);
      Ok(first + rest)
  }

  // ---- Decoding ----

  datatype Parsed = Parsed(value: Val, rest: seq<byte>)
  datatype ParsedRow = ParsedRow(values: seq<Val>, rest: seq<byte>)

  /** Reading exactly `n` bytes. */
  function Take(b: seq<byte>, n: nat): Result<(seq<byte>, seq<byte>), CodecError> {
    if n <= |b| then Ok((b[..n], b[n..])) else Err(UnexpectedLength)
  }

  function DecodeWord(b: seq<byte>, width: nat): (r: Result<(nat, seq<byte>), CodecError>)
    ensures r.Ok? ==> r.value.0 < Pow256(width) && |r.value.1| == |b| - width
  {
    var (word, rest) :- Take(b, width);
    Ok((FromLittleEndian(word), rest))
  }

  /** The position of the first variant with this tag, or one past the end. */
  function FindTag(variants: seq<Variant>, tag: byte): (i: nat)
    ensures i <= |variants|
    ensures i < |variants| ==> variants[i].tag == tag
    ensures forall j | 0 <= j < i :: variants[j].tag != tag
  {
    if variants == [] || variants[0].tag == tag then 0 else 1 + FindTag(variants[1..], tag)
  }

  /** One value from the front of `b`; `strict` demands that the keys of ordered
      and hashed collections arrive in strictly ascending order. */
  function Decode(env: Env, strict: bool, ty: Ty, b: seq<byte>): (r: Result<Parsed, CodecError>)
    requires WellFormed(env)
    ensures r.Ok? ==> |r.value.rest| <= |b|
    decreases |b|, TyRank(env, ty) + 1, ty, 0
  {
    match ty
    case TInt(signed, width) =>
      var (word, rest) :- DecodeWord(b, width);
      Ok(Parsed(VInt(FromWord(signed, width, word)), rest))
    case TNonZero(signed, width) =>
      var (word, rest) :- DecodeWord(b, width);
      var i := FromWord(signed, width, word);
      if i == 0 then Err(ZeroValue) else Ok(Parsed(VInt(i), rest))
    case TFloat(width) =>
      var (bits, rest) :- DecodeWord(b, width);
      if IsNaN(width, bits) then Err(NaN) else Ok(Parsed(VInt(bits), rest))
    case TBool =>
      var (flag, rest) :- DecodeWord(b, 1);
      if flag == 0 then Ok(Parsed(VBool(false), rest))
      else if flag == 1 then Ok(Parsed(VBool(true), rest))
      else OneByte(); Err(InvalidBool(flag))
    case TUnit => Ok(Parsed(VTuple([]), b))
    case TString =>
      var p :- DecodeItems(env, strict, U8, b);
      if env.utf8(BytesOf(p.values)) then Ok(Parsed(VSeq(p.values), p.rest)) else Err(InvalidUtf8)
    case TOption(some) =>
      var (flag, rest) :- DecodeWord(b, 1);
      if flag == 0 then Ok(Parsed(VNone, rest))
      else if flag == 1 then
        var p :- Decode(env, strict, some, rest);
        Ok(Parsed(VSome(p.value), p.rest))
      else OneByte(); Err(InvalidOption(flag))
    case TResult(ok, err) =>
      var (flag, rest) :- DecodeWord(b, 1);
      if flag == 0 then
        var p :- Decode(env, strict, err, rest);
        Ok(Parsed(VErr(p.value), p.rest))
      else if flag == 1 then
        var p :- Decode(env, strict, ok, rest);
        Ok(Parsed(VOk(p.value), p.rest))
      else OneByte(); Err(InvalidResult(flag))
    case TTuple(elems) =>
      var p :- DecodeRow(env, strict, elems, b);
      Ok(Parsed(VTuple(p.values), p.rest))
    case TArray(elem, len) =>
      var p :- DecodeAll(env, strict, elem, len, b);
      Ok(Parsed(VSeq(p.values), p.rest))
    case TSeq(_, item) =>
      var p :- DecodeItems(env, strict, item, b);
      Ok(Parsed(VSeq(p.values), p.rest))
    case TSet(_, member) =>
      var p :- DecodeItems(env, strict, member, b);
      DecodeSorted(env, strict, ty, p)
    case TMap(_, key, val) =>
      if env.zst(key) then Err(ZeroSizedItems)
      else
        var p :- DecodeItems(env, strict, TTuple([key, val]), b);
        DecodeSorted(env, strict, ty, p)
    case TNamed(name) =>
      if name !in env.defs then Err(UnknownType)
      else
        match env.defs[name]
        case StructDef(_, fields) =>
          assert WellFormedDef(env, name);
          var p :- DecodeRow(env, strict, FieldTys(fields), b);
          Ok(Parsed(VTuple(p.values), p.rest))
        case EnumDef(variants) =>
          var (tag, rest) :- DecodeWord(b, 1);
          OneByte();
          var i := FindTag(variants, tag);
          if i == |variants| then Err(UnexpectedTag(tag))
          else
            var p :- Decode(env, strict, TNamed(variants[i].payload), rest);
            Ok(Parsed(VEnum(i, p.value), p.rest))
  }

  /** The order check, when asked for, and then the collection itself. */
  function DecodeSorted(env: Env, strict: bool, ty: Ty, p: ParsedRow): (r: Result<Parsed, CodecError>)
    ensures r.Ok? ==> r.value.rest == p.rest
  {
    if strict && !Ascending(env, ty, p.values) then Err(WrongOrder)
    else Ok(Parsed(VSeq(Collect(env, ty, p.values)), p.rest))
  }

  /** A 32-bit count and then that many items. */
  function DecodeItems(env: Env, strict: bool, ty: Ty, b: seq<byte>): (r: Result<ParsedRow, CodecError>)
    requires WellFormed(env)
    ensures r.Ok? ==> |r.value.rest| <= |b|
    decreases |b|, 0, ty, 0
  {
    if env.zst(ty) then Err(ZeroSizedItems)
    else
      var (count, rest) :- DecodeWord(b, 4);
      DecodeAll(env, strict, ty, count, rest)
  }

  function DecodeAll(env: Env, strict: bool, ty: Ty, count: nat, b: seq<byte>): (r: Result<ParsedRow, CodecError>)
    requires WellFormed(env)
    ensures r.Ok? ==> |r.value.rest| <= |b|
    decreases |b|, TyRank(env, ty) + 1, ty, count + 1
  {
    if count == 0 then Ok(ParsedRow([], b))
    else
      var first :- Decode(env, strict, ty, b);
      var rest :- DecodeAll(env, strict, ty, count - 1, first.rest);
      Ok(ParsedRow([first.value] + rest.values, rest.rest))
  }

  function DecodeRow(env: Env, strict: bool, tys: seq<Ty>, b: seq<byte>): (r: Result<ParsedRow, CodecError>)
    requires WellFormed(env)
    ensures r.Ok? ==> |r.value.rest| <= |b|
    decreases |b|, RowRank(env, tys) + 1, tys, 0
  {
    if tys == [] then Ok(ParsedRow([], b))
    else
      var first :- Decode(env, strict, tys[0], b);
      var rest :- DecodeRow(env, strict, tys[1..], first.rest);
      Ok(ParsedRow([first.value] + rest.values, rest.rest))
  }

  /** A whole input, with nothing left over. */
  function FromSlice(env: Env, strict: bool, ty: Ty, b: seq<byte>): Result<Val, CodecError>
    requires WellFormed(env)
  {
    var p :- Decode(env, strict, ty, b);
    if p.rest == [] then Ok(p.value) else Err(NotAllBytesRead)
  }
}
