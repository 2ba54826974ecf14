/** What decoding says about an input that is cut off or goes on. */
module Prefixes {
  import opened Bytes
  import opened Wrappers
  import opened Types
  import opened Codec
  import opened RoundTrip

  /** More input changes nothing but the rest, unless it was what was missing. */
  ghost predicate Stable(short: Result<Parsed, CodecError>, long: Result<Parsed, CodecError>, more: seq<byte>) {
    match short
    case Ok(p) => long == Ok(Parsed(p.value, p.rest + more))
    case Err(e) => e == UnexpectedLength || long == Err(e)
  }

  ghost predicate StableRow(short: Result<ParsedRow, CodecError>, long: Result<ParsedRow, CodecError>, more: seq<byte>) {
    match short
    case Ok(p) => long == Ok(ParsedRow(p.values, p.rest + more))
    case Err(e) => e == UnexpectedLength || long == Err(e)
  }

  lemma WordStable(b: seq<byte>, width: nat, more: seq<byte>)
    ensures match DecodeWord(b, width)
            case Ok((word, rest)) => DecodeWord(b + more, width) == Ok((word, rest + more))
            case Err(e) => e == UnexpectedLength
  {
    if width <= |b| {
      assert (b + more)[..width] == b[..width] && (b + more)[width..] == b[width..] + more;
    }
  }

  /** Decoding never looks past what it consumes, and an error other than a
      premature end does not depend on what follows. */
  lemma {:induction false} DecodeStable(env: Env, strict: bool, ty: Ty, b: seq<byte>, more: seq<byte>)
    requires WellFormed(env)
    ensures Stable(Decode(env, strict, ty, b), Decode(env, strict, ty, b + more), more)
    decreases |b|, TyRank(env, ty) + 1, ty, 2
  {
    if ty.TInt? {
      WordStable(b, ty.intWidth, more);
    } else if ty.TNonZero? {
      WordStable(b, ty.nzWidth, more);
    } else if ty.TFloat? {
      WordStable(b, ty.floatWidth, more);
    } else if ty.TTuple? {
      RowStable(env, strict, ty.elems, b, more);
    } else if ty.TArray? {
      AllStable(env, strict, ty.elem, ty.len, b, more);
    } else if ty.TNamed? {
      NamedStable(env, strict, ty, b, more);
    } else if ty.TBool? || ty.TOption? || ty.TResult? {
      TaggedStable(env, strict, ty, b, more);
    } else if !ty.TUnit? {
      CollectionStable(env, strict, ty, b, more);
    }
  }

  lemma {:induction false} TaggedStable(env: Env, strict: bool, ty: Ty, b: seq<byte>, more: seq<byte>)
    requires WellFormed(env) && (ty.TBool? || ty.TOption? || ty.TResult?)
    ensures Stable(Decode(env, strict, ty, b), Decode(env, strict, ty, b + more), more)
    decreases |b|, 0, ty, 1
  {
    WordStable(b, 1, more);
    if b != [] {
      var (flag, rest) := DecodeWord(b, 1).value;
      if ty.TOption? {
        DecodeStable(env, strict, ty.some, rest, more);
      } else if ty.TResult? {
        DecodeStable(env, strict, if flag == 0 then ty.err else ty.ok, rest, more);
      }
    }
  }

  lemma {:induction false} CollectionStable(env: Env, strict: bool, ty: Ty, b: seq<byte>, more: seq<byte>)
    requires WellFormed(env) && (ty.TString? || ty.TSeq? || IsSorted(ty))
    ensures Stable(Decode(env, strict, ty, b), Decode(env, strict, ty, b + more), more)
    decreases |b|, 1, ty, 1
  {
    match ty
    case TString => ItemsStable(env, strict, U8, b, more);
    case TSeq(_, item) => ItemsStable(env, strict, item, b, more);
    case TSet(_, member) => ItemsStable(env, strict, member, b, more);
    case TMap(_, key, val) => ItemsStable(env, strict, TTuple([key, val]), b, more);
  }

  lemma {:induction false} NamedStable(env: Env, strict: bool, ty: Ty, b: seq<byte>, more: seq<byte>)
    requires WellFormed(env) && ty.TNamed?
    ensures Stable(Decode(env, strict, ty, b), Decode(env, strict, ty, b + more), more)
    decreases |b|, TyRank(env, ty) + 1, ty, 1
  {
    if ty.name in env.defs {
      assert WellFormedDef(env, ty.name);
      if env.defs[ty.name].StructDef? {
        RowStable(env, strict, FieldTys(env.defs[ty.name].fields), b, more);
      } else {
        WordStable(b, 1, more);
        Pow256Values();
        if b != [] {
          var (tag, rest) := DecodeWord(b, 1).value;
          var variants := env.defs[ty.name].variants;
          var i := FindTag(variants, tag);
          if i < |variants| {
            DecodeStable(env, strict, TNamed(variants[i].payload), rest, more);
          }
        }
      }
    }
  }

  lemma {:induction false} ItemsStable(env: Env, strict: bool, ty: Ty, b: seq<byte>, more: seq<byte>)
    requires WellFormed(env)
    ensures StableRow(DecodeItems(env, strict, ty, b), DecodeItems(env, strict, ty, b + more), more)
    decreases |b|, 0, ty, 0
  {
    WordStable(b, 4, more);
    if |b| >= 4 {
      var (count, rest) := DecodeWord(b, 4).value;
      AllStable(env, strict, ty, count, rest, more);
    }
  }

  lemma {:induction false} AllStable(env: Env, strict: bool, ty: Ty, count: nat, b: seq<byte>, more: seq<byte>)
    requires WellFormed(env)
    ensures StableRow(DecodeAll(env, strict, ty, count, b), DecodeAll(env, strict, ty, count, b + more), more)
    decreases |b|, TyRank(env, ty) + 1, ty, count + 3
  {
    if count > 0 {
      DecodeStable(env, strict, ty, b, more);
      var first := Decode(env, strict, ty, b);
      if first.Ok? {
        AllStable(env, strict, ty, count - 1, first.value.rest, more);
      }
    }
  }

  lemma {:induction false} RowStable(env: Env, strict: bool, tys: seq<Ty>, b: seq<byte>, more: seq<byte>)
    requires WellFormed(env)
    ensures StableRow(DecodeRow(env, strict, tys, b), DecodeRow(env, strict, tys, b + more), more)
    decreases |b|, RowRank(env, tys) + 1, tys, 0
  {
    if tys != [] {
      DecodeStable(env, strict, tys[0], b, more);
      var first := Decode(env, strict, tys[0], b);
      if first.Ok? {
        RowStable(env, strict, tys[1..], first.value.rest, more);
      }
    }
  }

  /** Every proper prefix of an encoding is refused as too short. */
  lemma CutShort(env: Env, strict: bool, ty: Ty, v: Val, b: seq<byte>)
    requires WellFormed(env) && HasType(env, ty, v) && Encode(env, ty, v).Ok?
    requires b < Encode(env, ty, v).value
    ensures FromSlice(env, strict, ty, b) == Err(UnexpectedLength)
  {
    var e := Encode(env, ty, v).value;
    var more := e[|b|..];
    assert b + more == e && e + [] == e;
    DecodeStable(env, strict, ty, b, more);
    DecodeEncode(env, strict, ty, v, []);
  }

  /** An encoding with anything after it is refused as too long. */
  lemma Continued(env: Env, strict: bool, ty: Ty, v: Val, more: seq<byte>)
    requires WellFormed(env) && HasType(env, ty, v) && Encode(env, ty, v).Ok? && more != []
    ensures FromSlice(env, strict, ty, Encode(env, ty, v).value + more) == Err(NotAllBytesRead)
  {
    DecodeEncode(env, strict, ty, v, more);
  }
}
