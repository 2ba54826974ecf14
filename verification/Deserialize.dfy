/** The decoder as it runs: reading from a stream that may deliver short reads. */
module Deserialize {
  import opened Bytes
  import opened Wrappers
  import opened Types
  import opened Codec
  import opened Reader
  import opened Reads

  /** What a decoding run comes to: what the bytes decode to, and what the stream
      makes of the requests for them. */
  datatype Run<+T> = Run(spec: Result<T, CodecError>, played: Played)

  ghost function RunOf(env: Env, strict: bool, ty: Ty, b: seq<byte>, script: seq<ReadEvent>): Run<Parsed>
    requires WellFormed(env)
  {
    Run(Decode(env, strict, ty, b), Play(Requests(env, strict, ty, b), script))
  }

  ghost function RunOfItems(env: Env, strict: bool, item: Ty, b: seq<byte>, script: seq<ReadEvent>): Run<ParsedRow>
    requires WellFormed(env)
  {
    Run(DecodeItems(env, strict, item, b), Play(ItemRequests(env, strict, item, b), script))
  }

  ghost function RunOfCounted(env: Env, strict: bool, item: Ty, n: nat, b: seq<byte>, script: seq<ReadEvent>): Run<ParsedRow>
    requires WellFormed(env)
  {
    Run(DecodeAll(env, strict, item, n, b), Play(CountedRequests(env, strict, item, n, b), script))
  }

  ghost function RunOfArray(env: Env, strict: bool, elem: Ty, len: usize, b: seq<byte>, script: seq<ReadEvent>): Run<ParsedRow>
    requires WellFormed(env)
  {
    Run(DecodeAll(env, strict, elem, len, b), Play(Requests(env, strict, TArray(elem, len), b), script))
  }

  ghost function RunOfAll(env: Env, strict: bool, item: Ty, n: nat, b: seq<byte>, script: seq<ReadEvent>): Run<ParsedRow>
    requires WellFormed(env)
  {
    Run(DecodeAll(env, strict, item, n, b), Play(AllRequests(env, strict, item, n, b), script))
  }

  ghost function RunOfRow(env: Env, strict: bool, tys: seq<Ty>, b: seq<byte>, script: seq<ReadEvent>): Run<ParsedRow>
    requires WellFormed(env)
  {
    Run(DecodeRow(env, strict, tys, b), Play(RowRequests(env, strict, tys, b), script))
  }

  /** The run ended so: an interruption or a failure is passed on, and otherwise it
      yields the decoded value and leaves its rest, or fails as decoding does. */
  ghost predicate Agrees(run: Run<Parsed>, r: Result<Val, CodecError>, rest: seq<byte>, script: seq<ReadEvent>) {
    match r
    case Ok(v) => run == Run(Ok(Parsed(v, rest)), Played(None, script))
    case Err(e) => EndsIn(run, e)
  }

  ghost predicate AgreesRow(run: Run<ParsedRow>, r: Result<seq<Val>, CodecError>, rest: seq<byte>, script: seq<ReadEvent>) {
    match r
    case Ok(values) => run == Run(Ok(ParsedRow(values, rest)), Played(None, script))
    case Err(e) => EndsIn(run, e)
  }

  ghost predicate EndsIn<T>(run: Run<T>, e: CodecError) {
    if IsDisturbed(run.played) then e == Io(run.played.stop.value) else run.spec == Err(e)
  }

  /** What a row comes to after `done` when the rest of it comes to `run`. */
  ghost function After(done: seq<Val>, run: Run<ParsedRow>): Run<ParsedRow> {
    match run.spec
    case Ok(p) => run.(spec := Ok(ParsedRow(done + p.values, p.rest)))
    case Err(_) => run
  }

  lemma AfterNothing(run: Run<ParsedRow>)
    ensures After([], run) == run
  {
    assert run.spec.Ok? ==> [] + run.spec.value.values == run.spec.value.values;
  }

  lemma AfterEverything(done: seq<Val>, b: seq<byte>, script: seq<ReadEvent>)
    ensures After(done, Run(Ok(ParsedRow([], b)), Played(None, script))) == Run(Ok(ParsedRow(done, b)), Played(None, script))
  {
    assert done + [] == done;
  }

  /** A row whose first value comes to `one` and whose rest comes to `rest`. */
  ghost function Onto(done: seq<Val>, one: Run<Parsed>, rest: Run<ParsedRow>): Run<ParsedRow> {
    match one.spec
    case Ok(p) => if one.played.stop.Some? then After(done + [p.value], Run(rest.spec, one.played)) else After(done + [p.value], rest)
    case Err(e) => Run(Err(e), one.played)
  }

  /** One round of the item loop. */
  lemma AfterOne(env: Env, strict: bool, item: Ty, n: nat, b: seq<byte>, done: seq<Val>, script: seq<ReadEvent>)
    requires WellFormed(env) && n > 0
    ensures var one := RunOf(env, strict, item, b, script);
            var rest := if one.spec.Ok? then one.spec.value.rest else [];
            After(done, RunOfAll(env, strict, item, n, b, script)) ==
            Onto(done, one, RunOfAll(env, strict, item, n - 1, rest, one.played.script))
  {
    var one := Decode(env, strict, item, b);
    PlayInTurn(Requests(env, strict, item, b),
               if one.Ok? then AllRequests(env, strict, item, n - 1, one.value.rest) else [], script);
    if one.Ok? {
      var tail := DecodeAll(env, strict, item, n - 1, one.value.rest);
      assert tail.Ok? ==> done + ([one.value.value] + tail.value.values) == done + [one.value.value] + tail.value.values;
    }
  }

  lemma AfterField(env: Env, strict: bool, tys: seq<Ty>, b: seq<byte>, done: seq<Val>, script: seq<ReadEvent>)
    requires WellFormed(env) && tys != []
    ensures var one := RunOf(env, strict, tys[0], b, script);
            var rest := if one.spec.Ok? then one.spec.value.rest else [];
            After(done, RunOfRow(env, strict, tys, b, script)) ==
            Onto(done, one, RunOfRow(env, strict, tys[1..], rest, one.played.script))
  {
    var one := Decode(env, strict, tys[0], b);
    PlayInTurn(Requests(env, strict, tys[0], b),
               if one.Ok? then RowRequests(env, strict, tys[1..], one.value.rest) else [], script);
    if one.Ok? {
      var tail := DecodeRow(env, strict, tys[1..], one.value.rest);
      assert tail.Ok? ==> done + ([one.value.value] + tail.value.values) == done + [one.value.value] + tail.value.values;
    }
  }

  // ---- The byte fast paths ----

  lemma ByteDecodes(env: Env, strict: bool, b: seq<byte>)
    requires WellFormed(env) && b != []
    ensures Decode(env, strict, U8, b) == Ok(Parsed(VInt(b[0]), b[1..]))
  {
    assert FromLittleEndian(b[..1]) == b[0] by {
      assert b[..1] == [b[0]];
      assert [b[0]][1..] == [];
    }
  }

  /** Decoding bytes one by one is the same as taking them all at once. */
  lemma {:induction false} BulkBytes(env: Env, strict: bool, count: nat, b: seq<byte>)
    requires WellFormed(env)
    ensures DecodeAll(env, strict, U8, count, b) ==
            if count <= |b| then Ok(ParsedRow(Ints(b[..count]), b[count..])) else Err(UnexpectedLength)
  {
    if count > 0 && b != [] {
      ByteDecodes(env, strict, b);
      BulkBytes(env, strict, count - 1, b[1..]);
      if count <= |b| {
        assert [VInt(b[0])] + Ints(b[1..][..count - 1]) == Ints(b[..count]);
        assert b[1..][count - 1..] == b[count..];
      }
    }
  }

  // ---- Fixed-width words ----

  method ReadWord(reader: Stream, width: nat) returns (r: Result<nat, CodecError>)
    requires Progressing(reader.script)
    modifies reader
    ensures Progressing(reader.script)
    ensures var played := Play([Exact(width, |old(reader.data)|)], old(reader.script));
            match r
            case Ok(word) => DecodeWord(old(reader.data), width) == Ok((word, reader.data)) && played == Played(None, reader.script)
            case Err(e) => EndsIn(Run(DecodeWord(old(reader.data), width), played), e) && played.stop.Some?
  {
    PlaySingle(Exact(width, |reader.data|), reader.script);
    var buf := new byte[width];
    var got := reader.ReadExact(buf);
    if got.Err? {
      return Err(EofToLength(got.error));
    }
    return Ok(FromLittleEndian(buf[..]));
  }

  // ---- Values ----

  /** Whatever sizes the reads come in, the result is the decoding of the bytes
      and the stream is left at its rest. */
  method DeserializeReader(env: Env, strict: bool, ty: Ty, reader: Stream) returns (r: Result<Val, CodecError>)
    requires WellFormed(env) && Progressing(reader.script)
    modifies reader
    ensures Progressing(reader.script)
    ensures Agrees(RunOf(env, strict, ty, old(reader.data), old(reader.script)), r, reader.data, reader.script)
    decreases |reader.data|, TyRank(env, ty) + 1, ty, 2
  {
    if ty.TInt? {
      var word :- ReadWord(reader, ty.intWidth);
      return Ok(VInt(FromWord(ty.signed, ty.intWidth, word)));
    } else if ty.TNonZero? {
      var word :- ReadWord(reader, ty.nzWidth);
      var i := FromWord(ty.nzSigned, ty.nzWidth, word);
      return if i == 0 then Err(ZeroValue) else Ok(VInt(i));
    } else if ty.TFloat? {
      var bits :- ReadWord(reader, ty.floatWidth);
      return if IsNaN(ty.floatWidth, bits) then Err(NaN) else Ok(VInt(bits));
    } else if ty.TUnit? {
      return Ok(VTuple([]));
    } else if ty.TTuple? {
      var values :- DeserializeRow(env, strict, ty.elems, reader);
      return Ok(VTuple(values));
    } else if ty.TArray? {
      var values :- DeserializeArray(env, strict, ty.elem, ty.len, reader);
      return Ok(VSeq(values));
    } else if ty.TNamed? {
      r := DeserializeNamed(env, strict, ty.name, reader);
    } else if ty.TBool? || ty.TOption? || ty.TResult? {
      r := DeserializeTagged(env, strict, ty, reader);
    } else {
      r := DeserializeCollection(env, strict, ty, reader);
    }
  }

  /** A tag is the next byte. */
  lemma TagThen(b: seq<byte>)
    ensures DecodeWord(b, 1) == if b == [] then Err(UnexpectedLength) else Ok((b[0] as nat, b[1..]))
  {
    if b != [] {
      assert b[..1] == [b[0]] && [b[0]][1..] == [];
    }
  }

  method DeserializeTagged(env: Env, strict: bool, ty: Ty, reader: Stream) returns (r: Result<Val, CodecError>)
    requires WellFormed(env) && Progressing(reader.script)
    requires ty.TBool? || ty.TOption? || ty.TResult?
    modifies reader
    ensures Progressing(reader.script)
    ensures Agrees(RunOf(env, strict, ty, old(reader.data), old(reader.script)), r, reader.data, reader.script)
    decreases |reader.data|, TyRank(env, ty) + 1, ty, 1
  {
    TagThen(reader.data);
    PlayInTurn([Exact(1, |reader.data|)], PayloadRequests(env, strict, ty, reader.data), reader.script);
    var flag :- ReadWord(reader, 1);
    if ty.TBool? {
      return if flag == 0 then Ok(VBool(false)) else if flag == 1 then Ok(VBool(true)) else Err(InvalidBool(flag));
    } else if ty.TOption? {
      if flag == 0 {
        return Ok(VNone);
      } else if flag == 1 {
        var v :- DeserializeReader(env, strict, ty.some, reader);
        return Ok(VSome(v));
      }
      return Err(InvalidOption(flag));
    } else {
      if flag == 0 {
        var v :- DeserializeReader(env, strict, ty.err, reader);
        return Ok(VErr(v));
      } else if flag == 1 {
        var v :- DeserializeReader(env, strict, ty.ok, reader);
        return Ok(VOk(v));
      }
      return Err(InvalidResult(flag));
    }
  }

  method DeserializeCollection(env: Env, strict: bool, ty: Ty, reader: Stream) returns (r: Result<Val, CodecError>)
    requires WellFormed(env) && Progressing(reader.script)
    requires ty.TString? || ty.TSeq? || IsSorted(ty)
    modifies reader
    ensures Progressing(reader.script)
    ensures Agrees(RunOf(env, strict, ty, old(reader.data), old(reader.script)), r, reader.data, reader.script)
    decreases |reader.data|, TyRank(env, ty) + 1, ty, 1
  {
    if IsSorted(ty) {
      r := DeserializeSorted(env, strict, ty, reader);
      return;
    }
    var values :- DeserializeVec(env, strict, if ty.TString? then U8 else ty.item, reader);
    return if ty.TSeq? || env.utf8(BytesOf(values)) then Ok(VSeq(values)) else Err(InvalidUtf8);
  }

  /** A vector of the members or the entries, and then the collection. */
  method DeserializeSorted(env: Env, strict: bool, ty: Ty, reader: Stream) returns (r: Result<Val, CodecError>)
    requires WellFormed(env) && Progressing(reader.script)
    requires IsSorted(ty)
    modifies reader
    ensures Progressing(reader.script)
    ensures Agrees(RunOf(env, strict, ty, old(reader.data), old(reader.script)), r, reader.data, reader.script)
    decreases |reader.data|, TyRank(env, ty) + 1, ty, 0
  {
    if ty.TMap? && env.zst(ty.key) {
      return Err(ZeroSizedItems);
    }
    var values :- DeserializeVec(env, strict, if ty.TSet? then ty.member else TTuple([ty.key, ty.val]), reader);
    if strict {
      var ordered := CheckOrder(env, ty, values);
      if !ordered {
        return Err(WrongOrder);
      }
    }
    return Ok(VSeq(Collect(env, ty, values)));
  }

  /** The pass over adjacent pairs that strict mode makes before collecting. */
  method CheckOrder(env: Env, ty: Ty, items: seq<Val>) returns (ordered: bool)
    ensures ordered <==> Ascending(env, ty, items)
  {
    var i := 1;
    while i < |items|
      invariant 1 <= i && (i <= |items| || |items| == 0)
      invariant forall j | 0 < j < i && j < |items| :: Precedes(env, ty, items[j - 1], items[j])
    {
      if !Precedes(env, ty, items[i - 1], items[i]) {
        return false;
      }
      i := i + 1;
    }
    return true;
  }

  method DeserializeNamed(env: Env, strict: bool, name: string, reader: Stream) returns (r: Result<Val, CodecError>)
    requires WellFormed(env) && Progressing(reader.script)
    modifies reader
    ensures Progressing(reader.script)
    ensures Agrees(RunOf(env, strict, TNamed(name), old(reader.data), old(reader.script)), r, reader.data, reader.script)
    decreases |reader.data|, TyRank(env, TNamed(name)) + 1, TNamed(name), 1
  {
    if name !in env.defs {
      return Err(UnknownType);
    }
    assert WellFormedDef(env, name);
    match env.defs[name] {
      case StructDef(_, fields) =>
        var values :- DeserializeRow(env, strict, FieldTys(fields), reader);
        return Ok(VTuple(values));
      case EnumDef(_) => r := DeserializeEnum(env, strict, name, reader);
    }
  }

  method DeserializeEnum(env: Env, strict: bool, name: string, reader: Stream) returns (r: Result<Val, CodecError>)
    requires WellFormed(env) && Progressing(reader.script) && name in env.defs && env.defs[name].EnumDef?
    modifies reader
    ensures Progressing(reader.script)
    ensures Agrees(RunOf(env, strict, TNamed(name), old(reader.data), old(reader.script)), r, reader.data, reader.script)
    decreases |reader.data|, TyRank(env, TNamed(name)) + 1, TNamed(name), 0
  {
    TagThen(reader.data);
    RunOfEnum(env, strict, name, reader.data, reader.script);
    var tag :- ReadWord(reader, 1);
    r := DeserializeVariant(env, strict, env.defs[name].variants, tag, reader);
  }

  /** The tag, and then the variant that has it. */
  lemma RunOfEnum(env: Env, strict: bool, name: string, b: seq<byte>, script: seq<ReadEvent>)
    requires WellFormed(env) && name in env.defs && env.defs[name].EnumDef?
    ensures var variants, tag, run := env.defs[name].variants, Play([Exact(1, |b|)], script), RunOf(env, strict, TNamed(name), b, script);
            && (tag.stop.Some? ==> run.played == tag)
            && if b == [] then run.spec == Err(UnexpectedLength)
               else
                 var i := FindTag(variants, b[0]);
                 if i == |variants| then run == Run(Err(UnexpectedTag(b[0])), tag)
                 else
                   tag.stop.None? ==>
                     var one := RunOf(env, strict, TNamed(variants[i].payload), b[1..], tag.script);
                     && run.played == one.played
                     && match one.spec
                        case Ok(p) => run.spec == Ok(Parsed(VEnum(i, p.value), p.rest))
                        case Err(e) => run.spec == Err(e)
  {
    Pow256Values();
    TagThen(b);
    PlayInTurn([Exact(1, |b|)], VariantRequests(env, strict, env.defs[name].variants, b), script);
  }

  /** The derived chain of tag comparisons, tried in declaration order. */
  method DeserializeVariant(env: Env, strict: bool, variants: seq<Variant>, tag: byte, reader: Stream) returns (r: Result<Val, CodecError>)
    requires WellFormed(env) && Progressing(reader.script)
    modifies reader
    ensures Progressing(reader.script)
    ensures var i := FindTag(variants, tag);
            if i == |variants| then r == Err(UnexpectedTag(tag))
            else
              var run := RunOf(env, strict, TNamed(variants[i].payload), old(reader.data), old(reader.script));
              match r
              case Ok(v) => v.VEnum? && v.variant == i && run == Run(Ok(Parsed(v.payload, reader.data)), Played(None, reader.script))
              case Err(e) => EndsIn(run, e)
    decreases |reader.data| + 1, 0, TUnit, 0
  {
    var i := 0;
    while i < |variants|
      invariant 0 <= i <= |variants|
      invariant i + FindTag(variants[i..], tag) == FindTag(variants, tag)
      invariant reader.data == old(reader.data) && reader.script == old(reader.script)
    {
      if tag == variants[i].tag {
        var payload :- DeserializeReader(env, strict, TNamed(variants[i].payload), reader);
        return Ok(VEnum(i, payload));
      }
      assert variants[i..][1..] == variants[i + 1..];
      i := i + 1;
    }
    return Err(UnexpectedTag(tag));
  }

  method DeserializeVec(env: Env, strict: bool, item: Ty, reader: Stream) returns (r: Result<seq<Val>, CodecError>)
    requires WellFormed(env) && Progressing(reader.script)
    modifies reader
    ensures Progressing(reader.script)
    ensures AgreesRow(RunOfItems(env, strict, item, old(reader.data), old(reader.script)), r, reader.data, reader.script)
    decreases |reader.data|, 0, item, 0
  {
    if env.zst(item) {
      return Err(ZeroSizedItems);
    }
    Pow256Values();
    ghost var word := DecodeWord(reader.data, 4);
    PlayInTurn([Exact(4, |reader.data|)],
               if word.Ok? then CountedRequests(env, strict, item, word.value.0, word.value.1) else [], reader.script);
    var len :- ReadWord(reader, 4);
    r := DeserializeCounted(env, strict, item, len, reader);
  }

  /** The items of a vector after their number. */
  method DeserializeCounted(env: Env, strict: bool, item: Ty, len: u32, reader: Stream) returns (r: Result<seq<Val>, CodecError>)
    requires WellFormed(env) && Progressing(reader.script)
    modifies reader
    ensures Progressing(reader.script)
    ensures AgreesRow(RunOfCounted(env, strict, item, len, old(reader.data), old(reader.script)), r, reader.data, reader.script)
    decreases |reader.data|, TyRank(env, item) + 1, item, 5
  {
    PlaySingle(Bulk(len, |reader.data|), reader.script);
    if len == 0 {
      assert PlayOne(Bulk(0, |reader.data|), reader.script) == Played(None, reader.script);
      assert AllRequests(env, strict, item, 0, reader.data) == [];
      assert CountedRequests(env, strict, item, 0, reader.data) == if item == U8 then [Bulk(0, |reader.data|)] else [];
      return Ok([]);
    }
    if item == U8 {
      BulkBytes(env, strict, len, reader.data);
      PlayOneEnds(Bulk(len, |reader.data|), reader.script);
      var bytes, _ := VecFromReader(len, reader);
      return match bytes
        case Ok(b) => Ok(Ints(b))
        case Err(e) => Err(e);
    }
    r := DeserializeLoop(env, strict, item, len, reader);
  }

  method DeserializeArray(env: Env, strict: bool, elem: Ty, len: usize, reader: Stream) returns (r: Result<seq<Val>, CodecError>)
    requires WellFormed(env) && Progressing(reader.script)
    modifies reader
    ensures Progressing(reader.script)
    ensures AgreesRow(RunOfArray(env, strict, elem, len, old(reader.data), old(reader.script)), r, reader.data, reader.script)
    decreases |reader.data|, TyRank(env, elem) + 1, elem, 5
  {
    if elem == U8 {
      BulkBytes(env, strict, len, reader.data);
      PlaySingle(Exact(len, |reader.data|), reader.script);
      var buf := new byte[len];
      var got := reader.ReadExact(buf);
      return match got
        case Ok(_) => Ok(Ints(buf[..]))
        case Err(kind) => Err(EofToLength(kind));
    }
    r := DeserializeLoop(env, strict, elem, len, reader);
  }

  /** `len` items, one after the other. */
  method DeserializeLoop(env: Env, strict: bool, item: Ty, len: nat, reader: Stream) returns (r: Result<seq<Val>, CodecError>)
    requires WellFormed(env) && Progressing(reader.script)
    modifies reader
    ensures Progressing(reader.script)
    ensures AgreesRow(RunOfAll(env, strict, item, len, old(reader.data), old(reader.script)), r, reader.data, reader.script)
    decreases |reader.data|, TyRank(env, item) + 1, item, 4
  {
    ghost var run := RunOfAll(env, strict, item, len, reader.data, reader.script);
    var result := [];
    AfterNothing(run);
    var i := 0;
    while i < len
      invariant 0 <= i <= len
      invariant Progressing(reader.script) && |reader.data| <= |old(reader.data)|
      invariant run == After(result, RunOfAll(env, strict, item, len - i, reader.data, reader.script))
    {
      var v :- DeserializeItem(env, strict, item, len - i, result, reader);
      result := result + [v];
      i := i + 1;
    }
    AfterEverything(result, reader.data, reader.script);
    return Ok(result);
  }

  /** One round of the item loop: `n` items remain and `done` have been read. */
  method DeserializeItem(env: Env, strict: bool, item: Ty, ghost n: nat, ghost done: seq<Val>, reader: Stream) returns (r: Result<Val, CodecError>)
    requires WellFormed(env) && Progressing(reader.script) && n > 0
    modifies reader
    ensures Progressing(reader.script)
    ensures var run := After(done, RunOfAll(env, strict, item, n, old(reader.data), old(reader.script)));
            match r
            case Ok(v) =>
              && |reader.data| <= |old(reader.data)|
              && run == After(done + [v], RunOfAll(env, strict, item, n - 1, reader.data, reader.script))
            case Err(e) => EndsIn(run, e)
    decreases |reader.data|, TyRank(env, item) + 1, item, 3
  {
    AfterOne(env, strict, item, n, reader.data, done, reader.script);
    r := DeserializeReader(env, strict, item, reader);
  }

  method DeserializeRow(env: Env, strict: bool, tys: seq<Ty>, reader: Stream) returns (r: Result<seq<Val>, CodecError>)
    requires WellFormed(env) && Progressing(reader.script)
    modifies reader
    ensures Progressing(reader.script)
    ensures AgreesRow(RunOfRow(env, strict, tys, old(reader.data), old(reader.script)), r, reader.data, reader.script)
    decreases |reader.data|, RowRank(env, tys) + 1, tys, 0
  {
    ghost var run := RunOfRow(env, strict, tys, reader.data, reader.script);
    var result := [];
    assert tys[0..] == tys;
    AfterNothing(run);
    var i := 0;
    while i < |tys|
      invariant 0 <= i <= |tys|
      invariant Progressing(reader.script) && |reader.data| <= |old(reader.data)|
      invariant RowRank(env, tys[i..]) <= RowRank(env, tys)
      invariant run == After(result, RunOfRow(env, strict, tys[i..], reader.data, reader.script))
    {
      assert tys[i..][1..] == tys[i + 1..];
      assert TyRank(env, tys[i]) <= RowRank(env, tys[i..]);
      var v :- DeserializeField(env, strict, tys[i..], result, reader);
      result := result + [v];
      i := i + 1;
    }
    AfterEverything(result, reader.data, reader.script);
    return Ok(result);
  }

  /** One field of a row: `tys` remain and `done` have been read. */
  method DeserializeField(env: Env, strict: bool, tys: seq<Ty>, ghost done: seq<Val>, reader: Stream) returns (r: Result<Val, CodecError>)
    requires WellFormed(env) && Progressing(reader.script) && tys != []
    modifies reader
    ensures Progressing(reader.script)
    ensures var run := After(done, RunOfRow(env, strict, tys, old(reader.data), old(reader.script)));
            match r
            case Ok(v) =>
              && |reader.data| <= |old(reader.data)|
              && run == After(done + [v], RunOfRow(env, strict, tys[1..], reader.data, reader.script))
            case Err(e) => EndsIn(run, e)
    decreases |reader.data|, TyRank(env, tys[0]) + 1, tys[0], 3
  {
    AfterField(env, strict, tys, reader.data, done, reader.script);
    r := DeserializeReader(env, strict, tys[0], reader);
  }

  // ---- Whole inputs ----

  /** Decoding a whole stream: what it comes to is told by the type, the bytes
      and the script. */
  method ReadWhole(env: Env, strict: bool, ty: Ty, reader: Stream) returns (r: Result<Val, CodecError>)
    requires WellFormed(env) && Progressing(reader.script)
    modifies reader
    ensures r == StreamOutcome(env, strict, ty, old(reader.data), old(reader.script))
  {
    var v :- DeserializeReader(env, strict, ty, reader);
    var buf := new byte[1];
    var more := reader.ReadExact(buf);
    if more.Err? && more.error == UnexpectedEof {
      return Ok(v);
    }
    return Err(NotAllBytesRead);
  }

  /** Every vector of bytes that is not empty, interrupted after its length has
      been read: the bytes decode, and the stream does not. */
  lemma InterruptedVector(env: Env, strict: bool, bytes: seq<byte>)
    requires WellFormed(env) && 0 < |bytes| <= U32_MAX
    ensures var b := LittleEndian(4, |bytes|) + bytes;
            && FromSlice(env, strict, TSeq(Vec, U8), b) == Ok(VSeq(Ints(bytes)))
            && StreamOutcome(env, strict, TSeq(Vec, U8), b, [Chunk(4), Interrupt]) == Err(Io(Interrupted))
  {
    var n, b := |bytes|, LittleEndian(4, |bytes|) + bytes;
    LengthThenBytes(env, strict, bytes);
    BulkBytes(env, strict, n, bytes);
    assert bytes[..n] == bytes && bytes[n..] == [];
    InterruptedBytes(env, strict, TSeq(Vec, U8), bytes);
  }

  /** The same goes for strings and for every other collection of bytes: whatever the
      bytes decode to, the stream is interrupted. */
  lemma InterruptedBytes(env: Env, strict: bool, ty: Ty, bytes: seq<byte>)
    requires WellFormed(env) && ReadsInBulk(ty) && 0 < |bytes| <= U32_MAX
    ensures StreamOutcome(env, strict, ty, LittleEndian(4, |bytes|) + bytes, [Chunk(4), Interrupt]) == Err(Io(Interrupted))
  {
    var b := LittleEndian(4, |bytes|) + bytes;
    BytesRequested(env, strict, bytes);
    InBulk(env, strict, ty, b);
    InterruptedAfterLength(|bytes|);
    StoppedOutcome(env, strict, ty, b, [Exact(4, |bytes| + 4), Bulk(|bytes|, |bytes|)], [Chunk(4), Interrupt]);
  }

  lemma StoppedOutcome(env: Env, strict: bool, ty: Ty, b: seq<byte>, qs: seq<Request>, script: seq<ReadEvent>)
    requires WellFormed(env) && Requests(env, strict, ty, b) == qs && Play(qs, script).stop == Some(Interrupted)
    ensures StreamOutcome(env, strict, ty, b, script) == Err(Io(Interrupted))
  {
  }

  lemma InBulk(env: Env, strict: bool, ty: Ty, b: seq<byte>)
    requires WellFormed(env) && ReadsInBulk(ty)
    ensures Requests(env, strict, ty, b) == ItemRequests(env, strict, U8, b)
  {
  }

  lemma BytesRequested(env: Env, strict: bool, bytes: seq<byte>)
    requires WellFormed(env) && |bytes| <= U32_MAX
    ensures var b := LittleEndian(4, |bytes|) + bytes;
            && DecodeWord(b, 4) == Ok((|bytes|, bytes))
            && ItemRequests(env, strict, U8, b) == [Exact(4, |bytes| + 4), Bulk(|bytes|, |bytes|)]
  {
    Pow256Values();
    LittleEndianRoundTrip(4, |bytes|);
    var b := LittleEndian(4, |bytes|) + bytes;
    assert b[..4] == LittleEndian(4, |bytes|) && b[4..] == bytes;
    assert DecodeWord(b, 4) == Ok((|bytes|, bytes));
    assert CountedRequests(env, strict, U8, |bytes|, bytes) == [Bulk(|bytes|, |bytes|)];
    assert ItemRequests(env, strict, U8, b) == [Exact(4, |b|)] + [Bulk(|bytes|, |bytes|)];
  }

  lemma LengthThenBytes(env: Env, strict: bool, bytes: seq<byte>)
    requires WellFormed(env) && |bytes| <= U32_MAX
    ensures var b := LittleEndian(4, |bytes|) + bytes;
            && Decode(env, strict, TSeq(Vec, U8), b) ==
               (match DecodeAll(env, strict, U8, |bytes|, bytes)
                case Ok(p) => Ok(Parsed(VSeq(p.values), p.rest))
                case Err(e) => Err(e))
  {
    BytesRequested(env, strict, bytes);
  }

  lemma InterruptedAfterLength(n: nat)
    requires n > 0
    ensures Play([Exact(4, n + 4), Bulk(n, n)], [Chunk(4), Interrupt]).stop == Some(Interrupted)
  {
    var qs, script := [Exact(4, n + 4), Bulk(n, n)], [Chunk(4), Interrupt];
    assert script[1..] == [Interrupt] && qs[1..] == [Bulk(n, n)];
    assert Fill(true, 4, 4, 4, n, [Interrupt]) == Played(None, [Interrupt]);
    assert PlayOne(qs[0], script) == Played(None, [Interrupt]);
    assert PlayOne(Bulk(n, n), [Interrupt]).stop == Some(Interrupted);
    PlaySingle(Bulk(n, n), [Interrupt]);
  }
}
