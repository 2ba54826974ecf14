/** What the decoder asks of its reader, which depends on the bytes alone, and
    what a stream makes of the requests. */
module Reads {
  import opened Bytes
  import opened Wrappers
  import opened Types
  import opened Codec
  import opened Reader
  import G = Generate

  /** A request for `len` bytes while `have` are to come: an exact one retries
      interrupted reads, and a bulk one passes them on. */
  datatype Request = Exact(len: nat, have: nat) | Bulk(len: nat, have: nat)

  function PlayOne(q: Request, script: seq<ReadEvent>): Played {
    match q
    case Exact(len, have) => Fill(true, len, 0, len, have, script)
    case Bulk(len, have) => Fill(false, len, 0, Min(len, MAX_INITIAL), have, script)
  }

  /** Requests in turn, up to the first that does not end well. */
  function Play(qs: seq<Request>, script: seq<ReadEvent>): Played {
    if qs == [] then Played(None, script)
    else
      var first := PlayOne(qs[0], script);
      if first.stop.Some? then first else Play(qs[1..], first.script)
  }

  lemma {:induction false} PlayInTurn(a: seq<Request>, b: seq<Request>, script: seq<ReadEvent>)
    ensures Play(a + b, script) ==
            if Play(a, script).stop.Some? then Play(a, script) else Play(b, Play(a, script).script)
  {
    if a == [] {
      assert a + b == b;
    } else {
      assert (a + b)[0] == a[0] && (a + b)[1..] == a[1..] + b;
      PlayInTurn(a[1..], b, PlayOne(a[0], script).script);
    }
  }

  lemma PlaySingle(q: Request, script: seq<ReadEvent>)
    ensures Play([q], script) == PlayOne(q, script)
  {
  }

  lemma PlayOneEnds(q: Request, script: seq<ReadEvent>)
    requires Progressing(script)
    ensures FillEnded(q.Exact?, q.len, q.have, script, PlayOne(q, script))
  {
    FillEnds(q.Exact?, q.len, 0, if q.Exact? then q.len else Min(q.len, MAX_INITIAL), q.have, script);
  }

  /** A stream that does not fail fails no request, and one that is not
      interrupted interrupts none. */
  lemma {:induction false} PlayEnds(qs: seq<Request>, script: seq<ReadEvent>)
    requires Progressing(script)
    ensures var p := Play(qs, script);
            && Progressing(p.script)
            && (NoFailure(script) ==> NoFailure(p.script)) && (NoInterruption(script) ==> NoInterruption(p.script))
            && (p.stop == Some(Failed) ==> !NoFailure(script)) && (p.stop == Some(Interrupted) ==> !NoInterruption(script))
            && p.stop != Some(WriteZero)
  {
    if qs != [] {
      PlayOneEnds(qs[0], script);
      PlayEnds(qs[1..], PlayOne(qs[0], script).script);
    }
  }

  // ---- Exactly when an interruption can show ----

  /** There is a bulk request that the ones before it leave enough bytes for. */
  predicate BulkInReach(qs: seq<Request>) {
    qs != [] && ((qs[0].Bulk? && qs[0].len > 0) || (qs[0].len <= qs[0].have && BulkInReach(qs[1..])))
  }

  lemma {:induction false} NeverInterrupted(qs: seq<Request>, script: seq<ReadEvent>)
    requires Progressing(script) && !BulkInReach(qs)
    ensures Play(qs, script).stop != Some(Interrupted)
  {
    if qs != [] {
      var first := PlayOne(qs[0], script);
      PlayOneEnds(qs[0], script);
      if first.stop.None? {
        NeverInterrupted(qs[1..], first.script);
      }
    }
  }

  /** Each request before the bulk one is served by a read of its own, and then
      the stream is interrupted. */
  lemma {:induction false} InterruptingScript(qs: seq<Request>) returns (script: seq<ReadEvent>)
    requires BulkInReach(qs)
    ensures Progressing(script) && NoFailure(script) && Play(qs, script).stop == Some(Interrupted)
  {
    var q := qs[0];
    if q.Bulk? && q.len > 0 {
      script := [Interrupt];
    } else {
      var rest := InterruptingScript(qs[1..]);
      script := if q.len == 0 then rest else [Chunk(q.len)] + rest;
      assert q.len > 0 ==> script[1..] == rest && Fill(true, q.len, q.len, q.len, q.have - q.len, rest) == Played(None, rest);
      assert PlayOne(q, script) == Played(None, rest);
    }
  }

  /** Requests can be interrupted exactly when a bulk one is in reach. */
  lemma InterruptibleIffBulk(qs: seq<Request>)
    ensures (exists script | Progressing(script) && NoFailure(script) :: Play(qs, script).stop == Some(Interrupted)) <==>
            BulkInReach(qs)
  {
    if BulkInReach(qs) {
      var script := InterruptingScript(qs);
    } else {
      forall script | Progressing(script) ensures Play(qs, script).stop != Some(Interrupted) {
        NeverInterrupted(qs, script);
      }
    }
  }

  // ---- The requests of the decoder ----

  ghost function Requests(env: Env, strict: bool, ty: Ty, b: seq<byte>): seq<Request>
    requires WellFormed(env)
    decreases |b|, TyRank(env, ty) + 1, ty, 0
  {
    match ty
    case TInt(_, width) => [Exact(width, |b|)]
    case TNonZero(_, width) => [Exact(width, |b|)]
    case TFloat(width) => [Exact(width, |b|)]
    case TBool => [Exact(1, |b|)]
    case TUnit => []
    case TString => ItemRequests(env, strict, U8, b)
    case TOption(_) => [Exact(1, |b|)] + PayloadRequests(env, strict, ty, b)
    case TResult(_, _) => [Exact(1, |b|)] + PayloadRequests(env, strict, ty, b)
    case TTuple(elems) => RowRequests(env, strict, elems, b)
    case TArray(elem, len) => if elem == U8 then [Exact(len, |b|)] else AllRequests(env, strict, elem, len, b)
    case TSeq(_, item) => ItemRequests(env, strict, item, b)
    case TSet(_, member) => ItemRequests(env, strict, member, b)
    case TMap(_, key, val) => if env.zst(key) then [] else ItemRequests(env, strict, TTuple([key, val]), b)
    case TNamed(name) =>
      if name !in env.defs then []
      else
        match env.defs[name]
        case StructDef(_, fields) =>
          assert WellFormedDef(env, name);
          RowRequests(env, strict, FieldTys(fields), b)
        case EnumDef(variants) => [Exact(1, |b|)] + VariantRequests(env, strict, variants, b)
  }

  /** What follows the flag of an option or a result. */
  ghost function PayloadRequests(env: Env, strict: bool, ty: Ty, b: seq<byte>): seq<Request>
    requires WellFormed(env)
    decreases |b|, 0, ty, 0
  {
    if b == [] then []
    else
      match ty
      case TOption(some) => if b[0] == 1 then Requests(env, strict, some, b[1..]) else []
      case TResult(ok, err) =>
        if b[0] == 0 then Requests(env, strict, err, b[1..])
        else if b[0] == 1 then Requests(env, strict, ok, b[1..])
        else []
      case _ => []
  }

  /** What follows the tag of an enum. */
  ghost function VariantRequests(env: Env, strict: bool, variants: seq<Variant>, b: seq<byte>): seq<Request>
    requires WellFormed(env)
    decreases |b|, 0, TUnit, 0
  {
    if b == [] || FindTag(variants, b[0]) == |variants| then []
    else Requests(env, strict, TNamed(variants[FindTag(variants, b[0])].payload), b[1..])
  }

  /** Items of one byte are read in bulk. */
  ghost function ItemRequests(env: Env, strict: bool, ty: Ty, b: seq<byte>): seq<Request>
    requires WellFormed(env)
    decreases |b|, 0, ty, 0
  {
    if env.zst(ty) then []
    else
      [Exact(4, |b|)] +
      match DecodeWord(b, 4)
      case Ok((count, rest)) => CountedRequests(env, strict, ty, count, rest)
      case Err(_) => []
  }

  ghost function CountedRequests(env: Env, strict: bool, ty: Ty, count: nat, b: seq<byte>): seq<Request>
    requires WellFormed(env)
    decreases |b|, TyRank(env, ty) + 1, ty, count + 2
  {
    if ty == U8 then [Bulk(count, |b|)] else AllRequests(env, strict, ty, count, b)
  }

  ghost function AllRequests(env: Env, strict: bool, ty: Ty, count: nat, b: seq<byte>): seq<Request>
    requires WellFormed(env)
    decreases |b|, TyRank(env, ty) + 1, ty, count + 1
  {
    if count == 0 then []
    else
      Requests(env, strict, ty, b) +
      match Decode(env, strict, ty, b)
      case Ok(p) => AllRequests(env, strict, ty, count - 1, p.rest)
      case Err(_) => []
  }

  ghost function RowRequests(env: Env, strict: bool, tys: seq<Ty>, b: seq<byte>): seq<Request>
    requires WellFormed(env)
    decreases |b|, RowRank(env, tys) + 1, tys, 0
  {
    if tys == [] then []
    else
      Requests(env, strict, tys[0], b) +
      match Decode(env, strict, tys[0], b)
      case Ok(p) => RowRequests(env, strict, tys[1..], p.rest)
      case Err(_) => []
  }

  // ---- Types that never read in bulk ----

  predicate ReadsInBulk(ty: Ty) {
    ty.TString? || (ty.TSeq? && ty.item == U8) || (ty.TSet? && ty.member == U8)
  }

  /** A universe of types without a string and without a collection of bytes. */
  ghost predicate NoneInBulk(env: Env, all: set<Ty>) {
    G.Universe(env, all) && forall t | t in all :: !ReadsInBulk(t)
  }

  ghost predicate AllExact(qs: seq<Request>) {
    forall q | q in qs :: q.Exact?
  }

  lemma {:induction false} ExactIsOutOfReach(qs: seq<Request>)
    requires AllExact(qs)
    ensures !BulkInReach(qs)
  {
    if qs != [] {
      assert qs[0] in qs;
      ExactIsOutOfReach(qs[1..]);
    }
  }

  lemma {:induction false} OnlyExact(env: Env, strict: bool, all: set<Ty>, ty: Ty, b: seq<byte>)
    requires WellFormed(env) && NoneInBulk(env, all) && ty in all
    ensures AllExact(Requests(env, strict, ty, b))
    decreases |b|, TyRank(env, ty) + 1, ty, 0
  {
    assert G.RefersWithin(env, all, ty);
    match ty
    case TOption(some) =>
      assert some in G.Refs(env, ty);
      if b != [] { OnlyExact(env, strict, all, some, b[1..]); }
    case TResult(ok, err) =>
      assert ok in G.Refs(env, ty) && err in G.Refs(env, ty);
      if b != [] {
        OnlyExact(env, strict, all, ok, b[1..]);
        OnlyExact(env, strict, all, err, b[1..]);
      }
    case TTuple(elems) => OnlyExactRow(env, strict, all, elems, b);
    case TArray(elem, len) =>
      assert elem in G.Refs(env, ty);
      OnlyExactAll(env, strict, all, elem, len, b);
    case TSeq(_, item) =>
      assert item in G.Refs(env, ty);
      OnlyExactItems(env, strict, all, item, b);
    case TSet(_, member) =>
      assert member in G.Refs(env, ty);
      OnlyExactItems(env, strict, all, member, b);
    case TMap(_, key, val) =>
      assert TTuple([key, val]) in G.Refs(env, ty);
      OnlyExactItems(env, strict, all, TTuple([key, val]), b);
    case TNamed(name) =>
      match env.defs[name] {
        case StructDef(_, fields) =>
          assert WellFormedDef(env, name);
          OnlyExactRow(env, strict, all, FieldTys(fields), b);
        case EnumDef(variants) =>
          if b != [] && FindTag(variants, b[0]) < |variants| {
            var i := FindTag(variants, b[0]);
            assert G.PayloadTys(variants)[i] in G.Refs(env, ty);
            OnlyExact(env, strict, all, TNamed(variants[i].payload), b[1..]);
          }
      }
    case _ =>
  }

  lemma {:induction false} OnlyExactItems(env: Env, strict: bool, all: set<Ty>, ty: Ty, b: seq<byte>)
    requires WellFormed(env) && NoneInBulk(env, all) && ty in all && ty != U8
    ensures AllExact(ItemRequests(env, strict, ty, b))
    decreases |b|, 0, ty, 0
  {
    var word := DecodeWord(b, 4);
    if word.Ok? {
      OnlyExactAll(env, strict, all, ty, word.value.0, word.value.1);
    }
  }

  lemma {:induction false} OnlyExactAll(env: Env, strict: bool, all: set<Ty>, ty: Ty, count: nat, b: seq<byte>)
    requires WellFormed(env) && NoneInBulk(env, all) && ty in all
    ensures AllExact(AllRequests(env, strict, ty, count, b))
    decreases |b|, TyRank(env, ty) + 1, ty, count + 1
  {
    if count > 0 {
      OnlyExact(env, strict, all, ty, b);
      var one := Decode(env, strict, ty, b);
      if one.Ok? {
        OnlyExactAll(env, strict, all, ty, count - 1, one.value.rest);
      }
    }
  }

  lemma {:induction false} OnlyExactRow(env: Env, strict: bool, all: set<Ty>, tys: seq<Ty>, b: seq<byte>)
    requires WellFormed(env) && NoneInBulk(env, all) && forall t | t in tys :: t in all
    ensures AllExact(RowRequests(env, strict, tys, b))
    decreases |b|, RowRank(env, tys) + 1, tys, 0
  {
    if tys != [] {
      OnlyExact(env, strict, all, tys[0], b);
      var one := Decode(env, strict, tys[0], b);
      if one.Ok? {
        OnlyExactRow(env, strict, all, tys[1..], one.value.rest);
      }
    }
  }

  // ---- The bytes alone never give an error of the reader ----

  lemma {:induction false} DecodeIsPure(env: Env, strict: bool, ty: Ty, b: seq<byte>)
    requires WellFormed(env)
    ensures var d := Decode(env, strict, ty, b); d.Err? ==> !d.error.Io?
    decreases |b|, TyRank(env, ty) + 1, ty, 1
  {
    match ty
    case TString => DecodeItemsIsPure(env, strict, U8, b);
    case TOption(some) => if b != [] { DecodeIsPure(env, strict, some, b[1..]); }
    case TResult(ok, err) =>
      if b != [] {
        DecodeIsPure(env, strict, ok, b[1..]);
        DecodeIsPure(env, strict, err, b[1..]);
      }
    case TTuple(elems) => DecodeRowIsPure(env, strict, elems, b);
    case TArray(elem, len) => DecodeAllIsPure(env, strict, elem, len, b);
    case TSeq(_, item) => DecodeItemsIsPure(env, strict, item, b);
    case TSet(_, member) => DecodeItemsIsPure(env, strict, member, b);
    case TMap(_, key, val) => DecodeItemsIsPure(env, strict, TTuple([key, val]), b);
    case TNamed(name) => DecodeNamedIsPure(env, strict, name, b);
    case _ =>
  }

  lemma {:induction false} DecodeNamedIsPure(env: Env, strict: bool, name: string, b: seq<byte>)
    requires WellFormed(env)
    ensures var d := Decode(env, strict, TNamed(name), b); d.Err? ==> !d.error.Io?
    decreases |b|, TyRank(env, TNamed(name)) + 1, TNamed(name), 0
  {
    if IsStruct(env, name) {
      assert WellFormedDef(env, name);
      DecodeRowIsPure(env, strict, FieldTys(env.defs[name].fields), b);
    } else if name in env.defs {
      var variants, tag := env.defs[name].variants, DecodeWord(b, 1);
      Pow256Values();
      if tag.Ok? && FindTag(variants, tag.value.0) < |variants| {
        DecodeIsPure(env, strict, TNamed(variants[FindTag(variants, tag.value.0)].payload), tag.value.1);
      }
    }
  }

  lemma {:induction false} DecodeItemsIsPure(env: Env, strict: bool, ty: Ty, b: seq<byte>)
    requires WellFormed(env)
    ensures var d := DecodeItems(env, strict, ty, b); d.Err? ==> !d.error.Io?
    decreases |b|, 0, ty, 0
  {
    var word := DecodeWord(b, 4);
    if word.Ok? {
      DecodeAllIsPure(env, strict, ty, word.value.0, word.value.1);
    }
  }

  lemma {:induction false} DecodeAllIsPure(env: Env, strict: bool, ty: Ty, count: nat, b: seq<byte>)
    requires WellFormed(env)
    ensures var d := DecodeAll(env, strict, ty, count, b); d.Err? ==> !d.error.Io?
    decreases |b|, TyRank(env, ty) + 1, ty, count + 1
  {
    if count > 0 {
      DecodeIsPure(env, strict, ty, b);
      var one := Decode(env, strict, ty, b);
      if one.Ok? {
        DecodeAllIsPure(env, strict, ty, count - 1, one.value.rest);
      }
    }
  }

  lemma {:induction false} DecodeRowIsPure(env: Env, strict: bool, tys: seq<Ty>, b: seq<byte>)
    requires WellFormed(env)
    ensures var d := DecodeRow(env, strict, tys, b); d.Err? ==> !d.error.Io?
    decreases |b|, RowRank(env, tys) + 1, tys, 0
  {
    if tys != [] {
      DecodeIsPure(env, strict, tys[0], b);
      var one := Decode(env, strict, tys[0], b);
      if one.Ok? {
        DecodeRowIsPure(env, strict, tys[1..], one.value.rest);
      }
    }
  }

  // ---- Reading a whole stream ----

  /** The probe for a byte after the value: only the end of the stream is good. */
  function EndsAfter(rest: seq<byte>, script: seq<ReadEvent>): bool {
    PlayOne(Exact(1, |rest|), script).stop == Some(UnexpectedEof)
  }

  /** What decoding a whole stream comes to. */
  ghost function StreamOutcome(env: Env, strict: bool, ty: Ty, b: seq<byte>, script: seq<ReadEvent>): Result<Val, CodecError>
    requires WellFormed(env)
  {
    var played := Play(Requests(env, strict, ty, b), script);
    if IsDisturbed(played) then Err(Io(played.stop.value))
    else
      var p :- Decode(env, strict, ty, b);
      if EndsAfter(p.rest, played.script) then Ok(p.value) else Err(NotAllBytesRead)
  }

  predicate IsDisturbed(played: Played) {
    played.stop == Some(Interrupted) || played.stop == Some(Failed)
  }

  /** A stream decodes to what its bytes decode to exactly when no request is
      interrupted or fails and no failure meets the probe at the end. A disturbed
      request is reported as it is, and a failed probe as bytes left over. */
  lemma StreamIsSlice(env: Env, strict: bool, ty: Ty, b: seq<byte>, script: seq<ReadEvent>)
    requires WellFormed(env) && Progressing(script)
    ensures var played, slice := Play(Requests(env, strict, ty, b), script), FromSlice(env, strict, ty, b);
            StreamOutcome(env, strict, ty, b, script) == slice <==>
              !IsDisturbed(played) && (slice.Ok? ==> PlayOne(Exact(1, 0), played.script).stop != Some(Failed))
    ensures var played, slice := Play(Requests(env, strict, ty, b), script), FromSlice(env, strict, ty, b);
            var outcome := StreamOutcome(env, strict, ty, b, script);
            outcome != slice ==>
              || outcome == Err(NotAllBytesRead)
              || (played.stop == Some(Interrupted) && outcome == Err(Io(Interrupted)))
              || (played.stop == Some(Failed) && outcome == Err(Io(Failed)))
  {
    var played := Play(Requests(env, strict, ty, b), script);
    PlayEnds(Requests(env, strict, ty, b), script);
    DecodeIsPure(env, strict, ty, b);
    var d := Decode(env, strict, ty, b);
    if !IsDisturbed(played) && d.Ok? {
      PlayOneEnds(Exact(1, |d.value.rest|), played.script);
    }
  }

  /** Interruptions cannot change what the bytes decode to, whatever the reads are
      and wherever they are interrupted, exactly when no bulk read is in reach. */
  lemma ImmuneIffNoBulk(env: Env, strict: bool, ty: Ty, b: seq<byte>)
    requires WellFormed(env)
    ensures (forall script | Progressing(script) && NoFailure(script) ::
               StreamOutcome(env, strict, ty, b, script) == FromSlice(env, strict, ty, b)) <==>
            !BulkInReach(Requests(env, strict, ty, b))
  {
    var qs := Requests(env, strict, ty, b);
    if BulkInReach(qs) {
      var script := InterruptingScript(qs);
      StreamIsSlice(env, strict, ty, b, script);
    } else {
      forall script | Progressing(script) && NoFailure(script)
        ensures StreamOutcome(env, strict, ty, b, script) == FromSlice(env, strict, ty, b)
      {
        NeverInterrupted(qs, script);
        NoFailureIsSlice(env, strict, ty, b, script);
      }
    }
  }

  /** If no read fails, the outcome differs from that of the bytes only by being
      an interruption, and does so exactly when a request is interrupted. */
  lemma NoFailureIsSlice(env: Env, strict: bool, ty: Ty, b: seq<byte>, script: seq<ReadEvent>)
    requires WellFormed(env) && Progressing(script) && NoFailure(script)
    ensures var played := Play(Requests(env, strict, ty, b), script);
            StreamOutcome(env, strict, ty, b, script) ==
            if played.stop == Some(Interrupted) then Err(Io(Interrupted)) else FromSlice(env, strict, ty, b)
  {
    var played := Play(Requests(env, strict, ty, b), script);
    PlayEnds(Requests(env, strict, ty, b), script);
    PlayOneEnds(Exact(1, 0), played.script);
    StreamIsSlice(env, strict, ty, b, script);
  }

  /** However the reads are split, the outcome is that of the bytes. */
  lemma SplittingIsHarmless(env: Env, strict: bool, ty: Ty, b: seq<byte>, script: seq<ReadEvent>)
    requires WellFormed(env) && Progressing(script) && NoFailure(script) && NoInterruption(script)
    ensures StreamOutcome(env, strict, ty, b, script) == FromSlice(env, strict, ty, b)
  {
    PlayEnds(Requests(env, strict, ty, b), script);
    NoFailureIsSlice(env, strict, ty, b, script);
  }

  /** Without a string or a collection of bytes anywhere in a type, reads may be
      split and interrupted at will. */
  lemma NoBulkIsImmune(env: Env, strict: bool, all: set<Ty>, ty: Ty, b: seq<byte>, script: seq<ReadEvent>)
    requires WellFormed(env) && NoneInBulk(env, all) && ty in all && Progressing(script) && NoFailure(script)
    ensures StreamOutcome(env, strict, ty, b, script) == FromSlice(env, strict, ty, b)
  {
    OnlyExact(env, strict, all, ty, b);
    ExactIsOutOfReach(Requests(env, strict, ty, b));
    NeverInterrupted(Requests(env, strict, ty, b), script);
    NoFailureIsSlice(env, strict, ty, b, script);
  }
}
