/** The JSON codec as it runs: writing to a sink and reading from a stream. */
module JsonStreams {
  import opened Bytes
  import opened Wrappers
  import opened Types
  import opened Codec
  import opened Reader
  import opened Reads
  import opened Json
  import opened RoundTrip
  import D = Deserialize
  import S = Serialize
  import W = Writes

  // ---- Writing ----

  /** The parts of a tree in the order in which they are written. */
  function PlanOfJson(env: Env, v: Val): W.Plan
    requires IsJson(env, v)
    decreases v, 1
  {
    W.Then(W.PlanBytes([v.variant]), PlanOfKind(env, v))
  }

  function PlanOfKind(env: Env, v: Val): W.Plan
    requires IsJson(env, v)
    decreases v, 0
  {
    var p := v.payload;
    if v.variant == 0 then W.PlanBytes([])
    else if v.variant == 1 then W.PlanOf(env, TBool, p)
    else if v.variant == 2 then PlanOfNumber(env, p)
    else if v.variant == 3 then W.PlanOf(env, TString, p)
    else PlanOfJsons(env, v.variant == 5, p.items)
  }

  function PlanOfNumber(env: Env, n: Val): W.Plan
    requires IsNumber(env, n)
  {
    W.Then(W.PlanBytes([n.variant]), W.PlanOf(env, NumberTy(n.variant), n.payload))
  }

  function PlanOfJsons(env: Env, keyed: bool, items: seq<Val>): W.Plan
    requires AllJson(env, keyed, items)
    decreases items, 4
  {
    if |items| > U32_MAX then W.PlanError(LengthTooLarge)
    else W.Then(W.PlanBytes(LittleEndian(4, |items|)), PlanOfEach(env, keyed, items))
  }

  function PlanOfEach(env: Env, keyed: bool, items: seq<Val>): W.Plan
    requires AllJson(env, keyed, items)
    decreases items, 3
  {
    if items == [] then W.PlanBytes([]) else W.Then(PlanOfItem(env, keyed, items[0]), PlanOfEach(env, keyed, items[1..]))
  }

  function PlanOfItem(env: Env, keyed: bool, item: Val): W.Plan
    requires ItemIsJson(env, keyed, item)
    decreases item, 2
  {
    if !keyed then PlanOfJson(env, item)
    else W.Then(W.PlanOf(env, TString, item.items[0]), PlanOfJson(env, item.items[1]))
  }

  /** The encoding of a tree is what its plan hands over, or the error it ends in. */
  lemma {:induction false} JsonPlanIsEncoding(env: Env, v: Val)
    requires IsJson(env, v)
    ensures EncodeJson(env, v) == W.Encodes(PlanOfJson(env, v))
    decreases v, 0
  {
    var p := v.payload;
    if v.variant == 1 || v.variant == 3 {
      W.PlanIsEncoding(env, if v.variant == 1 then TBool else TString, p);
    } else if v.variant == 2 {
      W.PlanIsEncoding(env, NumberTy(p.variant), p.payload);
    } else if v.variant >= 4 {
      EachPlanIsEncoding(env, v.variant == 5, p.items);
      JsonsPlanIsEncoding(env, v.variant == 5, p.items);
    }
  }

  lemma JsonsPlanIsEncoding(env: Env, keyed: bool, items: seq<Val>)
    requires AllJson(env, keyed, items) && EncodeEach(env, keyed, items) == W.Encodes(PlanOfEach(env, keyed, items))
    ensures EncodeJsons(env, keyed, items) == W.Encodes(PlanOfJsons(env, keyed, items))
  {
  }

  lemma {:induction false} EachPlanIsEncoding(env: Env, keyed: bool, items: seq<Val>)
    requires AllJson(env, keyed, items)
    ensures EncodeEach(env, keyed, items) == W.Encodes(PlanOfEach(env, keyed, items))
    decreases items, 2
  {
    if items != [] {
      ItemPlanIsEncoding(env, keyed, items[0]);
      EachPlanIsEncoding(env, keyed, items[1..]);
    }
  }

  lemma {:induction false} ItemPlanIsEncoding(env: Env, keyed: bool, item: Val)
    requires ItemIsJson(env, keyed, item)
    ensures EncodeItem(env, keyed, item) == W.Encodes(PlanOfItem(env, keyed, item))
    decreases item, 1
  {
    if !keyed {
      JsonPlanIsEncoding(env, item);
    } else {
      W.PlanIsEncoding(env, TString, item.items[0]);
      JsonPlanIsEncoding(env, item.items[1]);
    }
  }

  method SerializeJson(env: Env, v: Val, w: S.Sink) returns (r: Result<(), CodecError>)
    requires StrictTotalOrder(env.less) && IsJson(env, v)
    modifies w
    ensures W.Wrote(PlanOfJson(env, v), r, old(w.out), w.out, old(w.script), w.script)
    decreases v, 1
  {
    ghost var tag, body := W.PlanBytes([v.variant]), PlanOfKind(env, v);
    r := S.WriteBytes([v.variant], w);
    if r.Err? {
      W.WroteUpTo(tag, body, r.error, old(w.out), w.out, old(w.script), w.script);
      return;
    }
    ghost var out, script := w.out, w.script;
    r := SerializeKind(env, v, w);
    W.WroteInTurn(tag, body, r, old(w.out), out, w.out, old(w.script), script, w.script);
  }

  /** What follows the kind of a tree. */
  method SerializeKind(env: Env, v: Val, w: S.Sink) returns (r: Result<(), CodecError>)
    requires StrictTotalOrder(env.less) && IsJson(env, v)
    modifies w
    ensures W.Wrote(PlanOfKind(env, v), r, old(w.out), w.out, old(w.script), w.script)
    decreases v, 0
  {
    W.WroteNothing(w.out, w.script);
    var p := v.payload;
    if v.variant == 0 {
      r := Ok(());
    } else if v.variant == 1 {
      r := S.SerializeValue(env, TBool, p, w);
    } else if v.variant == 2 {
      r := SerializeNumber(env, p, w);
    } else if v.variant == 3 {
      r := S.SerializeValue(env, TString, p, w);
    } else {
      r := SerializeJsons(env, v.variant == 5, p.items, p, w);
    }
  }

  method SerializeNumber(env: Env, n: Val, w: S.Sink) returns (r: Result<(), CodecError>)
    requires StrictTotalOrder(env.less) && IsNumber(env, n)
    modifies w
    ensures W.Wrote(PlanOfNumber(env, n), r, old(w.out), w.out, old(w.script), w.script)
  {
    r := S.SerializeBody(env, n.variant, NumberTy(n.variant), n.payload, w);
  }

  /** The length, then the trees of an array or the entries of an object in turn. */
  method SerializeJsons(env: Env, keyed: bool, items: seq<Val>, ghost owner: Val, w: S.Sink) returns (r: Result<(), CodecError>)
    requires StrictTotalOrder(env.less) && AllJson(env, keyed, items)
    requires forall i | 0 <= i < |items| :: items[i] < owner
    modifies w
    ensures W.Wrote(PlanOfJsons(env, keyed, items), r, old(w.out), w.out, old(w.script), w.script)
    decreases owner, 4
  {
    W.WroteNothing(w.out, w.script);
    if |items| > U32_MAX {
      return Err(LengthTooLarge);
    }
    ghost var length, all := W.PlanBytes(LittleEndian(4, |items|)), PlanOfEach(env, keyed, items);
    r := S.WriteBytes(LittleEndian(4, |items|), w);
    if r.Err? {
      W.WroteUpTo(length, all, r.error, old(w.out), w.out, old(w.script), w.script);
      return;
    }
    ghost var out, script := w.out, w.script;
    r := SerializeEach(env, keyed, items, owner, w);
    W.WroteInTurn(length, all, r, old(w.out), out, w.out, old(w.script), script, w.script);
  }

  method SerializeEach(env: Env, keyed: bool, items: seq<Val>, ghost owner: Val, w: S.Sink) returns (r: Result<(), CodecError>)
    requires StrictTotalOrder(env.less) && AllJson(env, keyed, items)
    requires forall i | 0 <= i < |items| :: items[i] < owner
    modifies w
    ensures W.Wrote(PlanOfEach(env, keyed, items), r, old(w.out), w.out, old(w.script), w.script)
    decreases owner, 3
  {
    ghost var all := PlanOfEach(env, keyed, items);
    ghost var done := W.PlanBytes([]);
    assert items[0..] == items;
    W.ThenNothing(all);
    W.WroteNothing(w.out, w.script);
    var i := 0;
    while i < |items|
      invariant 0 <= i <= |items|
      invariant W.Wrote(done, Ok(()), old(w.out), w.out, old(w.script), w.script)
      invariant all == W.Then(done, PlanOfEach(env, keyed, items[i..]))
    {
      assert items[i..][1..] == items[i + 1..];
      r, done := SerializeNext(env, keyed, items[i..], done, old(w.out), old(w.script), w);
      if r.Err? {
        return;
      }
      i := i + 1;
    }
    W.ThenNothing(done);
    return Ok(());
  }

  /** One round of the loop: `items` remain and `done` has been written. */
  method SerializeNext(env: Env, keyed: bool, items: seq<Val>, ghost done: W.Plan, ghost out: seq<byte>, ghost script: seq<W.WriteEvent>, w: S.Sink)
      returns (r: Result<(), CodecError>, ghost next: W.Plan)
    requires StrictTotalOrder(env.less) && AllJson(env, keyed, items) && items != []
    requires W.Wrote(done, Ok(()), out, w.out, script, w.script)
    modifies w
    ensures r.Ok? ==> W.Wrote(next, r, out, w.out, script, w.script)
    ensures r.Ok? ==> W.Then(done, PlanOfEach(env, keyed, items)) == W.Then(next, PlanOfEach(env, keyed, items[1..]))
    ensures r.Err? ==> W.Wrote(W.Then(done, PlanOfEach(env, keyed, items)), r, out, w.out, script, w.script)
    decreases items[0], 3
  {
    ghost var one, rest := PlanOfItem(env, keyed, items[0]), PlanOfEach(env, keyed, items[1..]);
    ghost var before, events := w.out, w.script;
    next := W.Then(done, one);
    r := SerializeItem(env, keyed, items[0], w);
    W.WroteInTurn(done, one, r, out, before, w.out, script, events, w.script);
    W.ThenAssociates(done, one, rest);
    if r.Err? {
      W.WroteUpTo(next, rest, r.error, out, w.out, script, w.script);
    }
  }

  method SerializeItem(env: Env, keyed: bool, item: Val, w: S.Sink) returns (r: Result<(), CodecError>)
    requires StrictTotalOrder(env.less) && ItemIsJson(env, keyed, item)
    modifies w
    ensures W.Wrote(PlanOfItem(env, keyed, item), r, old(w.out), w.out, old(w.script), w.script)
    decreases item, 2
  {
    if !keyed {
      r := SerializeJson(env, item, w);
      return;
    }
    ghost var key, value := W.PlanOf(env, TString, item.items[0]), PlanOfJson(env, item.items[1]);
    r := S.SerializeValue(env, TString, item.items[0], w);
    if r.Err? {
      W.WroteUpTo(key, value, r.error, old(w.out), w.out, old(w.script), w.script);
      return;
    }
    ghost var out, script := w.out, w.script;
    r := SerializeJson(env, item.items[1], w);
    W.WroteInTurn(key, value, r, old(w.out), out, w.out, old(w.script), script, w.script);
  }

  // ---- Reading ----

  /** The requests for a tree: its kind, and then what the kind asks for. */
  ghost function JsonRequests(env: Env, b: seq<byte>): seq<Request>
    requires WellFormed(env)
    decreases |b|, 0
  {
    [Exact(1, |b|)] + if b == [] then [] else KindRequests(env, b[0], b[1..])
  }

  ghost function KindRequests(env: Env, kind: byte, b: seq<byte>): seq<Request>
    requires WellFormed(env)
    decreases |b|, 4
  {
    if kind == 1 then Requests(env, true, TBool, b)
    else if kind == 2 then NumberRequests(env, b)
    else if kind == 3 then Requests(env, true, TString, b)
    else if kind == 4 || kind == 5 then JsonsRequests(env, kind == 5, b)
    else []
  }

  ghost function NumberRequests(env: Env, b: seq<byte>): seq<Request>
    requires WellFormed(env)
  {
    [Exact(1, |b|)] + if b != [] && b[0] <= 2 then Requests(env, true, NumberTy(b[0]), b[1..]) else []
  }

  ghost function JsonsRequests(env: Env, keyed: bool, b: seq<byte>): seq<Request>
    requires WellFormed(env)
    decreases |b|, 3
  {
    [Exact(4, |b|)] +
    match DecodeWord(b, 4)
    case Ok((count, rest)) => EachRequests(env, keyed, count, rest)
    case Err(_) => []
  }

  ghost function EachRequests(env: Env, keyed: bool, count: nat, b: seq<byte>): seq<Request>
    requires WellFormed(env)
    decreases |b|, 2
  {
    if count == 0 then []
    else
      EntryRequests(env, keyed, b) +
      match DecodeItem(env, false, keyed, b)
      case Ok(p) => EachRequests(env, keyed, count - 1, p.rest)
      case Err(_) => []
  }

  ghost function EntryRequests(env: Env, keyed: bool, b: seq<byte>): seq<Request>
    requires WellFormed(env)
    decreases |b|, 1
  {
    if !keyed then JsonRequests(env, b)
    else
      Requests(env, true, TString, b) +
      match Decode(env, true, TString, b)
      case Ok(key) => JsonRequests(env, key.rest)
      case Err(_) => []
  }

  ghost function RunOfJson(env: Env, b: seq<byte>, script: seq<ReadEvent>): D.Run<Parsed>
    requires WellFormed(env)
  {
    D.Run(DecodeJson(env, false, b), Play(JsonRequests(env, b), script))
  }

  ghost function RunOfJsons(env: Env, keyed: bool, b: seq<byte>, script: seq<ReadEvent>): D.Run<ParsedRow>
    requires WellFormed(env)
  {
    D.Run(DecodeJsons(env, false, keyed, b), Play(JsonsRequests(env, keyed, b), script))
  }

  ghost function RunOfEach(env: Env, keyed: bool, n: nat, b: seq<byte>, script: seq<ReadEvent>): D.Run<ParsedRow>
    requires WellFormed(env)
  {
    D.Run(DecodeEach(env, false, keyed, n, b), Play(EachRequests(env, keyed, n, b), script))
  }

  ghost function RunOfEntry(env: Env, keyed: bool, b: seq<byte>, script: seq<ReadEvent>): D.Run<Parsed>
    requires WellFormed(env)
  {
    D.Run(DecodeItem(env, false, keyed, b), Play(EntryRequests(env, keyed, b), script))
  }

  /** The result is the decoding of the bytes, with the stream left at its rest,
      or else the interruption or failure that the stream makes of a request. */
  method DeserializeJson(env: Env, reader: Stream) returns (r: Result<Val, CodecError>)
    requires WellFormed(env) && Progressing(reader.script)
    modifies reader
    ensures Progressing(reader.script)
    ensures D.Agrees(RunOfJson(env, old(reader.data), old(reader.script)), r, reader.data, reader.script)
    ensures r == JsonOutcome(env, old(reader.data), old(reader.script))
    decreases |reader.data|, 0
  {
    D.TagThen(reader.data);
    PlayInTurn([Exact(1, |reader.data|)],
               if reader.data == [] then [] else KindRequests(env, reader.data[0], reader.data[1..]), reader.script);
    var kind :- D.ReadWord(reader, 1);
    if kind == 0 {
      return Ok(VEnum(0, VTuple([])));
    } else if kind == 1 {
      var v :- D.DeserializeReader(env, true, TBool, reader);
      return Ok(VEnum(1, v));
    } else if kind == 2 {
      var v :- DeserializeNumber(env, reader);
      return Ok(VEnum(2, v));
    } else if kind == 3 {
      var v :- D.DeserializeReader(env, true, TString, reader);
      return Ok(VEnum(3, v));
    } else if kind == 4 {
      var items :- DeserializeJsons(env, false, reader);
      return Ok(VEnum(4, VSeq(items)));
    } else if kind == 5 {
      var entries :- DeserializeJsons(env, true, reader);
      return Ok(VEnum(5, VSeq(Collect(env, ENTRIES, entries))));
    }
    return Err(UnexpectedTag(kind));
  }

  method DeserializeNumber(env: Env, reader: Stream) returns (r: Result<Val, CodecError>)
    requires WellFormed(env) && Progressing(reader.script)
    modifies reader
    ensures Progressing(reader.script)
    ensures D.Agrees(D.Run(DecodeNumber(env, false, old(reader.data)), Play(NumberRequests(env, old(reader.data)), old(reader.script))),
                     r, reader.data, reader.script)
  {
    D.TagThen(reader.data);
    PlayInTurn([Exact(1, |reader.data|)],
               if reader.data != [] && reader.data[0] <= 2
               then Requests(env, true, NumberTy(reader.data[0]), reader.data[1..]) else [], reader.script);
    var form :- D.ReadWord(reader, 1);
    if form > 2 {
      return Err(UnexpectedTag(form));
    }
    var v :- D.DeserializeReader(env, true, NumberTy(form), reader);
    if form == 1 && v.i >= 0 {
      return Ok(VEnum(0, v));
    } else if form == 2 && !IsFinite(v.i) {
      return Err(InfiniteNumber);
    }
    return Ok(VEnum(form, v));
  }

  lemma AfterOne(env: Env, keyed: bool, n: nat, b: seq<byte>, done: seq<Val>, script: seq<ReadEvent>)
    requires WellFormed(env) && n > 0
    ensures var one := RunOfEntry(env, keyed, b, script);
            var rest := if one.spec.Ok? then one.spec.value.rest else [];
            D.After(done, RunOfEach(env, keyed, n, b, script)) ==
            D.Onto(done, one, RunOfEach(env, keyed, n - 1, rest, one.played.script))
  {
    var one := DecodeItem(env, false, keyed, b);
    PlayInTurn(EntryRequests(env, keyed, b), if one.Ok? then EachRequests(env, keyed, n - 1, one.value.rest) else [], script);
    if one.Ok? {
      var tail := DecodeEach(env, false, keyed, n - 1, one.value.rest);
      assert tail.Ok? ==> done + ([one.value.value] + tail.value.values) == done + [one.value.value] + tail.value.values;
    }
  }

  method DeserializeJsons(env: Env, keyed: bool, reader: Stream) returns (r: Result<seq<Val>, CodecError>)
    requires WellFormed(env) && Progressing(reader.script)
    modifies reader
    ensures Progressing(reader.script)
    ensures D.AgreesRow(RunOfJsons(env, keyed, old(reader.data), old(reader.script)), r, reader.data, reader.script)
    decreases |reader.data|, 3
  {
    ghost var word := DecodeWord(reader.data, 4);
    PlayInTurn([Exact(4, |reader.data|)],
               if word.Ok? then EachRequests(env, keyed, word.value.0, word.value.1) else [], reader.script);
    var len :- D.ReadWord(reader, 4);
    r := DeserializeEach(env, keyed, len, reader);
  }

  /** `len` trees or entries, one after the other. */
  method DeserializeEach(env: Env, keyed: bool, len: nat, reader: Stream) returns (r: Result<seq<Val>, CodecError>)
    requires WellFormed(env) && Progressing(reader.script)
    modifies reader
    ensures Progressing(reader.script)
    ensures D.AgreesRow(RunOfEach(env, keyed, len, old(reader.data), old(reader.script)), r, reader.data, reader.script)
    decreases |reader.data|, 2
  {
    ghost var run := RunOfEach(env, keyed, len, reader.data, reader.script);
    var result := [];
    D.AfterNothing(run);
    var i := 0;
    while i < len
      invariant 0 <= i <= len
      invariant Progressing(reader.script) && |reader.data| <= |old(reader.data)|
      invariant run == D.After(result, RunOfEach(env, keyed, len - i, reader.data, reader.script))
    {
      AfterOne(env, keyed, len - i, reader.data, result, reader.script);
      var v :- DeserializeItem(env, keyed, reader);
      result := result + [v];
      i := i + 1;
    }
    D.AfterEverything(result, reader.data, reader.script);
    return Ok(result);
  }

  method DeserializeItem(env: Env, keyed: bool, reader: Stream) returns (r: Result<Val, CodecError>)
    requires WellFormed(env) && Progressing(reader.script)
    modifies reader
    ensures Progressing(reader.script)
    ensures D.Agrees(RunOfEntry(env, keyed, old(reader.data), old(reader.script)), r, reader.data, reader.script)
    decreases |reader.data|, 1
  {
    if !keyed {
      r := DeserializeJson(env, reader);
      return;
    }
    ghost var first := Decode(env, true, TString, reader.data);
    PlayInTurn(Requests(env, true, TString, reader.data), if first.Ok? then JsonRequests(env, first.value.rest) else [], reader.script);
    var key :- D.DeserializeReader(env, true, TString, reader);
    var value :- DeserializeJson(env, reader);
    return Ok(VTuple([key, value]));
  }

  // ---- Which trees can be interrupted ----

  /** What reading a tree from a stream comes to. */
  ghost function JsonOutcome(env: Env, b: seq<byte>, script: seq<ReadEvent>): Result<Val, CodecError>
    requires WellFormed(env)
  {
    var played := Play(JsonRequests(env, b), script);
    if IsDisturbed(played) then Err(Io(played.stop.value)) else JsonOfBytes(env, b)
  }

  function JsonOfBytes(env: Env, b: seq<byte>): Result<Val, CodecError>
    requires WellFormed(env)
  {
    var p :- DecodeJson(env, false, b);
    Ok(p.value)
  }

  lemma {:induction false} DecodeJsonIsPure(env: Env, b: seq<byte>)
    requires WellFormed(env)
    ensures var d := DecodeJson(env, false, b); d.Err? ==> !d.error.Io?
    decreases |b|, 0
  {
    var word := DecodeWord(b, 1);
    if word.Ok? {
      var rest := word.value.1;
      DecodeIsPure(env, true, TBool, rest);
      DecodeIsPure(env, true, TString, rest);
      DecodeNumberIsPure(env, rest);
      DecodeJsonsIsPure(env, false, rest);
      DecodeJsonsIsPure(env, true, rest);
    }
  }

  lemma DecodeNumberIsPure(env: Env, b: seq<byte>)
    requires WellFormed(env)
    ensures var d := DecodeNumber(env, false, b); d.Err? ==> !d.error.Io?
  {
    var word := DecodeWord(b, 1);
    if word.Ok? {
      DecodeIsPure(env, true, NumberTy(word.value.0), word.value.1);
    }
  }

  lemma {:induction false} DecodeJsonsIsPure(env: Env, keyed: bool, b: seq<byte>)
    requires WellFormed(env)
    ensures var d := DecodeJsons(env, false, keyed, b); d.Err? ==> !d.error.Io?
    decreases |b|, 3
  {
    var word := DecodeWord(b, 4);
    if word.Ok? {
      DecodeEachIsPure(env, keyed, word.value.0, word.value.1);
    }
  }

  lemma {:induction false} DecodeEachIsPure(env: Env, keyed: bool, count: nat, b: seq<byte>)
    requires WellFormed(env)
    ensures var d := DecodeEach(env, false, keyed, count, b); d.Err? ==> !d.error.Io?
    decreases |b|, 2
  {
    if count > 0 {
      DecodeItemIsPure(env, keyed, b);
      var one := DecodeItem(env, false, keyed, b);
      if one.Ok? {
        DecodeEachIsPure(env, keyed, count - 1, one.value.rest);
      }
    }
  }

  lemma {:induction false} DecodeItemIsPure(env: Env, keyed: bool, b: seq<byte>)
    requires WellFormed(env)
    ensures var d := DecodeItem(env, false, keyed, b); d.Err? ==> !d.error.Io?
    decreases |b|, 1
  {
    if !keyed {
      DecodeJsonIsPure(env, b);
    } else {
      DecodeIsPure(env, true, TString, b);
      var key := Decode(env, true, TString, b);
      if key.Ok? {
        DecodeJsonIsPure(env, key.value.rest);
      }
    }
  }

  /** Interruptions cannot change what the bytes of a tree decode to exactly when no
      bulk read is in reach. */
  lemma JsonImmuneIffNoBulk(env: Env, b: seq<byte>)
    requires WellFormed(env)
    ensures (forall script | Progressing(script) && NoFailure(script) :: JsonOutcome(env, b, script) == JsonOfBytes(env, b)) <==>
            !BulkInReach(JsonRequests(env, b))
  {
    var qs := JsonRequests(env, b);
    DecodeJsonIsPure(env, b);
    if BulkInReach(qs) {
      var script := InterruptingScript(qs);
      assert JsonOutcome(env, b, script) == Err(Io(Interrupted));
    } else {
      forall script | Progressing(script) && NoFailure(script) ensures JsonOutcome(env, b, script) == JsonOfBytes(env, b) {
        NeverInterrupted(qs, script);
        PlayEnds(qs, script);
      }
    }
  }

  /** The tree has a string or a key that is not empty. */
  predicate HoldsText(v: Val)
    decreases v, 0
  {
    && v.VEnum? && (v.payload.VSeq? || v.payload.VTuple?)
    && (if v.variant == 3 then v.payload.items != []
        else v.variant >= 4 && AnyHoldsText(v.variant == 5, v.payload.items))
  }

  predicate AnyHoldsText(keyed: bool, items: seq<Val>)
    decreases items, 2
  {
    items != [] && (ItemHoldsText(keyed, items[0]) || AnyHoldsText(keyed, items[1..]))
  }

  predicate ItemHoldsText(keyed: bool, item: Val)
    decreases item, 1
  {
    if !keyed then HoldsText(item)
    else
      && item.VTuple? && |item.items| == 2
      && ((item.items[0].VSeq? && item.items[0].items != []) || HoldsText(item.items[1]))
  }

  /** Every request has bytes enough, and a bulk one is among them as told. */
  ghost predicate Meets(qs: seq<Request>, bulk: bool) {
    (forall q | q in qs :: q.len <= q.have) && (BulkInReach(qs) <==> bulk)
  }

  lemma {:induction false} MeetsBoth(a: seq<Request>, b: seq<Request>, p: bool, q: bool)
    requires Meets(a, p) && Meets(b, q)
    ensures Meets(a + b, p || q)
  {
    if a == [] {
      assert a + b == b;
    } else {
      assert a[0] in a && (a + b)[1..] == a[1..] + b;
      MeetsBoth(a[1..], b, BulkInReach(a[1..]), q);
    }
  }

  lemma TextRequests(env: Env, v: Val, rest: seq<byte>)
    requires WellFormed(env) && HasType(env, TString, v) && Encode(env, TString, v).Ok?
    ensures Meets(Requests(env, true, TString, Encode(env, TString, v).value + rest), v.items != [])
  {
    var n, e := |v.items|, Encode(env, TString, v).value;
    S.BulkBytes(env, v.items);
    Pow256Values();
    LittleEndianRoundTrip(4, n);
    var b, body := e + rest, EncodeAll(env, U8, v.items).value;
    assert b[..4] == LittleEndian(4, n) && b[4..] == body + rest;
    assert DecodeWord(b, 4) == Ok((n, body + rest));
    assert CountedRequests(env, true, U8, n, body + rest) == [Bulk(n, |body + rest|)];
    assert ItemRequests(env, true, U8, b) == [Exact(4, |b|)] + [Bulk(n, |body + rest|)];
    MeetsBoth([Exact(4, |b|)], [Bulk(n, |body + rest|)], false, n > 0);
  }

  /** The encoding of a tree asks for a bulk read if and only if the tree holds text. */
  lemma {:induction false} TreeRequests(env: Env, v: Val, rest: seq<byte>)
    requires WellFormed(env) && IsJson(env, v) && EncodeJson(env, v).Ok?
    ensures Meets(JsonRequests(env, EncodeJson(env, v).value + rest), HoldsText(v))
    decreases v, 0
  {
    var p, b := v.payload, EncodeJson(env, v).value + rest;
    var body := EncodeJson(env, v).value[1..];
    assert b[0] == v.variant && b[1..] == body + rest;
    if v.variant == 2 {
      NumberNeedsNoText(env, p, rest);
    } else if v.variant == 3 {
      TextRequests(env, p, rest);
    } else if v.variant >= 4 {
      TreesRequests(env, v.variant == 5, p.items, rest);
    }
    assert Meets(KindRequests(env, v.variant, body + rest), HoldsText(v));
    MeetsBoth([Exact(1, |b|)], KindRequests(env, v.variant, body + rest), false, HoldsText(v));
  }

  lemma NumberNeedsNoText(env: Env, n: Val, rest: seq<byte>)
    requires WellFormed(env) && IsNumber(env, n) && EncodeNumber(env, n).Ok?
    ensures Meets(NumberRequests(env, EncodeNumber(env, n).value + rest), false)
  {
    var b := EncodeNumber(env, n).value + rest;
    assert b[0] == n.variant && |b| >= 9;
    assert Requests(env, true, NumberTy(b[0]), b[1..]) == [Exact(8, |b| - 1)];
    MeetsBoth([Exact(1, |b|)], [Exact(8, |b| - 1)], false, false);
  }

  lemma {:induction false} TreesRequests(env: Env, keyed: bool, items: seq<Val>, rest: seq<byte>)
    requires WellFormed(env) && AllJson(env, keyed, items) && EncodeJsons(env, keyed, items).Ok?
    ensures Meets(JsonsRequests(env, keyed, EncodeJsons(env, keyed, items).value + rest), AnyHoldsText(keyed, items))
    decreases items, 3
  {
    Pow256Values();
    var n, body := |items|, EncodeEach(env, keyed, items).value;
    var b := EncodeJsons(env, keyed, items).value + rest;
    Regroup(LittleEndian(4, n), body, rest);
    WordBack(4, n, body + rest);
    EachMeets(env, keyed, items, rest);
    MeetsBoth([Exact(4, |b|)], EachRequests(env, keyed, n, body + rest), false, AnyHoldsText(keyed, items));
  }

  lemma {:induction false} EachMeets(env: Env, keyed: bool, items: seq<Val>, rest: seq<byte>)
    requires WellFormed(env) && AllJson(env, keyed, items) && EncodeEach(env, keyed, items).Ok?
    ensures Meets(EachRequests(env, keyed, |items|, EncodeEach(env, keyed, items).value + rest), AnyHoldsText(keyed, items))
    decreases items, 2
  {
    if items != [] {
      var first, tail := EncodeItem(env, keyed, items[0]).value, EncodeEach(env, keyed, items[1..]).value;
      Regroup(first, tail, rest);
      ItemBack(env, false, keyed, items[0], tail + rest);
      EntryMeets(env, keyed, items[0], tail + rest);
      EachMeets(env, keyed, items[1..], rest);
      MeetsBoth(EntryRequests(env, keyed, first + (tail + rest)), EachRequests(env, keyed, |items| - 1, tail + rest),
                ItemHoldsText(keyed, items[0]), AnyHoldsText(keyed, items[1..]));
    }
  }

  lemma {:induction false} EntryMeets(env: Env, keyed: bool, item: Val, rest: seq<byte>)
    requires WellFormed(env) && ItemIsJson(env, keyed, item) && EncodeItem(env, keyed, item).Ok?
    ensures Meets(EntryRequests(env, keyed, EncodeItem(env, keyed, item).value + rest), ItemHoldsText(keyed, item))
    decreases item, 1
  {
    if !keyed {
      TreeRequests(env, item, rest);
    } else {
      var key, value := Encode(env, TString, item.items[0]).value, EncodeJson(env, item.items[1]).value;
      Regroup(key, value, rest);
      DecodeEncode(env, true, TString, item.items[0], value + rest);
      TextRequests(env, item.items[0], value + rest);
      TreeRequests(env, item.items[1], rest);
      MeetsBoth(Requests(env, true, TString, key + (value + rest)), JsonRequests(env, value + rest),
                item.items[0].items != [], HoldsText(item.items[1]));
    }
  }

  /** The encoding of a tree is immune to interruptions exactly when the tree has no
      string and no key but empty ones. */
  lemma TreeImmuneIffNoText(env: Env, v: Val, rest: seq<byte>)
    requires WellFormed(env) && IsJson(env, v) && EncodeJson(env, v).Ok?
    ensures var b := EncodeJson(env, v).value + rest;
            (forall script | Progressing(script) && NoFailure(script) :: JsonOutcome(env, b, script) == Ok(v)) <==> !HoldsText(v)
  {
    var b := EncodeJson(env, v).value + rest;
    JsonBack(env, false, v, rest);
    TreeRequests(env, v, rest);
    JsonImmuneIffNoBulk(env, b);
  }
}
