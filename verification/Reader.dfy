/** Readers that may deliver short reads, and the two ways the decoder drains them. */
module Reader {
  import opened Arithmetic
  import opened Bytes
  import opened Wrappers
  import opened Codec

  /** What one call to `read` does: deliver at most `size` bytes, be interrupted, or fail. */
  datatype ReadEvent = Chunk(size: nat) | Interrupt | Failure

  /** Every scripted read makes progress. */
  predicate Progressing(script: seq<ReadEvent>) {
    forall e | e in script :: e.Chunk? ==> e.size > 0
  }

  predicate NoFailure(script: seq<ReadEvent>) {
    forall e | e in script :: !e.Failure?
  }

  predicate NoInterruption(script: seq<ReadEvent>) {
    forall e | e in script :: !e.Interrupt?
  }

  function Min(a: nat, b: nat): nat {
    if a < b then a else b
  }

  // ---- What filling a buffer comes to, as a function of the stream ----

  /** One read into `room` bytes of buffer while `have` bytes remain to come:
      how many bytes it delivers, where none means that the stream has ended. */
  function Round(room: nat, have: nat, script: seq<ReadEvent>): Result<nat, IoError> {
    if script != [] && script[0].Interrupt? then Err(Interrupted)
    else if script != [] && script[0].Failure? then Err(Failed)
    else
      var n := Min(if script == [] then room else Min(room, script[0].size), have);
      if n == 0 then Err(UnexpectedEof) else Ok(n)
  }

  function NextEvents(script: seq<ReadEvent>): seq<ReadEvent> {
    if script == [] then [] else script[1..]
  }

  /** How reading ended, if not well, and the events it has left. */
  datatype Played = Played(stop: Option<IoError>, script: seq<ReadEvent>)

  /** The size of a buffer before the next read: a full one doubles. */
  function Doubled(len: nat, pos: nat, cap: nat): nat {
    if pos == cap then Min(cap * 2, len) else cap
  }

  /** Filling a buffer up to `len` bytes, of which `pos` are in place: a buffer of
      `cap` bytes that doubles whenever it is full. An interrupted read is
      retried or ends it. */
  function Fill(retry: bool, len: nat, pos: nat, cap: nat, have: nat, script: seq<ReadEvent>): Played
    requires pos <= cap <= len
    decreases |script|, have
  {
    if pos == len then Played(None, script)
    else
      var size := Doubled(len, pos, cap);
      match Round(size - pos, have, script)
      case Ok(n) => Fill(retry, len, pos + n, size, have - n, NextEvents(script))
      case Err(kind) =>
        if retry && kind == Interrupted then Fill(retry, len, pos, size, have, NextEvents(script))
        else Played(Some(kind), NextEvents(script))
  }

  lemma NextIsFromScript(script: seq<ReadEvent>)
    ensures Progressing(script) ==> Progressing(NextEvents(script))
    ensures NoFailure(script) ==> NoFailure(NextEvents(script))
    ensures NoInterruption(script) ==> NoInterruption(NextEvents(script))
  {
    assert forall e | e in NextEvents(script) :: e in script;
  }

  /** Filling succeeds only with enough bytes, ends early only without, and
      otherwise reports an interruption or a failure that the script holds. */
  lemma {:induction false} FillEnds(retry: bool, len: nat, pos: nat, cap: nat, have: nat, script: seq<ReadEvent>)
    requires Progressing(script) && pos <= cap <= len && (cap == 0 ==> len == 0)
    ensures FillEnded(retry, len - pos, have, script, Fill(retry, len, pos, cap, have, script))
    decreases |script|, have, 1
  {
    if pos < len {
      var size, next := Doubled(len, pos, cap), NextEvents(script);
      var round := Round(size - pos, have, script);
      NextIsFromScript(script);
      if round.Ok? {
        BytesEnd(retry, len, pos, cap, have, script, round.value, Fill(retry, len, pos, cap, have, script));
      } else if retry && round.error == Interrupted {
        FillEnds(retry, len, pos, size, have, next);
        EndsMore(retry, 0, len - pos, have, script, Fill(retry, len, pos, size, have, next));
      }
    }
  }

  lemma {:induction false} BytesEnd(retry: bool, len: nat, pos: nat, cap: nat, have: nat, script: seq<ReadEvent>, n: nat, f: Played)
    requires Progressing(script) && 0 < cap && pos <= cap <= len && pos < len && f == Fill(retry, len, pos, cap, have, script)
    requires Round(Doubled(len, pos, cap) - pos, have, script) == Ok(n)
    ensures FillEnded(retry, len - pos, have, script, f)
    decreases |script|, have, 0
  {
    NextIsFromScript(script);
    FillAfterBytes(retry, len, pos, cap, have, script, n);
    FillEnds(retry, len, pos + n, Doubled(len, pos, cap), have - n, NextEvents(script));
    EndsMore(retry, n, len - pos, have, script, f);
  }

  lemma EndsMore(retry: bool, n: nat, need: nat, have: nat, script: seq<ReadEvent>, f: Played)
    requires n <= need && n <= have && FillEnded(retry, need - n, have - n, NextEvents(script), f)
    ensures FillEnded(retry, need, have, script, f)
  {
    NextIsFromScript(script);
  }

  ghost predicate FillEnded(retry: bool, need: nat, have: nat, script: seq<ReadEvent>, f: Played) {
    && Progressing(f.script)
    && (NoFailure(script) ==> NoFailure(f.script)) && (NoInterruption(script) ==> NoInterruption(f.script))
    && match f.stop
       case None => need <= have
       case Some(UnexpectedEof) => have < need
       case Some(Interrupted) => !retry && !NoInterruption(script)
       case Some(Failed) => !NoFailure(script)
       case Some(WriteZero) => false
  }

  /** An event that ends a filling: a failure, or an interruption that is not retried. */
  predicate IsStopper(retry: bool, e: ReadEvent) {
    e.Failure? || (!retry && e.Interrupt?)
  }

  /** None of the first `n` events is one. */
  predicate Passes(retry: bool, script: seq<ReadEvent>, n: nat)
    requires n <= |script|
  {
    forall i | 0 <= i < n :: !IsStopper(retry, script[i])
  }

  /** Filling uses a part of the script. If a stopper is in it, it is the last event of
      it, and the error is that stopper's; if none is, the filling succeeds or the
      stream has ended. */
  ghost predicate UsesPart(retry: bool, script: seq<ReadEvent>, f: Played) {
    && |f.script| <= |script|
    && var used := |script| - |f.script|;
       && f.script == script[used..]
       && match f.stop
          case None => Passes(retry, script, used)
          case Some(UnexpectedEof) => Passes(retry, script, used)
          case Some(kind) =>
            && used > 0 && Passes(retry, script, used - 1) && IsStopper(retry, script[used - 1])
            && kind == if script[used - 1].Failure? then Failed else Interrupted
  }

  lemma UsesMore(retry: bool, script: seq<ReadEvent>, f: Played)
    requires script != [] ==> !IsStopper(retry, script[0])
    requires UsesPart(retry, NextEvents(script), f)
    ensures UsesPart(retry, script, f)
  {
    if script != [] {
      var rest := script[1..];
      var used := |rest| - |f.script|;
      assert script[used + 1..] == rest[used..];
      assert forall i | 0 < i < |script| :: script[i] == rest[i - 1];
    }
  }

  lemma UsesLast(retry: bool, script: seq<ReadEvent>, stop: IoError, f: Played)
    requires f == Played(Some(stop), NextEvents(script))
    requires match stop
             case UnexpectedEof => script == [] || !IsStopper(retry, script[0])
             case Interrupted => script != [] && !retry && script[0].Interrupt?
             case Failed => script != [] && script[0].Failure?
             case WriteZero => false
    ensures UsesPart(retry, script, f)
  {
    assert script[0..] == script;
  }

  lemma UsesNone(retry: bool, script: seq<ReadEvent>, f: Played)
    requires f == Played(None, script)
    ensures UsesPart(retry, script, f)
  {
    assert script[0..] == script;
  }

  /** One round of a filling. */
  lemma FillAfterBytes(retry: bool, len: nat, pos: nat, cap: nat, have: nat, script: seq<ReadEvent>, n: nat)
    requires pos <= cap <= len && pos < len
    requires Round(Doubled(len, pos, cap) - pos, have, script) == Ok(n)
    ensures n <= have && pos + n <= Doubled(len, pos, cap) <= len
    ensures Fill(retry, len, pos, cap, have, script) == Fill(retry, len, pos + n, Doubled(len, pos, cap), have - n, NextEvents(script))
  {
  }

  lemma {:induction false} FillUses(retry: bool, len: nat, pos: nat, cap: nat, have: nat, script: seq<ReadEvent>, f: Played)
    requires pos <= cap <= len && f == Fill(retry, len, pos, cap, have, script)
    ensures UsesPart(retry, script, f)
    decreases |script|, have, 1
  {
    if pos == len {
      UsesNone(retry, script, f);
    } else {
      var size, next := Doubled(len, pos, cap), NextEvents(script);
      var round := Round(size - pos, have, script);
      if round.Ok? {
        BytesUse(retry, len, pos, cap, have, script, round.value, f);
      } else if retry && round.error == Interrupted {
        FillUses(retry, len, pos, size, have, next, f);
        UsesMore(retry, script, f);
      } else {
        UsesLast(retry, script, round.error, f);
      }
    }
  }

  lemma {:induction false} BytesUse(retry: bool, len: nat, pos: nat, cap: nat, have: nat, script: seq<ReadEvent>, n: nat, f: Played)
    requires pos <= cap <= len && pos < len && f == Fill(retry, len, pos, cap, have, script)
    requires Round(Doubled(len, pos, cap) - pos, have, script) == Ok(n)
    ensures UsesPart(retry, script, f)
    decreases |script|, have, 0
  {
    FillAfterBytes(retry, len, pos, cap, have, script, n);
    FillUses(retry, len, pos + n, Doubled(len, pos, cap), have - n, NextEvents(script), f);
    UsesMore(retry, script, f);
  }

  function Repeated(e: ReadEvent, k: nat): (s: seq<ReadEvent>)
    ensures |s| == k
  {
    seq(k, _ => e)
  }

  lemma FillDoubles(retry: bool, cap: nat, len: nat, have: nat, script: seq<ReadEvent>, next: seq<ReadEvent>)
    requires 0 < cap <= have && 2 * cap <= len && script != [] && script[0] == Chunk(len) && next == script[1..]
    ensures Fill(retry, len, cap, cap, have, script) == Fill(retry, len, 2 * cap, 2 * cap, have - cap, next)
  {
    assert Round(cap, have, script) == Ok(cap);
  }

  /** With plenty to read, a full buffer takes one read for every doubling up to the
      length, and no other. */
  lemma {:induction false} OneReadPerDoubling(retry: bool, cap: nat, len: nat, k: nat, have: nat, rest: seq<ReadEvent>)
    requires 0 < cap <= len && len == Power(k) * cap && len <= cap + have
    ensures Fill(retry, len, cap, cap, have, Repeated(Chunk(len), k) + rest) == Played(None, rest)
    decreases k
  {
    if k == 0 {
      assert Repeated(Chunk(len), 0) + rest == rest;
    } else {
      MoreDoublings(k, cap);
      OneReadPerDoubling(retry, 2 * cap, len, k - 1, have - cap, rest);
      var script := Repeated(Chunk(len), k) + rest;
      assert script[1..] == Repeated(Chunk(len), k - 1) + rest;
      FillDoubles(retry, cap, len, have, script, script[1..]);
    }
  }

  function Power(k: nat): (p: nat)
    ensures p > 0
  {
    if k == 0 then 1 else 2 * Power(k - 1)
  }

  lemma MoreDoublings(k: nat, cap: nat)
    requires k > 0
    ensures Power(k) * cap == Power(k - 1) * (2 * cap) >= 2 * cap
  {
    MulMonotone(1, Power(k - 1), 2 * cap, 2 * cap);
  }

  /** One round of a filling that passes interruptions on. */
  lemma FillAfterError(len: nat, pos: nat, cap: nat, have: nat, script: seq<ReadEvent>, kind: IoError)
    requires pos <= cap <= len && pos < len && 0 < cap
    requires Round(Doubled(len, pos, cap) - pos, have, script) == Err(kind)
    ensures Fill(false, len, pos, cap, have, script) == Played(Some(kind), NextEvents(script))
  {
  }

  // ---- The stream ----

  /** A byte stream with a script of how its reads behave; once the script has
      run out, each read delivers as much as it can. */
  class Stream {
    var data: seq<byte>
    var script: seq<ReadEvent>

    constructor (data: seq<byte>, script: seq<ReadEvent>)
      ensures this.data == data && this.script == script
    {
      this.data := data;
      this.script := script;
    }

    /** One read into `buf[from..]`. */
    method Read(buf: array<byte>, from: nat) returns (r: Result<nat, IoError>)
      requires from <= buf.Length && Progressing(script)
      modifies this, buf
      ensures r.Ok? ==> from + r.value <= buf.Length && r.value <= |old(data)|
      ensures r.Ok? ==> buf[..] == old(buf[..from]) + old(data)[..r.value] + old(buf[..])[from + r.value..]
      ensures r.Ok? ==> data == old(data)[r.value..]
      ensures r.Err? ==> data == old(data) && buf[..] == old(buf[..])
      ensures script == NextEvents(old(script))
      ensures (if r == Ok(0) then Err(UnexpectedEof) else r) == Round(buf.Length - from, |old(data)|, old(script))
    {
      var limit := buf.Length - from;
      if script != [] {
        var event := script[0];
        script := script[1..];
        match event {
          case Interrupt => return Err(Interrupted);
          case Failure => return Err(Failed);
          case Chunk(size) => limit := Min(limit, size);
        }
      }
      var n := Min(limit, |data|);
      forall i | 0 <= i < n {
        buf[from + i] := data[i];
      }
      data := data[n..];
      return Ok(n);
    }

    /** One round of filling `buf` from `whole`, of which `pos` bytes are in
        place: a read into the unfilled part, where reading nothing means that
        the stream has ended. */
    method ReadMore(buf: array<byte>, pos: nat, ghost whole: seq<byte>) returns (r: Result<nat, IoError>)
      requires pos < buf.Length && pos <= |whole| && Progressing(script)
      requires buf[..pos] == whole[..pos] && data == whole[pos..]
      modifies this, buf
      ensures r == Round(buf.Length - pos, |old(data)|, old(script))
      ensures script == NextEvents(old(script)) && Progressing(script)
      ensures r.Ok? ==> pos + r.value <= buf.Length && pos + r.value <= |whole|
      ensures r.Ok? ==> buf[..pos + r.value] == whole[..pos + r.value] && data == whole[pos + r.value..]
      ensures r.Err? ==> buf[..pos] == whole[..pos] && data == whole[pos..]
      ensures r.Err? && r.error != Interrupted && r.error != Failed ==> r.error == UnexpectedEof && data == []
    {
      r := Read(buf, pos);
      if r.Ok? {
        assert whole[..pos] + whole[pos..][..r.value] == whole[..pos + r.value];
        if r.value == 0 {
          return Err(UnexpectedEof);
        }
      }
    }

    /** Fills the whole buffer, retrying interrupted reads. */
    method ReadExact(buf: array<byte>) returns (r: Result<(), IoError>)
      requires Progressing(script)
      modifies this, buf
      ensures var f := Fill(true, buf.Length, 0, buf.Length, |old(data)|, old(script));
              && script == f.script && Progressing(script)
              && r == if f.stop.None? then Ok(()) else Err(f.stop.value)
      ensures r.Ok? ==> buf.Length <= |old(data)| && buf[..] == old(data)[..buf.Length] && data == old(data)[buf.Length..]
      ensures r == Err(UnexpectedEof) ==> |old(data)| < buf.Length && data == []
      ensures r.Err? ==> r.error == UnexpectedEof || r.error == Failed
    {
      var pos := 0;
      ghost var whole, f := data, Fill(true, buf.Length, 0, buf.Length, |data|, script);
      while pos < buf.Length
        invariant 0 <= pos <= buf.Length && pos <= |whole|
        invariant Progressing(script)
        invariant buf[..pos] == whole[..pos] && data == whole[pos..]
        invariant Fill(true, buf.Length, pos, buf.Length, |data|, script) == f
        decreases |script|, |whole| - pos
      {
        var n := ReadMore(buf, pos, whole);
        if n.Ok? {
          pos := pos + n.value;
        } else if n.error != Interrupted {
          return Err(n.error);
        }
      }
      assert buf[..] == buf[..pos];
      return Ok(());
    }
  }

  /** An early end is reported as a wrong length. */
  function EofToLength(kind: IoError): CodecError {
    if kind == UnexpectedEof then UnexpectedLength else Io(kind)
  }

  const MAX_INITIAL: nat := 1024 * 1024

  /** A larger buffer with the same contents and then zeros. */
  method Resize(from: array<byte>, upTo: nat) returns (to: array<byte>)
    requires from.Length <= upTo
    ensures fresh(to) && to.Length == upTo && to[..from.Length] == from[..]
    ensures forall i | from.Length <= i < upTo :: to[i] == 0
  {
    to := new byte[upTo](_ => 0);
    forall i | 0 <= i < from.Length {
      to[i] := from[i];
    }
  }

  /** A full buffer is replaced by one of twice the size. */
  method MakeRoom(vec: array<byte>, pos: nat, len: nat) returns (buf: array<byte>)
    requires pos <= vec.Length <= len && 0 < vec.Length
    ensures buf == vec || fresh(buf)
    ensures buf.Length == Doubled(len, pos, vec.Length) && buf[..pos] == vec[..pos]
  {
    if pos < vec.Length {
      return vec;
    }
    buf := Resize(vec, Min(vec.Length * 2, len));
    assert vec[..pos] == vec[..] && pos <= buf.Length;
    assert buf[..pos] == buf[..vec.Length];
  }

  /** One read of the bulk read: a full buffer is doubled first. */
  method GrowAndRead(vec: array<byte>, pos: nat, len: nat, reader: Stream, ghost whole: seq<byte>)
      returns (buf: array<byte>, r: Result<nat, IoError>)
    requires pos <= vec.Length <= len && 0 < vec.Length && pos < len && pos <= |whole| && Progressing(reader.script)
    requires vec[..pos] == whole[..pos] && reader.data == whole[pos..]
    modifies reader, vec
    ensures buf == vec || fresh(buf)
    ensures buf.Length == Doubled(len, pos, vec.Length)
    ensures r == Round(buf.Length - pos, |old(reader.data)|, old(reader.script))
    ensures reader.script == NextEvents(old(reader.script)) && Progressing(reader.script)
    ensures r.Ok? ==> pos + r.value <= buf.Length && pos + r.value <= |whole|
    ensures r.Ok? ==> buf[..pos + r.value] == whole[..pos + r.value] && reader.data == whole[pos + r.value..]
    ensures r.Err? ==> reader.data == whole[pos..]
    ensures r.Err? && r.error != Interrupted && r.error != Failed ==> r.error == UnexpectedEof && reader.data == []
  {
    buf := MakeRoom(vec, pos, len);
    r := reader.ReadMore(buf, pos, whole);
  }

  /** One round of the bulk read, by what is still to be filled after it. */
  method VecRound(vec: array<byte>, pos: nat, len: nat, reader: Stream, ghost whole: seq<byte>)
      returns (buf: array<byte>, r: Result<nat, IoError>)
    requires pos <= vec.Length <= len && 0 < vec.Length && pos < len && pos <= |whole| && Progressing(reader.script)
    requires vec[..pos] == whole[..pos] && reader.data == whole[pos..]
    modifies reader, vec
    ensures buf == vec || fresh(buf)
    ensures buf.Length == Doubled(len, pos, vec.Length) && Progressing(reader.script) && |reader.script| <= |old(reader.script)|
    ensures var f := Fill(false, len, pos, vec.Length, |old(reader.data)|, old(reader.script));
            match r
            case Ok(n) =>
              && 0 < n && pos + n <= buf.Length && pos + n <= |whole|
              && buf[..pos + n] == whole[..pos + n] && reader.data == whole[pos + n..]
              && f == Fill(false, len, pos + n, buf.Length, |reader.data|, reader.script)
            case Err(kind) =>
              && reader.data == whole[pos..] && f == Played(Some(kind), reader.script)
              && (kind == UnexpectedEof ==> reader.data == [])
  {
    ghost var have, events := |reader.data|, reader.script;
    buf, r := GrowAndRead(vec, pos, len, reader, whole);
    if r.Ok? {
      FillAfterBytes(false, len, pos, vec.Length, have, events, r.value);
      assert |reader.data| == have - r.value;
    } else {
      FillAfterError(len, pos, vec.Length, have, events, r.error);
    }
  }

  /** The bulk read of a byte vector: a buffer that starts at no more than a
      mebibyte and doubles only after it has been filled. It takes exactly the
      next `len` bytes, unless the stream ends early or a read is interrupted
      or fails, which is passed on; `capacity` is the largest buffer held. */
  method VecFromReader(len: u32, reader: Stream) returns (r: Result<seq<byte>, CodecError>, capacity: nat)
    requires Progressing(reader.script)
    modifies reader
    ensures var f := Fill(false, len, 0, Min(len, MAX_INITIAL), |old(reader.data)|, old(reader.script));
            && reader.script == f.script && Progressing(reader.script)
            && (f.stop.None? ==>
                  len <= |old(reader.data)| && r == Ok(old(reader.data)[..len]) && reader.data == old(reader.data)[len..])
            && (f.stop.Some? ==> r == Err(EofToLength(f.stop.value)))
            && (f.stop == Some(UnexpectedEof) ==> |old(reader.data)| < len)
    ensures |reader.data| <= |old(reader.data)|
    ensures capacity <= len
    ensures capacity <= MAX_INITIAL || capacity <= 2 * (|old(reader.data)| - |reader.data|)
  {
    var vec := new byte[Min(len, MAX_INITIAL)](_ => 0);
    capacity := vec.Length;
    var pos := 0;
    ghost var whole, f := reader.data, Fill(false, len, 0, capacity, |reader.data|, reader.script);
    while pos < len
      invariant 0 <= pos <= vec.Length <= len && pos <= |whole|
      invariant fresh(vec) && (len > 0 ==> vec.Length > 0)
      invariant capacity == vec.Length && (capacity <= MAX_INITIAL || capacity <= 2 * pos)
      invariant Progressing(reader.script)
      invariant vec[..pos] == whole[..pos] && reader.data == whole[pos..]
      invariant Fill(false, len, pos, vec.Length, |reader.data|, reader.script) == f
      decreases |whole| - pos, |reader.script|
    {
      var n: Result<nat, IoError>;
      vec, n := VecRound(vec, pos, len, reader, whole);
      capacity := vec.Length;
      if n.Err? {
        assert f == Played(Some(n.error), reader.script);
        return Err(EofToLength(n.error)), capacity;
      }
      pos := pos + n.value;
    }
    assert f == Played(None, reader.script);
    assert vec[..] == vec[..pos];
    return Ok(vec[..]), capacity;
  }
}
