/** What the encoder hands to its sink, and what a sink makes of it. */
module Writes {
  import opened Bytes
  import opened Wrappers
  import opened Types
  import opened Codec

  /** What one call to `write` does: accept at most `size` bytes, be interrupted, or fail. */
  datatype WriteEvent = Accept(size: nat) | Interrupt | Failure

  /** A write that fails, or accepts nothing, ends the writing. */
  predicate IsBad(e: WriteEvent) {
    e.Failure? || e == Accept(0)
  }

  function ErrorOf(e: WriteEvent): IoError {
    if e.Failure? then Failed else WriteZero
  }

  /** Every write either makes progress or is to be retried. */
  predicate Willing(script: seq<WriteEvent>) {
    forall e | e in script :: !IsBad(e)
  }

  // ---- Writing one buffer, as a function of the script ----

  /** How writing ended, if not well, how many bytes it took, and the events left. */
  datatype Pushed = Pushed(stop: Option<IoError>, count: nat, script: seq<WriteEvent>)

  function PlusBytes(n: nat, p: Pushed): Pushed {
    p.(count := n + p.count)
  }

  function Push(len: nat, script: seq<WriteEvent>): (p: Pushed)
    ensures p.count <= len && (p.stop.None? ==> p.count == len)
    decreases |script|
  {
    if len == 0 then Pushed(None, 0, script)
    else if script == [] then Pushed(None, len, [])
    else
      match script[0]
      case Interrupt => Push(len, script[1..])
      case Failure => Pushed(Some(Failed), 0, script[1..])
      case Accept(size) =>
        if size == 0 then Pushed(Some(WriteZero), 0, script[1..])
        else if size < len then PlusBytes(size, Push(len - size, script[1..]))
        else Pushed(None, len, script[1..])
  }

  /** The bytes that these events accept in all. */
  function Accepted(script: seq<WriteEvent>): nat {
    if script == [] then 0
    else (if script[0].Accept? then script[0].size else 0) + Accepted(script[1..])
  }

  /** The first bad event, or the length of the script. */
  function FirstBad(script: seq<WriteEvent>): (k: nat)
    ensures k <= |script| && Willing(script[..k]) && (k < |script| ==> IsBad(script[k]))
  {
    if script == [] || IsBad(script[0]) then 0
    else
      var k := FirstBad(script[1..]);
      assert script[..k + 1] == [script[0]] + script[1..][..k];
      k + 1
  }

  /** Writing fails if and only if a bad event comes before the buffer is out; the
      error is that event's, and exactly the bytes accepted before it are written. */
  lemma {:induction false} PushExactly(len: nat, script: seq<WriteEvent>)
    ensures var k, p := FirstBad(script), Push(len, script);
            if k < |script| && Accepted(script[..k]) < len then
              p == Pushed(Some(ErrorOf(script[k])), Accepted(script[..k]), script[k + 1..])
            else p.stop.None?
    decreases |script|
  {
    if len > 0 && script != [] && !IsBad(script[0]) {
      var rest := script[1..];
      var k := FirstBad(rest);
      assert script[..k + 1][0] == script[0] && script[..k + 1][1..] == rest[..k];
      assert k < |rest| ==> script[k + 2..] == rest[k + 1..];
      if script[0].Interrupt? {
        PushExactly(len, rest);
      } else if script[0].size < len {
        PushExactly(len - script[0].size, rest);
      }
    }
  }

  /** Writing used a part of the script: no bad event unless the last is the one that
      stopped it, and no event after the bytes were out. */
  ghost predicate UsesPart(len: nat, script: seq<WriteEvent>, p: Pushed) {
    && |p.script| <= |script|
    && var used := |script| - |p.script|;
       && p.script == script[used..]
       && match p.stop
          case None => Willing(script[..used]) && (used > 0 ==> Accepted(script[..used - 1]) < len)
          case Some(kind) =>
            used > 0 && Willing(script[..used - 1]) && IsBad(script[used - 1]) && kind == ErrorOf(script[used - 1]) && p.count < len
  }

  lemma UsesOneMore(less: nat, len: nat, script: seq<WriteEvent>, q: Pushed, p: Pushed)
    requires script != [] && !IsBad(script[0]) && 0 < less && UsesPart(less, script[1..], q)
    requires len == less + if script[0].Accept? then script[0].size else 0
    requires p == PlusBytes(len - less, q)
    ensures UsesPart(len, script, p)
  {
    var rest := script[1..];
    var used := |rest| - |p.script|;
    assert script[..used + 1] == [script[0]] + rest[..used] && script[used + 1..] == rest[used..];
    if used > 0 {
      assert script[..used] == [script[0]] + rest[..used - 1];
      assert script[..used][0] == script[0] && script[..used][1..] == rest[..used - 1];
    } else {
      assert script[..0] == [];
    }
  }

  lemma UsesNone(len: nat, script: seq<WriteEvent>, p: Pushed)
    requires p.stop.None? && p.script == script
    ensures UsesPart(len, script, p)
  {
    assert script[..0] == [] && script[0..] == script;
  }

  lemma UsesLast(len: nat, script: seq<WriteEvent>, p: Pushed)
    requires script != [] && 0 < len && p.script == script[1..]
    requires if IsBad(script[0]) then p.stop == Some(ErrorOf(script[0])) && p.count == 0 else p.stop.None?
    ensures UsesPart(len, script, p)
  {
    assert script[..1] == [script[0]] && script[..0] == [];
  }

  lemma {:induction false} PushUses(len: nat, script: seq<WriteEvent>, p: Pushed)
    requires p == Push(len, script)
    ensures UsesPart(len, script, p)
    decreases |script|, 1
  {
    if len == 0 || script == [] {
      UsesNone(len, script, p);
    } else if script[0].Interrupt? {
      PushUses(len, script[1..], p);
      UsesOneMore(len, len, script, p, p);
    } else if script[0].Accept? && 0 < script[0].size < len {
      AcceptUses(len, script[0].size, script, p);
    } else {
      UsesLast(len, script, p);
    }
  }

  lemma {:induction false} AcceptUses(len: nat, size: nat, script: seq<WriteEvent>, p: Pushed)
    requires script != [] && script[0] == Accept(size) && 0 < size < len && p == Push(len, script)
    ensures UsesPart(len, script, p)
    decreases |script|, 0
  {
    var q := Push(len - size, script[1..]);
    PushUses(len - size, script[1..], q);
    UsesOneMore(len - size, len, script, q, p);
  }

  // ---- What an encoding hands over ----

  /** The bytes that are handed over, and the error that comes after them, if any. */
  datatype Plan = Plan(bytes: seq<byte>, end: Option<CodecError>)

  function Then(a: Plan, b: Plan): Plan {
    if a.end.Some? then a else Plan(a.bytes + b.bytes, b.end)
  }

  function PlanBytes(b: seq<byte>): Plan {
    Plan(b, None)
  }

  function PlanError(e: CodecError): Plan {
    Plan([], Some(e))
  }

  lemma ThenAssociates(a: Plan, b: Plan, c: Plan)
    ensures Then(a, Then(b, c)) == Then(Then(a, b), c)
  {
    Regroup(a.bytes, b.bytes, c.bytes);
  }

  lemma ThenNothing(a: Plan)
    ensures Then(a, PlanBytes([])) == a && Then(PlanBytes([]), a) == a
  {
    assert a.bytes + [] == a.bytes && [] + a.bytes == a.bytes;
  }

  /** A value's parts in the order in which they are written, up to the first that
      cannot be encoded. */
  function PlanOf(env: Env, ty: Ty, v: Val): Plan
    requires HasType(env, ty, v)
    decreases v, 1
  {
    match ty
    case TInt(_, width) => PlanBytes(LittleEndian(width, ToWord(width, v.i)))
    case TNonZero(_, width) => PlanBytes(LittleEndian(width, ToWord(width, v.i)))
    case TFloat(width) => if IsNaN(width, v.i) then PlanError(NaN) else PlanBytes(LittleEndian(width, v.i))
    case TBool => PlanBytes([if v.b then 1 else 0])
    case TUnit => PlanBytes([])
    case TString => PlanOfItems(env, U8, v.items)
    case TOption(some) => if v.VNone? then PlanBytes([0]) else Then(PlanBytes([1]), PlanOf(env, some, v.v))
    case TResult(ok, err) =>
      if v.VErr? then Then(PlanBytes([0]), PlanOf(env, err, v.v)) else Then(PlanBytes([1]), PlanOf(env, ok, v.v))
    case TTuple(elems) => PlanOfRow(env, elems, v.items)
    case TArray(elem, _) => PlanOfAll(env, elem, v.items)
    case TSeq(_, item) => if env.zst(item) then PlanError(ZeroSizedItems) else PlanOfItems(env, item, v.items)
    case TSet(_, member) => if env.zst(member) then PlanError(ZeroSizedItems) else PlanOfItems(env, member, v.items)
    case TMap(_, key, val) =>
      if env.zst(key) then PlanError(ZeroSizedItems) else PlanOfItems(env, TTuple([key, val]), v.items)
    case TNamed(name) =>
      match env.defs[name]
      case StructDef(_, fields) => PlanOfRow(env, FieldTys(fields), v.items)
      case EnumDef(variants) =>
        Then(PlanBytes([variants[v.variant].tag]), PlanOf(env, TNamed(variants[v.variant].payload), v.payload))
  }

  function PlanOfItems(env: Env, ty: Ty, items: seq<Val>): Plan
    requires AllHaveType(env, ty, items)
    decreases items, 1
  {
    if |items| > U32_MAX then PlanError(LengthTooLarge)
    else Then(PlanBytes(LittleEndian(4, |items|)), PlanOfAll(env, ty, items))
  }

  function PlanOfAll(env: Env, ty: Ty, items: seq<Val>): Plan
    requires AllHaveType(env, ty, items)
    decreases items, 0
  {
    if items == [] then PlanBytes([]) else Then(PlanOf(env, ty, items[0]), PlanOfAll(env, ty, items[1..]))
  }

  function PlanOfRow(env: Env, tys: seq<Ty>, items: seq<Val>): Plan
    requires RowHasTypes(env, tys, items)
    decreases items, 0
  {
    if items == [] then PlanBytes([]) else Then(PlanOf(env, tys[0], items[0]), PlanOfRow(env, tys[1..], items[1..]))
  }

  /** What a plan comes to when everything is accepted. */
  function Encodes(p: Plan): Encoded {
    if p.end.Some? then Err(p.end.value) else Ok(p.bytes)
  }

  /** The encoding is what the plan hands over, or the error it ends in. */
  lemma {:induction false} PlanIsEncoding(env: Env, ty: Ty, v: Val)
    requires HasType(env, ty, v)
    ensures Encode(env, ty, v) == Encodes(PlanOf(env, ty, v))
    decreases v, 1
  {
    match ty
    case TString => ItemsPlanIsEncoding(env, U8, v.items);
    case TOption(some) => if v.VSome? { PlanIsEncoding(env, some, v.v); }
    case TResult(ok, err) => PlanIsEncoding(env, if v.VOk? then ok else err, v.v);
    case TTuple(elems) => RowPlanIsEncoding(env, elems, v.items);
    case TArray(elem, _) => AllPlanIsEncoding(env, elem, v.items);
    case TSeq(_, item) => ItemsPlanIsEncoding(env, item, v.items);
    case TSet(_, member) => ItemsPlanIsEncoding(env, member, v.items);
    case TMap(_, key, val) => ItemsPlanIsEncoding(env, TTuple([key, val]), v.items);
    case TNamed(name) =>
      match env.defs[name] {
        case StructDef(_, fields) => RowPlanIsEncoding(env, FieldTys(fields), v.items);
        case EnumDef(variants) => PlanIsEncoding(env, TNamed(variants[v.variant].payload), v.payload);
      }
    case _ =>
  }

  lemma {:induction false} ItemsPlanIsEncoding(env: Env, ty: Ty, items: seq<Val>)
    requires AllHaveType(env, ty, items)
    ensures EncodeItems(env, ty, items) == Encodes(PlanOfItems(env, ty, items))
    decreases items, 1
  {
    AllPlanIsEncoding(env, ty, items);
  }

  lemma {:induction false} AllPlanIsEncoding(env: Env, ty: Ty, items: seq<Val>)
    requires AllHaveType(env, ty, items)
    ensures EncodeAll(env, ty, items) == Encodes(PlanOfAll(env, ty, items))
    decreases items, 0
  {
    if items != [] {
      PlanIsEncoding(env, ty, items[0]);
      AllPlanIsEncoding(env, ty, items[1..]);
    }
  }

  lemma {:induction false} RowPlanIsEncoding(env: Env, tys: seq<Ty>, items: seq<Val>)
    requires RowHasTypes(env, tys, items)
    ensures EncodeRow(env, tys, items) == Encodes(PlanOfRow(env, tys, items))
    decreases items, 0
  {
    if items != [] {
      PlanIsEncoding(env, tys[0], items[0]);
      RowPlanIsEncoding(env, tys[1..], items[1..]);
    }
  }

  /** A collection that is refused for its items or for its length is refused before
      any of it is written, and any other has its length written first. */
  lemma RefusedUnwritten(env: Env, ty: Ty, v: Val)
    requires (ty.TString? || ty.TSeq? || IsSorted(ty)) && HasType(env, ty, v)
    ensures var p := PlanOf(env, ty, v);
            if (ty.TSeq? && env.zst(ty.item)) || (ty.TSet? && env.zst(ty.member)) || (ty.TMap? && env.zst(ty.key)) then
              p == Plan([], Some(ZeroSizedItems))
            else if |v.items| > U32_MAX then p == Plan([], Some(LengthTooLarge))
            else |p.bytes| >= 4 && p.bytes[..4] == LittleEndian(4, |v.items|)
  {
  }

  /** The members of a row are handed over in turn, up to the first error. */
  lemma {:induction false} RowPlanInTurn(env: Env, tys: seq<Ty>, more: seq<Ty>, items: seq<Val>, rest: seq<Val>)
    requires RowHasTypes(env, tys, items) && RowHasTypes(env, more, rest)
    ensures RowHasTypes(env, tys + more, items + rest)
    ensures PlanOfRow(env, tys + more, items + rest) == Then(PlanOfRow(env, tys, items), PlanOfRow(env, more, rest))
    decreases |items|
  {
    if items == [] {
      assert tys + more == more && items + rest == rest;
      ThenNothing(PlanOfRow(env, more, rest));
    } else {
      assert (tys + more)[1..] == tys[1..] + more && (items + rest)[1..] == items[1..] + rest;
      RowPlanInTurn(env, tys[1..], more, items[1..], rest);
      ThenAssociates(PlanOf(env, tys[0], items[0]), PlanOfRow(env, tys[1..], items[1..]), PlanOfRow(env, more, rest));
    }
  }

  // ---- What a run comes to ----

  /** The events that were used up: the script from `from` on is left. */
  ghost predicate Used(script: seq<WriteEvent>, left: seq<WriteEvent>) {
    |left| <= |script| && left == script[|script| - |left|..]
  }

  /** A run wrote a plan: either no event that it used is bad, the bytes are all
      there and it ends as planned, or the last event it used is the first bad
      one, whose error it reports, with a proper part of the bytes written. */
  ghost predicate Wrote(plan: Plan, r: Result<(), CodecError>, before: seq<byte>, after: seq<byte>,
                        script: seq<WriteEvent>, left: seq<WriteEvent>) {
    && Used(script, left)
    && var used := |script| - |left|;
       || (Willing(script[..used]) && after == before + plan.bytes && r == if plan.end.Some? then Err(plan.end.value) else Ok(()))
       || (&& used > 0 && Willing(script[..used - 1]) && IsBad(script[used - 1])
           && before <= after < before + plan.bytes && r == Err(Io(ErrorOf(script[used - 1]))))
  }

  lemma UsedInTurn(a: seq<WriteEvent>, b: seq<WriteEvent>, c: seq<WriteEvent>)
    requires Used(a, b) && Used(b, c) && Willing(a[..|a| - |b|])
    ensures Used(a, c)
    ensures Willing(b[..|b| - |c|]) ==> Willing(a[..|a| - |c|])
    ensures |b| > |c| && Willing(b[..|b| - |c| - 1]) ==> Willing(a[..|a| - |c| - 1]) && a[|a| - |c| - 1] == b[|b| - |c| - 1]
  {
    assert a[..|a| - |c|] == a[..|a| - |b|] + b[..|b| - |c|];
    if |b| > |c| {
      assert a[..|a| - |c| - 1] == a[..|a| - |b|] + b[..|b| - |c| - 1];
    }
  }

  /** Writing one plan after another. */
  lemma WroteInTurn(p: Plan, q: Plan, r: Result<(), CodecError>, before: seq<byte>, between: seq<byte>, after: seq<byte>,
                    script: seq<WriteEvent>, middle: seq<WriteEvent>, left: seq<WriteEvent>)
    requires Wrote(p, Ok(()), before, between, script, middle)
    requires Wrote(q, r, between, after, middle, left)
    ensures Wrote(Then(p, q), r, before, after, script, left)
  {
    UsedInTurn(script, middle, left);
    Regroup(before, p.bytes, q.bytes);
  }

  /** A plan that fails keeps the rest from being written. */
  lemma WroteUpTo(p: Plan, q: Plan, e: CodecError, before: seq<byte>, after: seq<byte>, script: seq<WriteEvent>, left: seq<WriteEvent>)
    requires Wrote(p, Err(e), before, after, script, left)
    ensures Wrote(Then(p, q), Err(e), before, after, script, left)
  {
    Regroup(before, p.bytes, q.bytes);
  }

  lemma WroteNothing(before: seq<byte>, script: seq<WriteEvent>)
    ensures Wrote(PlanBytes([]), Ok(()), before, before, script, script)
    ensures forall e :: Wrote(PlanError(e), Err(e), before, before, script, script)
  {
    assert before + [] == before;
    assert script[..0] == [] && script[0..] == script;
  }

  /** A willing sink takes everything, and leaves the error, if any, to the plan. */
  lemma WillingTakesAll(plan: Plan, r: Result<(), CodecError>, before: seq<byte>, after: seq<byte>,
                        script: seq<WriteEvent>, left: seq<WriteEvent>)
    requires Wrote(plan, r, before, after, script, left) && Willing(script)
    ensures after == before + plan.bytes && r == (if plan.end.Some? then Err(plan.end.value) else Ok(())) && Willing(left)
  {
    var used := |script| - |left|;
    assert used > 0 ==> script[used - 1] in script;
    assert forall e | e in left :: e in script;
  }
}
