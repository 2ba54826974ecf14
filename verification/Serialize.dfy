/** The encoder as it runs: writing to a sink that may accept only part of each write. */
module Serialize {
  import opened Bytes
  import opened Wrappers
  import opened Types
  import opened Codec
  import opened Writes
  import H = Hashing

  /** An append-only log with a script of how its writes behave; once the
      script has run out, each write is accepted whole, as for a vector. */
  class Sink {
    var out: seq<byte>
    var script: seq<WriteEvent>

    constructor (script: seq<WriteEvent>)
      ensures out == [] && this.script == script
    {
      out := [];
      this.script := script;
    }

    method Write(buf: seq<byte>) returns (r: Result<nat, IoError>)
      modifies this
      ensures script == if old(script) == [] then [] else old(script)[1..]
      ensures if old(script) == [] then r == Ok(|buf|)
              else
                match old(script)[0]
                case Accept(size) => r == Ok(if size < |buf| then size else |buf|)
                case Interrupt => r == Err(Interrupted)
                case Failure => r == Err(Failed)
      ensures out == if r.Ok? then old(out) + buf[..r.value] else old(out)
    {
      var n := |buf|;
      if script != [] {
        var event := script[0];
        script := script[1..];
        match event {
          case Interrupt => return Err(Interrupted);
          case Failure => return Err(Failed);
          case Accept(size) => n := if size < n then size else n;
        }
      }
      out := out + buf[..n];
      return Ok(n);
    }

    /** Writes the whole buffer, retrying interrupted writes and no others. */
    method WriteAll(buf: seq<byte>) returns (r: Result<(), IoError>)
      modifies this
      ensures var p := Push(|buf|, old(script));
              && script == p.script && p.count <= |buf| && out == old(out) + buf[..p.count]
              && r == if p.stop.Some? then Err(p.stop.value) else Ok(())
    {
      ghost var p := Push(|buf|, script);
      var rest := buf;
      while rest != []
        invariant |rest| <= |buf| && rest == buf[|buf| - |rest|..]
        invariant out == old(out) + buf[..|buf| - |rest|]
        invariant p == PlusBytes(|buf| - |rest|, Push(|rest|, script))
        decreases |script|, |rest|
      {
        ghost var written := |buf| - |rest|;
        var n := Write(rest);
        match n {
          case Ok(count) =>
            if count == 0 {
              return Err(WriteZero);
            }
            assert buf[..written] + buf[written..][..count] == buf[..written + count];
            rest := rest[count..];
          case Err(kind) =>
            if kind != Interrupted {
              return Err(kind);
            }
        }
      }
      assert buf[..|buf|] == buf;
      return Ok(());
    }
  }

  // ---- The byte fast path ----

  /** Writing bytes one by one is the same as writing them all at once. */
  lemma {:induction false} BulkBytes(env: Env, items: seq<Val>)
    requires AllHaveType(env, U8, items)
    ensures EncodeAll(env, U8, items) == Ok(BytesOf(items))
  {
    if items != [] {
      BulkBytes(env, items[1..]);
      var v := items[0].i;
      assert LittleEndian(1, v) == [v] by {
        assert Pow256(1) == 256 * Pow256(0);
      }
      assert [v] + BytesOf(items[1..]) == BytesOf(items);
    }
  }

  lemma RowTail(env: Env, tys: seq<Ty>, items: seq<Val>, i: nat)
    requires RowHasTypes(env, tys, items) && i <= |items|
    ensures RowHasTypes(env, tys[i..], items[i..])
  {
  }

  lemma {:induction false} BulkPlan(env: Env, items: seq<Val>)
    requires AllHaveType(env, U8, items)
    ensures PlanOfAll(env, U8, items) == PlanBytes(BytesOf(items))
  {
    if items != [] {
      BulkPlan(env, items[1..]);
      var v := items[0].i;
      assert LittleEndian(1, v) == [v] by {
        assert Pow256(1) == 256 * Pow256(0);
      }
      assert [v] + BytesOf(items[1..]) == BytesOf(items);
    }
  }

  /** Encoding two slices in turn is encoding their concatenation. */
  lemma {:induction false} TwoSlices(env: Env, ty: Ty, front: seq<Val>, back: seq<Val>)
    requires AllHaveType(env, ty, front) && AllHaveType(env, ty, back) && AllHaveType(env, ty, front + back)
    ensures PlanOfAll(env, ty, front + back) == Then(PlanOfAll(env, ty, front), PlanOfAll(env, ty, back))
    decreases |front|
  {
    var rest := PlanOfAll(env, ty, back);
    if front == [] {
      assert front + back == back;
      ThenNothing(rest);
    } else {
      assert (front + back)[1..] == front[1..] + back && (front + back)[0] == front[0];
      TwoSlices(env, ty, front[1..], back);
      ThenAssociates(PlanOf(env, ty, front[0]), PlanOfAll(env, ty, front[1..]), rest);
    }
  }

  method WriteBytes(b: seq<byte>, w: Sink) returns (r: Result<(), CodecError>)
    modifies w
    ensures Wrote(PlanBytes(b), r, old(w.out), w.out, old(w.script), w.script)
  {
    PushUses(|b|, w.script, Push(|b|, w.script));
    var done := w.WriteAll(b);
    return match done
      case Ok(_) => Ok(())
      case Err(kind) => Err(Io(kind));
  }

  // ---- Values ----

  method SerializeValue(env: Env, ty: Ty, v: Val, w: Sink) returns (r: Result<(), CodecError>)
    requires StrictTotalOrder(env.less) && HasType(env, ty, v)
    modifies w
    ensures Wrote(PlanOf(env, ty, v), r, old(w.out), w.out, old(w.script), w.script)
    decreases v, 4
  {
    WroteNothing(w.out, w.script);
    if ty.TInt? {
      r := WriteBytes(LittleEndian(ty.intWidth, ToWord(ty.intWidth, v.i)), w);
    } else if ty.TNonZero? {
      r := WriteBytes(LittleEndian(ty.nzWidth, ToWord(ty.nzWidth, v.i)), w);
    } else if ty.TFloat? {
      if IsNaN(ty.floatWidth, v.i) {
        return Err(NaN);
      }
      r := WriteBytes(LittleEndian(ty.floatWidth, v.i), w);
    } else if ty.TBool? {
      r := WriteBytes([if v.b then 1 else 0], w);
    } else if ty.TUnit? {
      r := Ok(());
    } else if ty.TOption? || ty.TResult? {
      r := SerializeTagged(env, ty, v, w);
    } else if ty.TTuple? {
      r := SerializeRow(env, ty.elems, v.items, v, w);
    } else if ty.TArray? {
      r := SerializeSlice(env, ty.elem, v.items, v, w);
    } else if ty.TNamed? {
      r := SerializeNamed(env, ty.name, v, w);
    } else {
      r := SerializeCollection(env, ty, v, w);
    }
  }

  method SerializeTagged(env: Env, ty: Ty, v: Val, w: Sink) returns (r: Result<(), CodecError>)
    requires StrictTotalOrder(env.less) && HasType(env, ty, v) && (ty.TOption? || ty.TResult?)
    modifies w
    ensures Wrote(PlanOf(env, ty, v), r, old(w.out), w.out, old(w.script), w.script)
    decreases v, 3
  {
    if v.VNone? {
      r := WriteBytes([0], w);
    } else if v.VSome? {
      r := SerializeBody(env, 1, ty.some, v.v, w);
    } else if v.VErr? {
      r := SerializeBody(env, 0, ty.err, v.v, w);
    } else {
      r := SerializeBody(env, 1, ty.ok, v.v, w);
    }
  }

  /** A tag byte and then the value it announces. */
  method SerializeBody(env: Env, tag: byte, ty: Ty, v: Val, w: Sink) returns (r: Result<(), CodecError>)
    requires StrictTotalOrder(env.less) && HasType(env, ty, v)
    modifies w
    ensures Wrote(Then(PlanBytes([tag]), PlanOf(env, ty, v)), r, old(w.out), w.out, old(w.script), w.script)
    decreases v, 5
  {
    r := WriteBytes([tag], w);
    if r.Err? {
      WroteUpTo(PlanBytes([tag]), PlanOf(env, ty, v), r.error, old(w.out), w.out, old(w.script), w.script);
      return;
    }
    ghost var out, script := w.out, w.script;
    r := SerializeValue(env, ty, v, w);
    WroteInTurn(PlanBytes([tag]), PlanOf(env, ty, v), r, old(w.out), out, w.out, old(w.script), script, w.script);
  }

  method SerializeNamed(env: Env, name: string, v: Val, w: Sink) returns (r: Result<(), CodecError>)
    requires StrictTotalOrder(env.less) && HasType(env, TNamed(name), v)
    modifies w
    ensures Wrote(PlanOf(env, TNamed(name), v), r, old(w.out), w.out, old(w.script), w.script)
    decreases v, 3
  {
    match env.defs[name] {
      case StructDef(_, fields) =>
        r := SerializeRow(env, FieldTys(fields), v.items, v, w);
      case EnumDef(variants) =>
        r := SerializeBody(env, variants[v.variant].tag, TNamed(variants[v.variant].payload), v.payload, w);
    }
  }

  method SerializeCollection(env: Env, ty: Ty, v: Val, w: Sink) returns (r: Result<(), CodecError>)
    requires StrictTotalOrder(env.less) && HasType(env, ty, v) && (ty.TString? || ty.TSeq? || IsSorted(ty))
    modifies w
    ensures Wrote(PlanOf(env, ty, v), r, old(w.out), w.out, old(w.script), w.script)
    decreases v, 3
  {
    WroteNothing(w.out, w.script);
    if (ty.TSeq? && env.zst(ty.item)) || (ty.TSet? && env.zst(ty.member)) || (ty.TMap? && env.zst(ty.key)) {
      return Err(ZeroSizedItems);
    }
    var item := match ty
      case TString => U8
      case TSeq(_, item) => item
      case TSet(_, member) => member
      case TMap(_, key, val) => TTuple([key, val]);
    if IsSorted(ty) && (if ty.TSet? then ty.setKind else ty.mapKind).Hash? {
      // A hash table hands its entries out in an order of its own, and the
      // encoder sorts them.
      var iteration := HashOrder(v.items);
      var sorted := SortItems(env, ty, iteration);
      H.OrderIrrelevant(env, ty, v.items, iteration);
      r := SerializeItems(env, item, sorted, |sorted|, v, w);
    } else {
      // A deque hands its items out as two slices, split wherever its ring
      // buffer wraps; every other collection is one slice.
      var split: nat := |v.items|;
      if ty.TSeq? && ty.seqKind.VecDeque? {
        split :| split <= |v.items|;
      }
      r := SerializeItems(env, item, v.items, split, v, w);
    }
  }

  /** Some enumeration of the entries, with no promise about its order. */
  method HashOrder(items: seq<Val>) returns (iteration: seq<Val>)
    ensures forall x :: x in iteration <==> x in items
  {
    iteration := [];
    var left := items;
    while left != []
      invariant forall x :: x in items <==> x in left || x in iteration
      decreases |left|
    {
      var i: nat :| i < |left|;
      assert forall x :: x in left <==> x in left[..i] || x == left[i] || x in left[i + 1..];
      iteration := iteration + [left[i]];
      left := left[..i] + left[i + 1..];
    }
  }

  /** Sorting by key, one item at a time. */
  method SortItems(env: Env, ty: Ty, iteration: seq<Val>) returns (sorted: seq<Val>)
    ensures sorted == Collect(env, ty, iteration)
  {
    sorted := [];
    var i := 0;
    while i < |iteration|
      invariant 0 <= i <= |iteration|
      invariant sorted == Collect(env, ty, iteration[..i])
    {
      assert iteration[..i + 1][..i] == iteration[..i];
      sorted := Insert(env, ty, sorted, iteration[i]);
      i := i + 1;
    }
    assert iteration[..i] == iteration;
  }

  /** A 32-bit count and then the items, as the slices on either side of `split`. */
  method SerializeItems(env: Env, ty: Ty, items: seq<Val>, split: nat, ghost owner: Val, w: Sink) returns (r: Result<(), CodecError>)
    requires StrictTotalOrder(env.less) && AllHaveType(env, ty, items) && split <= |items|
    requires forall i | 0 <= i < |items| :: items[i] < owner
    modifies w
    ensures Wrote(PlanOfItems(env, ty, items), r, old(w.out), w.out, old(w.script), w.script)
    decreases owner, 2
  {
    WroteNothing(w.out, w.script);
    if |items| > U32_MAX {
      return Err(LengthTooLarge);
    }
    ghost var length, all := PlanBytes(LittleEndian(4, |items|)), PlanOfAll(env, ty, items);
    r := WriteBytes(LittleEndian(4, |items|), w);
    if r.Err? {
      WroteUpTo(length, all, r.error, old(w.out), w.out, old(w.script), w.script);
      return;
    }
    ghost var out, script := w.out, w.script;
    r := SerializeSlices(env, ty, items, split, owner, w);
    WroteInTurn(length, all, r, old(w.out), out, w.out, old(w.script), script, w.script);
  }

  method SerializeSlices(env: Env, ty: Ty, items: seq<Val>, split: nat, ghost owner: Val, w: Sink) returns (r: Result<(), CodecError>)
    requires StrictTotalOrder(env.less) && AllHaveType(env, ty, items) && split <= |items|
    requires forall i | 0 <= i < |items| :: items[i] < owner
    modifies w
    ensures Wrote(PlanOfAll(env, ty, items), r, old(w.out), w.out, old(w.script), w.script)
    decreases owner, 2, 0
  {
    assert items == items[..split] + items[split..];
    TwoSlices(env, ty, items[..split], items[split..]);
    ghost var front, back := PlanOfAll(env, ty, items[..split]), PlanOfAll(env, ty, items[split..]);
    r := SerializeSlice(env, ty, items[..split], owner, w);
    if r.Err? {
      WroteUpTo(front, back, r.error, old(w.out), w.out, old(w.script), w.script);
      return;
    }
    ghost var out, script := w.out, w.script;
    r := SerializeSlice(env, ty, items[split..], owner, w);
    WroteInTurn(front, back, r, old(w.out), out, w.out, old(w.script), script, w.script);
  }

  /** The items alone: bytes in one write, anything else one by one. */
  method SerializeSlice(env: Env, ty: Ty, items: seq<Val>, ghost owner: Val, w: Sink) returns (r: Result<(), CodecError>)
    requires StrictTotalOrder(env.less) && AllHaveType(env, ty, items)
    requires forall i | 0 <= i < |items| :: items[i] < owner
    modifies w
    ensures Wrote(PlanOfAll(env, ty, items), r, old(w.out), w.out, old(w.script), w.script)
    decreases owner, 1
  {
    if ty == U8 {
      BulkPlan(env, items);
      r := WriteBytes(BytesOf(items), w);
    } else {
      r := SerializeEach(env, ty, items, owner, w);
    }
  }

  method SerializeEach(env: Env, ty: Ty, items: seq<Val>, ghost owner: Val, w: Sink) returns (r: Result<(), CodecError>)
    requires StrictTotalOrder(env.less) && AllHaveType(env, ty, items)
    requires forall i | 0 <= i < |items| :: items[i] < owner
    modifies w
    ensures Wrote(PlanOfAll(env, ty, items), r, old(w.out), w.out, old(w.script), w.script)
    decreases owner, 0
  {
    ghost var all := PlanOfAll(env, ty, items);
    ghost var done := PlanBytes([]);
    assert items[0..] == items;
    ThenNothing(all);
    WroteNothing(w.out, w.script);
    var i := 0;
    while i < |items|
      invariant 0 <= i <= |items|
      invariant Wrote(done, Ok(()), old(w.out), w.out, old(w.script), w.script)
      invariant all == Then(done, PlanOfAll(env, ty, items[i..]))
    {
      assert items[i..][1..] == items[i + 1..];
      r, done := SerializeItem(env, ty, items[i..], done, old(w.out), old(w.script), w);
      if r.Err? {
        return;
      }
      i := i + 1;
    }
    ThenNothing(done);
    return Ok(());
  }

  /** One round of the item loop: `items` remain and `done` has been written. */
  method SerializeItem(env: Env, ty: Ty, items: seq<Val>, ghost done: Plan, ghost out: seq<byte>, ghost script: seq<WriteEvent>, w: Sink)
      returns (r: Result<(), CodecError>, ghost next: Plan)
    requires StrictTotalOrder(env.less) && AllHaveType(env, ty, items) && items != []
    requires Wrote(done, Ok(()), out, w.out, script, w.script)
    modifies w
    ensures r.Ok? ==> Wrote(next, r, out, w.out, script, w.script)
    ensures r.Ok? ==> Then(done, PlanOfAll(env, ty, items)) == Then(next, PlanOfAll(env, ty, items[1..]))
    ensures r.Err? ==> Wrote(Then(done, PlanOfAll(env, ty, items)), r, out, w.out, script, w.script)
    decreases items[0], 5
  {
    ghost var one, rest := PlanOf(env, ty, items[0]), PlanOfAll(env, ty, items[1..]);
    ghost var before, events := w.out, w.script;
    next := Then(done, one);
    r := SerializeValue(env, ty, items[0], w);
    WroteInTurn(done, one, r, out, before, w.out, script, events, w.script);
    ThenAssociates(done, one, rest);
    if r.Err? {
      WroteUpTo(next, rest, r.error, out, w.out, script, w.script);
    }
  }

  method SerializeRow(env: Env, tys: seq<Ty>, items: seq<Val>, ghost owner: Val, w: Sink) returns (r: Result<(), CodecError>)
    requires StrictTotalOrder(env.less) && RowHasTypes(env, tys, items)
    requires forall i | 0 <= i < |items| :: items[i] < owner
    modifies w
    ensures Wrote(PlanOfRow(env, tys, items), r, old(w.out), w.out, old(w.script), w.script)
    decreases owner, 0
  {
    ghost var all := PlanOfRow(env, tys, items);
    ghost var done := PlanBytes([]);
    assert items[0..] == items && tys[0..] == tys;
    ThenNothing(all);
    WroteNothing(w.out, w.script);
    var i := 0;
    while i < |items|
      invariant 0 <= i <= |items|
      invariant Wrote(done, Ok(()), old(w.out), w.out, old(w.script), w.script)
      invariant RowHasTypes(env, tys[i..], items[i..]) && all == Then(done, PlanOfRow(env, tys[i..], items[i..]))
    {
      assert items[i..][1..] == items[i + 1..] && tys[i..][1..] == tys[i + 1..];
      RowTail(env, tys, items, i + 1);
      r, done := SerializeField(env, tys[i..], items[i..], done, old(w.out), old(w.script), w);
      if r.Err? {
        return;
      }
      i := i + 1;
    }
    ThenNothing(done);
    return Ok(());
  }

  /** One field of a row: `items` remain and `done` has been written. */
  method SerializeField(env: Env, tys: seq<Ty>, items: seq<Val>, ghost done: Plan, ghost out: seq<byte>, ghost script: seq<WriteEvent>, w: Sink)
      returns (r: Result<(), CodecError>, ghost next: Plan)
    requires StrictTotalOrder(env.less) && RowHasTypes(env, tys, items) && items != []
    requires Wrote(done, Ok(()), out, w.out, script, w.script)
    modifies w
    ensures r.Ok? ==> Wrote(next, r, out, w.out, script, w.script)
    ensures r.Ok? ==> Then(done, PlanOfRow(env, tys, items)) == Then(next, PlanOfRow(env, tys[1..], items[1..]))
    ensures r.Err? ==> Wrote(Then(done, PlanOfRow(env, tys, items)), r, out, w.out, script, w.script)
    decreases items[0], 5
  {
    ghost var one, rest := PlanOf(env, tys[0], items[0]), PlanOfRow(env, tys[1..], items[1..]);
    ghost var before, events := w.out, w.script;
    next := Then(done, one);
    r := SerializeValue(env, tys[0], items[0], w);
    WroteInTurn(done, one, r, out, before, w.out, script, events, w.script);
    ThenAssociates(done, one, rest);
    if r.Err? {
      WroteUpTo(next, rest, r.error, out, w.out, script, w.script);
    }
  }

  /** Encoding into a fresh vector gives the encoding, or its error. */
  method ToVec(env: Env, ty: Ty, v: Val) returns (r: Encoded)
    requires StrictTotalOrder(env.less) && HasType(env, ty, v)
    ensures r == Encode(env, ty, v)
  {
    PlanIsEncoding(env, ty, v);
    var w := new Sink([]);
    var done := SerializeValue(env, ty, v, w);
    WillingTakesAll(PlanOf(env, ty, v), done, [], w.out, [], w.script);
    assert [] + PlanOf(env, ty, v).bytes == PlanOf(env, ty, v).bytes;
    return match done
      case Ok(_) => Ok(w.out)
      case Err(e) => Err(e);
  }
}
