/** The example codec for JSON trees: mutually recursive, written by hand. */
module Json {
  import opened Bytes
  import opened Wrappers
  import opened Types
  import opened Codec
  import opened RoundTrip

  // A tree is a value: the variant is its kind (null, boolean, number, string,
  // array, object) and the payload its contents. A number is a value as well:
  // its variant says whether it is non-negative, negative or a float.

  /** An object orders its entries by key, whatever their values. */
  const ENTRIES := TMap(BTree, TString, TUnit)

  function NumberTy(form: nat): Ty {
    if form == 0 then TInt(false, 8) else if form == 1 then TInt(true, 8) else TFloat(8)
  }

  /** The exponent of the double is not all ones. */
  predicate IsFinite(bits: nat) {
    bits % 0x8000_0000_0000_0000 < 0x7FF0_0000_0000_0000
  }

  ghost predicate IsNumber(env: Env, n: Val) {
    && n.VEnum? && n.variant <= 2
    && HasType(env, NumberTy(n.variant), n.payload)
    && (n.variant == 1 ==> n.payload.i < 0)
    && (n.variant == 2 ==> IsFinite(n.payload.i))
  }

  ghost predicate IsJson(env: Env, v: Val)
    decreases v, 0
  {
    && v.VEnum? && v.variant <= 5
    && var p := v.payload;
       if v.variant == 0 then p == VTuple([])
       else if v.variant == 1 then HasType(env, TBool, p)
       else if v.variant == 2 then IsNumber(env, p)
       else if v.variant == 3 then HasType(env, TString, p)
       else p.VSeq? && AllJson(env, v.variant == 5, p.items) && (v.variant == 5 ==> Ascending(env, ENTRIES, p.items))
  }

  ghost predicate AllJson(env: Env, keyed: bool, items: seq<Val>)
    decreases items, 2
  {
    forall i | 0 <= i < |items| :: ItemIsJson(env, keyed, items[i])
  }

  /** A tree of an array, or a key and a tree of an object. */
  ghost predicate ItemIsJson(env: Env, keyed: bool, item: Val)
    decreases item, 1
  {
    if keyed then item.VTuple? && |item.items| == 2 && HasType(env, TString, item.items[0]) && IsJson(env, item.items[1])
    else IsJson(env, item)
  }

  // ---- Encoding ----

  function EncodeJson(env: Env, v: Val): Encoded
    requires IsJson(env, v)
    decreases v, 0
  {
    var p := v.payload;
    var body :-
      if v.variant == 0 then Ok([])
      else if v.variant == 1 then Encode(env, TBool, p)
      else if v.variant == 2 then EncodeNumber(env, p)
      else if v.variant == 3 then Encode(env, TString, p)
      else EncodeJsons(env, v.variant == 5, p.items);
    Ok([v.variant] + body)
  }

  function EncodeNumber(env: Env, n: Val): Encoded
    requires IsNumber(env, n)
  {
    var body :- Encode(env, NumberTy(n.variant), n.payload);
    Ok([n.variant] + body)
  }

  /** A 32-bit count and then the trees of an array or the entries of an object. */
  function EncodeJsons(env: Env, keyed: bool, items: seq<Val>): Encoded
    requires AllJson(env, keyed, items)
    decreases items, 3
  {
    if |items| > U32_MAX then Err(LengthTooLarge)
    else
      var body :- EncodeEach(env, keyed, items);
      Ok(LittleEndian(4, |items|) + body)
  }

  function EncodeEach(env: Env, keyed: bool, items: seq<Val>): Encoded
    requires AllJson(env, keyed, items)
    decreases items, 2
  {
    if items == [] then Ok([])
    else
      var first :- EncodeItem(env, keyed, items[0]);
      var rest :- EncodeEach(env, keyed, items[1..]);
      Ok(first + rest)
  }

  function EncodeItem(env: Env, keyed: bool, item: Val): Encoded
    requires ItemIsJson(env, keyed, item)
    decreases item, 1
  {
    if !keyed then EncodeJson(env, item)
    else
      var key :- Encode(env, TString, item.items[0]);
      var value :- EncodeJson(env, item.items[1]);
      Ok(key + value)
  }

  // ---- Decoding ----

  /** The decoder, when `plain` is false. The plain reference decoder refuses
      two things that the decoder accepts: a non-negative number in the form
      for negative ones, and entries whose keys are not strictly ascending. */
  function DecodeJson(env: Env, plain: bool, b: seq<byte>): (r: Result<Parsed, CodecError>)
    requires WellFormed(env)
    ensures r.Ok? ==> |r.value.rest| < |b|
    decreases |b|, 0
  {
    var (kind, rest) :- DecodeWord(b, 1);
    if kind == 0 then Ok(Parsed(VEnum(0, VTuple([])), rest))
    else if kind == 1 then
      var p :- Decode(env, true, TBool, rest);
      Ok(Parsed(VEnum(1, p.value), p.rest))
    else if kind == 2 then
      var p :- DecodeNumber(env, plain, rest);
      Ok(Parsed(VEnum(2, p.value), p.rest))
    else if kind == 3 then
      var p :- Decode(env, true, TString, rest);
      Ok(Parsed(VEnum(3, p.value), p.rest))
    else if kind == 4 then
      var p :- DecodeJsons(env, plain, false, rest);
      Ok(Parsed(VEnum(4, VSeq(p.values)), p.rest))
    else if kind == 5 then
      var p :- DecodeJsons(env, plain, true, rest);
      if plain && !Ascending(env, ENTRIES, p.values) then Err(WrongOrder)
      else Ok(Parsed(VEnum(5, VSeq(Collect(env, ENTRIES, p.values))), p.rest))
    else
      Pow256Values(); Err(UnexpectedTag(kind))
  }

  function DecodeNumber(env: Env, plain: bool, b: seq<byte>): (r: Result<Parsed, CodecError>)
    requires WellFormed(env)
    ensures r.Ok? ==> |r.value.rest| < |b|
  {
    var (form, rest) :- DecodeWord(b, 1);
    if form > 2 then Pow256Values(); Err(UnexpectedTag(form))
    else
      var p :- Decode(env, true, NumberTy(form), rest);
      if form == 1 && p.value.i >= 0 then
        if plain then Err(UnexpectedTag(1)) else Ok(Parsed(VEnum(0, p.value), p.rest))
      else if form == 2 && !IsFinite(p.value.i) then Err(InfiniteNumber)
      else Ok(Parsed(VEnum(form, p.value), p.rest))
  }

  function DecodeJsons(env: Env, plain: bool, keyed: bool, b: seq<byte>): (r: Result<ParsedRow, CodecError>)
    requires WellFormed(env)
    ensures r.Ok? ==> |r.value.rest| < |b|
    decreases |b|, 3
  {
    var (count, rest) :- DecodeWord(b, 4);
    DecodeEach(env, plain, keyed, count, rest)
  }

  function DecodeEach(env: Env, plain: bool, keyed: bool, count: nat, b: seq<byte>): (r: Result<ParsedRow, CodecError>)
    requires WellFormed(env)
    ensures r.Ok? ==> |r.value.rest| <= |b|
    decreases |b|, 2
  {
    if count == 0 then Ok(ParsedRow([], b))
    else
      var first :- DecodeItem(env, plain, keyed, b);
      var rest :- DecodeEach(env, plain, keyed, count - 1, first.rest);
      Ok(ParsedRow([first.value] + rest.values, rest.rest))
  }

  function DecodeItem(env: Env, plain: bool, keyed: bool, b: seq<byte>): (r: Result<Parsed, CodecError>)
    requires WellFormed(env)
    ensures r.Ok? ==> |r.value.rest| < |b|
    decreases |b|, 1
  {
    if !keyed then DecodeJson(env, plain, b)
    else
      var key :- Decode(env, true, TString, b);
      var value :- DecodeJson(env, plain, key.rest);
      Ok(Parsed(VTuple([key.value, value.value]), value.rest))
  }

  // ---- Decoding undoes encoding ----

  /** Decoding an encoded tree, whatever follows it, gives the tree back and
      leaves exactly what follows; the plain decoder does so too. */
  lemma {:induction false} JsonBack(env: Env, plain: bool, v: Val, rest: seq<byte>)
    requires WellFormed(env) && IsJson(env, v) && EncodeJson(env, v).Ok?
    ensures DecodeJson(env, plain, EncodeJson(env, v).value + rest) == Ok(Parsed(v, rest))
    decreases v, 0
  {
    var p := v.payload;
    var body := EncodeJson(env, v).value[1..];
    assert EncodeJson(env, v).value == [v.variant] + body;
    Regroup([v.variant], body, rest);
    TagBack(v.variant, body + rest);
    if v.variant == 0 {
      assert [] + rest == rest;
    } else if v.variant == 1 {
      DecodeEncode(env, true, TBool, p, rest);
    } else if v.variant == 2 {
      NumberBack(env, plain, p, rest);
    } else if v.variant == 3 {
      DecodeEncode(env, true, TString, p, rest);
    } else {
      JsonsBack(env, plain, v.variant == 5, p.items, rest);
      if v.variant == 5 {
        CollectAscending(env, ENTRIES, p.items);
      }
    }
  }

  lemma NumberBack(env: Env, plain: bool, n: Val, rest: seq<byte>)
    requires WellFormed(env) && IsNumber(env, n) && EncodeNumber(env, n).Ok?
    ensures DecodeNumber(env, plain, EncodeNumber(env, n).value + rest) == Ok(Parsed(n, rest))
  {
    BodyBack(env, true, NumberTy(n.variant), n.variant, n.payload, rest);
  }

  lemma {:induction false} JsonsBack(env: Env, plain: bool, keyed: bool, items: seq<Val>, rest: seq<byte>)
    requires WellFormed(env) && AllJson(env, keyed, items) && EncodeJsons(env, keyed, items).Ok?
    ensures DecodeJsons(env, plain, keyed, EncodeJsons(env, keyed, items).value + rest) == Ok(ParsedRow(items, rest))
    decreases items, 3
  {
    Pow256Values();
    var body := EncodeEach(env, keyed, items).value;
    Regroup(LittleEndian(4, |items|), body, rest);
    WordBack(4, |items|, body + rest);
    EachBack(env, plain, keyed, items, rest);
  }

  lemma {:induction false} EachBack(env: Env, plain: bool, keyed: bool, items: seq<Val>, rest: seq<byte>)
    requires WellFormed(env) && AllJson(env, keyed, items) && EncodeEach(env, keyed, items).Ok?
    ensures DecodeEach(env, plain, keyed, |items|, EncodeEach(env, keyed, items).value + rest) == Ok(ParsedRow(items, rest))
    decreases items, 2
  {
    if items == [] {
      assert [] + rest == rest;
    } else {
      var first, tail := EncodeItem(env, keyed, items[0]).value, EncodeEach(env, keyed, items[1..]).value;
      Regroup(first, tail, rest);
      ItemBack(env, plain, keyed, items[0], tail + rest);
      EachBack(env, plain, keyed, items[1..], rest);
      assert [items[0]] + items[1..] == items;
    }
  }

  lemma {:induction false} ItemBack(env: Env, plain: bool, keyed: bool, item: Val, rest: seq<byte>)
    requires WellFormed(env) && ItemIsJson(env, keyed, item) && EncodeItem(env, keyed, item).Ok?
    ensures DecodeItem(env, plain, keyed, EncodeItem(env, keyed, item).value + rest) == Ok(Parsed(item, rest))
    decreases item, 1
  {
    if !keyed {
      JsonBack(env, plain, item, rest);
    } else {
      var key, value := Encode(env, TString, item.items[0]).value, EncodeJson(env, item.items[1]).value;
      Regroup(key, value, rest);
      DecodeEncode(env, true, TString, item.items[0], value + rest);
      JsonBack(env, plain, item.items[1], rest);
      assert item.items == [item.items[0], item.items[1]];
    }
  }

  // ---- What decoding accepts ----

  /** What a successful decode guarantees about the tree, the rest and, for the
      plain decoder, the bytes consumed. */
  ghost predicate Sound(env: Env, plain: bool, b: seq<byte>, p: Parsed) {
    && IsJson(env, p.value) && EncodeJson(env, p.value).Ok?
    && (plain ==> b == EncodeJson(env, p.value).value + p.rest)
  }

  ghost predicate ItemSound(env: Env, plain: bool, keyed: bool, b: seq<byte>, p: Parsed) {
    && ItemIsJson(env, keyed, p.value) && EncodeItem(env, keyed, p.value).Ok?
    && (plain ==> b == EncodeItem(env, keyed, p.value).value + p.rest)
  }

  ghost predicate EachSound(env: Env, plain: bool, keyed: bool, b: seq<byte>, p: ParsedRow) {
    && AllJson(env, keyed, p.values) && EncodeEach(env, keyed, p.values).Ok?
    && (plain ==> b == EncodeEach(env, keyed, p.values).value + p.rest)
  }

  lemma {:induction false} JsonConsumed(env: Env, plain: bool, b: seq<byte>)
    requires WellFormed(env) && DecodeJson(env, plain, b).Ok?
    ensures Sound(env, plain, b, DecodeJson(env, plain, b).value)
    decreases |b|, 0
  {
    TagConsumed(b);
    var kind, rest := b[0], b[1..];
    if kind == 0 {
      assert [0] + [] == [0];
    } else if kind == 1 || kind == 3 {
      var ty := if kind == 1 then TBool else TString;
      EncodeDecode(env, true, ty, rest);
      var p := Decode(env, true, ty, rest).value;
      Regroup([kind], Encode(env, ty, p.value).value, p.rest);
    } else if kind == 2 {
      NumberConsumed(env, plain, rest);
      var p := DecodeNumber(env, plain, rest).value;
      Regroup([kind], EncodeNumber(env, p.value).value, p.rest);
    } else {
      JsonsConsumed(env, plain, kind == 5, rest);
      var p := DecodeJsons(env, plain, kind == 5, rest).value;
      if kind == 5 {
        EntriesConsumed(env, plain, p.values);
      }
      if plain {
        Regroup([kind], EncodeJsons(env, kind == 5, p.values).value, p.rest);
      }
    }
  }

  lemma NumberConsumed(env: Env, plain: bool, b: seq<byte>)
    requires WellFormed(env) && DecodeNumber(env, plain, b).Ok?
    ensures var p := DecodeNumber(env, plain, b).value;
            && IsNumber(env, p.value) && EncodeNumber(env, p.value).Ok?
            && (plain ==> b == EncodeNumber(env, p.value).value + p.rest)
  {
    TagConsumed(b);
    var ty := NumberTy(b[0]);
    EncodeDecode(env, true, ty, b[1..]);
    var p := Decode(env, true, ty, b[1..]).value;
    Regroup([b[0]], Encode(env, ty, p.value).value, p.rest);
  }

  /** Collecting keeps entries encodable, and changes nothing when their keys ascend. */
  lemma EntriesConsumed(env: Env, plain: bool, entries: seq<Val>)
    requires WellFormed(env) && AllJson(env, true, entries) && EncodeJsons(env, true, entries).Ok?
    ensures var kept := Collect(env, ENTRIES, entries);
            && AllJson(env, true, kept) && Ascending(env, ENTRIES, kept) && EncodeJsons(env, true, kept).Ok?
            && (Ascending(env, ENTRIES, entries) ==> kept == entries)
  {
    var kept := Collect(env, ENTRIES, entries);
    CollectKeepsOrder(env, ENTRIES, entries);
    if Ascending(env, ENTRIES, entries) {
      CollectAscending(env, ENTRIES, entries);
    }
    forall i | 0 <= i < |kept| ensures ItemIsJson(env, true, kept[i]) && EncodeItem(env, true, kept[i]).Ok? {
      assert kept[i] in kept;
      var j :| 0 <= j < |entries| && entries[j] == kept[i];
      EncodedItem(env, entries, j);
    }
    EncodableEntries(env, kept);
  }

  lemma {:induction false} EncodedItem(env: Env, entries: seq<Val>, j: nat)
    requires AllJson(env, true, entries) && EncodeEach(env, true, entries).Ok? && j < |entries|
    ensures EncodeItem(env, true, entries[j]).Ok?
    decreases |entries|
  {
    if j > 0 {
      EncodedItem(env, entries[1..], j - 1);
    }
  }

  lemma {:induction false} EncodableEntries(env: Env, entries: seq<Val>)
    requires AllJson(env, true, entries)
    requires forall i | 0 <= i < |entries| :: EncodeItem(env, true, entries[i]).Ok?
    ensures EncodeEach(env, true, entries).Ok?
    decreases |entries|
  {
    if entries != [] {
      EncodableEntries(env, entries[1..]);
    }
  }

  lemma {:induction false} JsonsConsumed(env: Env, plain: bool, keyed: bool, b: seq<byte>)
    requires WellFormed(env) && DecodeJsons(env, plain, keyed, b).Ok?
    ensures var p := DecodeJsons(env, plain, keyed, b).value;
            && AllJson(env, keyed, p.values) && EncodeJsons(env, keyed, p.values).Ok?
            && (plain ==> b == EncodeJsons(env, keyed, p.values).value + p.rest)
    decreases |b|, 3
  {
    Pow256Values();
    WordConsumed(b, 4);
    var count := FromLittleEndian(b[..4]);
    EachConsumed(env, plain, keyed, count, b[4..]);
    var p := DecodeEach(env, plain, keyed, count, b[4..]).value;
    Regroup(LittleEndian(4, count), EncodeEach(env, keyed, p.values).value, p.rest);
  }

  lemma {:induction false} EachConsumed(env: Env, plain: bool, keyed: bool, count: nat, b: seq<byte>)
    requires WellFormed(env) && DecodeEach(env, plain, keyed, count, b).Ok?
    ensures |DecodeEach(env, plain, keyed, count, b).value.values| == count
    ensures EachSound(env, plain, keyed, b, DecodeEach(env, plain, keyed, count, b).value)
    decreases |b|, 2
  {
    if count == 0 {
      assert [] + b == b;
    } else {
      var first := DecodeItem(env, plain, keyed, b).value;
      var tail := DecodeEach(env, plain, keyed, count - 1, first.rest).value;
      ItemConsumed(env, plain, keyed, b);
      EachConsumed(env, plain, keyed, count - 1, first.rest);
      assert ([first.value] + tail.values)[1..] == tail.values;
      Regroup(EncodeItem(env, keyed, first.value).value, EncodeEach(env, keyed, tail.values).value, tail.rest);
    }
  }

  lemma {:induction false} ItemConsumed(env: Env, plain: bool, keyed: bool, b: seq<byte>)
    requires WellFormed(env) && DecodeItem(env, plain, keyed, b).Ok?
    ensures ItemSound(env, plain, keyed, b, DecodeItem(env, plain, keyed, b).value)
    decreases |b|, 1
  {
    if !keyed {
      JsonConsumed(env, plain, b);
    } else {
      EncodeDecode(env, true, TString, b);
      var key := Decode(env, true, TString, b).value;
      JsonConsumed(env, plain, key.rest);
      var value := DecodeJson(env, plain, key.rest).value;
      Regroup(Encode(env, TString, key.value).value, EncodeJson(env, value.value).value, value.rest);
    }
  }

  // ---- Main results ----

  /** Whatever decodes is a tree that encodes again, to bytes that decode to it. */
  lemma JsonReencodes(env: Env, b: seq<byte>)
    requires WellFormed(env) && DecodeJson(env, false, b).Ok?
    ensures var v := DecodeJson(env, false, b).value.value;
            && IsJson(env, v) && EncodeJson(env, v).Ok?
            && DecodeJson(env, false, EncodeJson(env, v).value) == Ok(Parsed(v, []))
  {
    JsonConsumed(env, false, b);
    var v := DecodeJson(env, false, b).value.value;
    JsonBack(env, false, v, []);
    assert EncodeJson(env, v).value + [] == EncodeJson(env, v).value;
  }

  /** The bytes a decode consumed are the encoding of its tree exactly when they
      hold no non-negative number in the form for negative ones and no object
      whose keys do not ascend. */
  lemma CanonicalIffPlain(env: Env, b: seq<byte>)
    requires WellFormed(env) && DecodeJson(env, false, b).Ok?
    ensures var p := DecodeJson(env, false, b).value;
            && IsJson(env, p.value) && EncodeJson(env, p.value).Ok?
            && (b == EncodeJson(env, p.value).value + p.rest <==> DecodeJson(env, true, b).Ok?)
  {
    JsonConsumed(env, false, b);
    var p := DecodeJson(env, false, b).value;
    if b == EncodeJson(env, p.value).value + p.rest {
      JsonBack(env, true, p.value, p.rest);
    }
    if DecodeJson(env, true, b).Ok? {
      JsonConsumed(env, true, b);
      var q := DecodeJson(env, true, b).value;
      JsonBack(env, false, q.value, q.rest);
    }
  }

  lemma TwoTags(a: byte, b: byte, word: seq<byte>, rest: seq<byte>)
    ensures [a, b] + word + rest == [a] + ([b] + (word + rest))
    ensures [a] + ([b] + word) == [a, b] + word
  {
  }

  lemma OwnForm(env: Env, u: nat)
    requires StrictTotalOrder(env.less) && u < Half(8)
    ensures var n := VEnum(2, VEnum(0, VInt(u)));
            IsJson(env, n) && EncodeJson(env, n) == Ok([2, 0] + LittleEndian(8, u))
  {
    assert Pow256(8) == 2 * Half(8);
    TwoTags(2, 0, LittleEndian(8, u), []);
  }

  /** Every number that is not negative has a second accepted form, which is
      not the one it is encoded in. */
  lemma SecondForm(env: Env, u: nat, rest: seq<byte>)
    requires WellFormed(env) && u < Half(8)
    ensures var n := VEnum(2, VEnum(0, VInt(u)));
            && IsJson(env, n)
            && DecodeJson(env, false, [2, 1] + LittleEndian(8, u) + rest) == Ok(Parsed(n, rest))
            && EncodeJson(env, n) == Ok([2, 0] + LittleEndian(8, u))
  {
    var word := LittleEndian(8, u) + rest;
    OwnForm(env, u);
    TwoTags(2, 1, LittleEndian(8, u), rest);
    TagBack(2, [1] + word);
    TagBack(1, word);
    assert Pow256(8) == 2 * Half(8);
    IntBack(env, true, true, 8, VInt(u), rest);
  }
}
