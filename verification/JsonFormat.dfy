/** The bytes of a JSON tree, stated apart from its codec, and the errors of malformed ones. */
module JsonFormat {
  import opened Bytes
  import opened Wrappers
  import opened Types
  import opened Codec
  import opened Json
  import opened WireFormat

  /** Nothing is the byte 0, and a boolean is the byte 1 and a flag. */
  lemma ConstantBytes(env: Env)
    ensures IsJson(env, VEnum(0, VTuple([]))) && EncodeJson(env, VEnum(0, VTuple([]))) == Ok([0])
    ensures IsJson(env, VEnum(1, VBool(false))) && EncodeJson(env, VEnum(1, VBool(false))) == Ok([1, 0])
    ensures IsJson(env, VEnum(1, VBool(true))) && EncodeJson(env, VEnum(1, VBool(true))) == Ok([1, 1])
  {
    assert [0 as byte] + [] == [0] && [1 as byte] + [0] == [1, 0] && [1 as byte] + [1] == [1, 1];
  }

  /** A number is the byte 2, the byte of its form, and eight bytes: of itself if it
      is an integer, and of its pattern if it is a float. */
  lemma NumberBytes(env: Env, form: nat, i: int)
    requires form == 0 ==> 0 <= i <= U64_MAX
    requires form == 1 ==> -0x8000_0000_0000_0000 <= i < 0
    requires form == 2 ==> 0 <= i <= U64_MAX && !HasFullExponent(8, i)
    requires form <= 2
    ensures IsJson(env, VEnum(2, VEnum(form, VInt(i)))) && EncodeJson(env, VEnum(2, VEnum(form, VInt(i)))).Ok?
    ensures var b := EncodeJson(env, VEnum(2, VEnum(form, VInt(i)))).value;
            |b| == 10 && b[0] == 2 && b[1] == form && IsBytesOf(b[2..], i)
  {
    Pow256Values();
    if form == 2 {
      FiniteExactly(i);
      FloatBytes(env, 8, i);
    } else {
      IntegerBytes(env, NumberTy(form), i);
    }
    var n, body := VEnum(form, VInt(i)), Encode(env, NumberTy(form), VInt(i)).value;
    assert EncodeNumber(env, n) == Ok([form as byte] + body);
    assert [2 as byte] + ([form as byte] + body) == [2, form as byte] + body;
  }

  /** A text is the byte 3 and its string, an array the byte 4 and an object the byte
      5, each with its count, in four bytes, and its contents. */
  lemma TreeBytes(env: Env, v: Val)
    requires IsJson(env, v) && v.variant >= 3
    ensures var e := EncodeJson(env, v);
            if v.variant == 3 then
              match Encode(env, TString, v.payload)
              case Ok(text) => e == Ok([3] + text)
              case Err(error) => e == Err(error)
            else if |v.payload.items| > U32_MAX then e == Err(LengthTooLarge)
            else
              match EncodeEach(env, v.variant == 5, v.payload.items)
              case Ok(body) =>
                && e.Ok? && |e.value| == 5 + |body| && e.value[0] == (if v.variant == 4 then 4 else 5)
                && IsBytesOf(e.value[1..5], |v.payload.items|) && e.value[5..] == body
              case Err(error) => e == Err(error)
  {
    if v.variant > 3 && |v.payload.items| <= U32_MAX {
      var items := v.payload.items;
      Pow256Values();
      WordBytes(4, |items|);
      var each, count := EncodeEach(env, v.variant == 5, items), LittleEndian(4, |items|);
      if each.Ok? {
        var e := EncodeJson(env, v);
        assert EncodeJsons(env, v.variant == 5, items) == Ok(count + each.value);
        assert e == Ok([v.variant as byte] + (count + each.value));
        assert e.value[1..5] == count && e.value[5..] == each.value;
      }
    }
  }

  /** Contents are written in turn, and an error is that of the first which has one. */
  lemma {:induction false} ContentsInTurn(env: Env, keyed: bool, a: seq<Val>, b: seq<Val>)
    requires AllJson(env, keyed, a) && AllJson(env, keyed, b)
    ensures AllJson(env, keyed, a + b)
    ensures var first, second, both := EncodeEach(env, keyed, a), EncodeEach(env, keyed, b), EncodeEach(env, keyed, a + b);
            if first.Err? then both == first
            else if second.Err? then both == second
            else both == Ok(first.value + second.value)
    decreases |a|
  {
    assert AllJson(env, keyed, a + b);
    if a == [] {
      assert a + b == b;
      if EncodeEach(env, keyed, b).Ok? {
        assert [] + EncodeEach(env, keyed, b).value == EncodeEach(env, keyed, b).value;
      }
    } else {
      assert (a + b)[1..] == a[1..] + b;
      ContentsInTurn(env, keyed, a[1..], b);
      var one, rest, last := EncodeItem(env, keyed, a[0]), EncodeEach(env, keyed, a[1..]), EncodeEach(env, keyed, b);
      if one.Ok? && rest.Ok? && last.Ok? {
        assert one.value + (rest.value + last.value) == (one.value + rest.value) + last.value;
      }
    }
  }

  /** One content is a tree, behind its key if it has one. */
  lemma ContentBytes(env: Env, key: Val, tree: Val)
    requires HasType(env, TString, key) && IsJson(env, tree)
    ensures var keyed, alone := EncodeEach(env, true, [VTuple([key, tree])]), EncodeEach(env, false, [tree]);
            var name, body := Encode(env, TString, key), EncodeJson(env, tree);
            && alone == body
            && keyed == if name.Err? then name else if body.Err? then body else Ok(name.value + body.value)
  {
    var entry := VTuple([key, tree]);
    assert [entry][1..] == [] && [tree][1..] == [];
    assert EncodeEach(env, true, []) == Ok([]) && EncodeEach(env, false, []) == Ok([]);
    assert entry.items[0] == key && entry.items[1] == tree;
    var name, body := Encode(env, TString, key), EncodeJson(env, tree);
    if body.Ok? {
      assert body.value + [] == body.value;
      if name.Ok? {
        assert EncodeItem(env, true, entry) == Ok(name.value + body.value);
        assert (name.value + body.value) + [] == name.value + body.value;
      }
    }
  }

  /** Unknown tags and forms are refused by name, and a float must be finite. */
  lemma TreeErrors(env: Env, b: seq<byte>)
    requires WellFormed(env)
    ensures DecodeJson(env, false, []) == Err(UnexpectedLength)
    ensures b != [] && b[0] > 5 ==> DecodeJson(env, false, b) == Err(UnexpectedTag(b[0]))
    ensures |b| >= 2 && b[0] == 2 && b[1] > 2 ==> DecodeJson(env, false, b) == Err(UnexpectedTag(b[1]))
    ensures |b| == 1 && 1 <= b[0] <= 5 ==> DecodeJson(env, false, b) == Err(UnexpectedLength)
  {
    FirstByte(b);
    if b != [] {
      FirstByte(b[1..]);
      if |b| == 1 {
        assert b[1..] == [];
        assert DecodeWord([], 4) == Err(UnexpectedLength);
        if b[0] == 3 {
          assert Decode(env, true, TString, []) == Err(UnexpectedLength);
        } else if b[0] > 3 {
          assert DecodeJsons(env, false, b[0] == 5, []) == Err(UnexpectedLength);
        }
      }
    }
  }

  /** The float must be finite; what is not a number has an error of its own. */
  lemma FloatErrors(env: Env, b: seq<byte>, bits: nat)
    requires WellFormed(env) && |b| >= 10 && b[0] == 2 && b[1] == 2 && bits < Pow256(8) && IsBytesOf(b[2..10], bits)
    ensures DecodeJson(env, false, b) ==
            if !HasFullExponent(8, bits) then Ok(Parsed(VEnum(2, VEnum(2, VInt(bits))), b[10..]))
            else if IsZeroFraction(8, bits) then Err(InfiniteNumber)
            else Err(NaN)
  {
    FirstByte(b);
    FirstByte(b[1..]);
    assert b[1..][1..] == b[2..] && b[2..][..8] == b[2..10] && b[2..][8..] == b[10..];
    FloatIsRead(env, true, 8, b[2..], bits);
    FiniteExactly(bits);
  }

  /** The contents before the one at `j` decode, and it fails on what they leave. */
  ghost predicate FirstUnreadContent(env: Env, keyed: bool, count: nat, b: seq<byte>, j: nat, e: CodecError)
    requires WellFormed(env)
  {
    && j < count
    && var before := DecodeEach(env, false, keyed, j, b);
       before.Ok? && DecodeItem(env, false, keyed, before.value.rest) == Err(e)
  }

  /** The contents are read in turn, and the first that fails gives the error. */
  lemma {:induction false} FirstErrorOfContents(env: Env, keyed: bool, count: nat, b: seq<byte>, e: CodecError)
    requires WellFormed(env)
    ensures DecodeEach(env, false, keyed, count, b) == Err(e) <==>
            exists j: nat :: FirstUnreadContent(env, keyed, count, b, j, e)
    decreases count
  {
    if count > 0 {
      var one := DecodeItem(env, false, keyed, b);
      assert DecodeEach(env, false, keyed, 0, b) == Ok(ParsedRow([], b));
      if one.Ok? {
        FirstErrorOfContents(env, keyed, count - 1, one.value.rest, e);
        LaterContents(env, keyed, count, count - 1, b, one.value.rest, e);
      } else {
        assert one == Err(e) ==> FirstUnreadContent(env, keyed, count, b, 0, e);
      }
    }
  }

  lemma LaterContents(env: Env, keyed: bool, count: nat, less: nat, b: seq<byte>, rest: seq<byte>, e: CodecError)
    requires WellFormed(env) && count == less + 1
    requires DecodeItem(env, false, keyed, b).Ok? && DecodeItem(env, false, keyed, b).value.rest == rest
    ensures (exists j: nat :: FirstUnreadContent(env, keyed, count, b, j, e)) <==>
            (exists j: nat :: FirstUnreadContent(env, keyed, less, rest, j, e))
  {
    assert DecodeEach(env, false, keyed, 0, b) == Ok(ParsedRow([], b));
    if exists j: nat :: FirstUnreadContent(env, keyed, less, rest, j, e) {
      var j: nat :| FirstUnreadContent(env, keyed, less, rest, j, e);
      ContentOneLater(env, keyed, count, less, b, rest, j, e);
    }
    if exists j: nat :: FirstUnreadContent(env, keyed, count, b, j, e) {
      var j: nat :| FirstUnreadContent(env, keyed, count, b, j, e);
      ContentOneLater(env, keyed, count, less, b, rest, j - 1, e);
    }
  }

  lemma ContentOneLater(env: Env, keyed: bool, count: nat, less: nat, b: seq<byte>, rest: seq<byte>, j: nat, e: CodecError)
    requires WellFormed(env) && count == less + 1
    requires DecodeItem(env, false, keyed, b).Ok? && DecodeItem(env, false, keyed, b).value.rest == rest
    ensures FirstUnreadContent(env, keyed, count, b, j + 1, e) <==> FirstUnreadContent(env, keyed, less, rest, j, e)
  {
    assert DecodeEach(env, false, keyed, j + 1, b).Ok? <==> DecodeEach(env, false, keyed, j, rest).Ok?;
  }
}
