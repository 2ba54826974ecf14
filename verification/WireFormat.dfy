/** The format itself: the bytes of each kind of value, stated without the codec's own
    helpers, and the error that each malformed input or value gives. */
module WireFormat {
  import opened Arithmetic
  import opened Bytes
  import opened Wrappers
  import opened Types
  import opened Codec
  import opened RoundTrip
  import J = Json

  // ---- Integers ----

  /** The digits of `i` to base 256, least significant first; the division rounds
      down, so a negative number has its two's complement. */
  predicate IsBytesOf(b: seq<byte>, i: int) {
    forall j | 0 <= j < |b| :: b[j] == i / Pow256(j) % 256
  }

  lemma Quotient(v: int, d: nat, q: int, r: nat)
    requires d > 0 && v == d * q + r && r < d
    ensures v / d == q && v % d == r
  {
    var p, s := v / d, v % d;
    assert v == d * p + s;
    Apart(d, p, q);
    Apart(d, q, p);
  }

  lemma Apart(d: nat, p: int, q: int)
    requires d > 0
    ensures p < q ==> d * p + d <= d * q
  {
    if p < q {
      MulMonotone(d, d, 1, q - p);
      assert d * q - d * p == d * (q - p);
    }
  }

  lemma DivShift(i: int, d: nat, q: int)
    requires d > 0
    ensures (i + d * q) / d == i / d + q
  {
    var a := i / d;
    assert d * (a + q) == d * a + d * q;
    Quotient(i + d * q, d, a + q, i % d);
  }

  lemma SameDigit(x: int, y: int)
    ensures (x + 256 * y) % 256 == x % 256
  {
  }

  lemma WordDigit(width: nat, i: int, j: nat)
    requires j < width && 0 <= i + Pow256(width)
    ensures ToWord(width, i) / Pow256(j) % 256 == i / Pow256(j) % 256
  {
    if i < 0 {
      var d, q := Pow256(j), Pow256(width - j - 1);
      Pow256Add(j, width - j);
      assert Pow256(width) == d * (256 * q);
      DivShift(i, d, 256 * q);
      SameDigit(i / d, q);
    }
  }

  lemma WordBytes(width: nat, i: int)
    requires 0 <= i + Pow256(width)
    ensures IsBytesOf(LittleEndian(width, ToWord(width, i)), i)
  {
    forall j | 0 <= j < width ensures LittleEndian(width, ToWord(width, i))[j] == i / Pow256(j) % 256 {
      LittleEndianDigit(width, ToWord(width, i), j);
      WordDigit(width, i, j);
    }
  }

  predicate IsInteger(ty: Ty) {
    ty.TInt? || ty.TNonZero?
  }

  function Width(ty: Ty): IntWidth
    requires IsInteger(ty)
  {
    if ty.TInt? then ty.intWidth else ty.nzWidth
  }

  /** An integer of the type, in the range of its width and not zero where zero is excluded. */
  predicate Holds(ty: Ty, i: int)
    requires IsInteger(ty)
  {
    var signed := if ty.TInt? then ty.signed else ty.nzSigned;
    var values: int := Pow256(Width(ty));
    && (if signed then -values <= 2 * i < values else 0 <= i < values)
    && (ty.TNonZero? ==> i != 0)
  }

  lemma HoldsItsRange(env: Env, ty: Ty, i: int)
    requires IsInteger(ty)
    ensures HasType(env, ty, VInt(i)) <==> Holds(ty, i)
    ensures Holds(ty, i) ==> 0 <= i + Pow256(Width(ty))
  {
    assert Pow256(Width(ty)) == 2 * Half(Width(ty));
  }

  /** An integer is written as its digits, as many as its type is wide. */
  lemma IntegerBytes(env: Env, ty: Ty, i: int)
    requires IsInteger(ty) && Holds(ty, i)
    ensures HasType(env, ty, VInt(i)) && Encode(env, ty, VInt(i)).Ok?
    ensures var b := Encode(env, ty, VInt(i)).value; |b| == Width(ty) && IsBytesOf(b, i)
  {
    HoldsItsRange(env, ty, i);
    WordBytes(Width(ty), i);
  }

  /** Exactly the integer with those digits is read, whatever follows them. */
  lemma IntegerIsRead(env: Env, strict: bool, ty: Ty, b: seq<byte>, i: int, rest: seq<byte>)
    requires WellFormed(env) && IsInteger(ty)
    ensures Decode(env, strict, ty, b) == Ok(Parsed(VInt(i), rest)) <==>
            Width(ty) <= |b| && rest == b[Width(ty)..] && Holds(ty, i) && IsBytesOf(b[..Width(ty)], i)
  {
    var width := Width(ty);
    HoldsItsRange(env, ty, i);
    if Decode(env, strict, ty, b) == Ok(Parsed(VInt(i), rest)) {
      ReadHasDigits(env, strict, ty, b);
    } else if width <= |b| && Holds(ty, i) && IsBytesOf(b[..width], i) {
      DigitsAreRead(env, strict, ty, b, i);
    }
  }

  lemma ReadHasDigits(env: Env, strict: bool, ty: Ty, b: seq<byte>)
    requires WellFormed(env) && IsInteger(ty) && Decode(env, strict, ty, b).Ok?
    ensures var p := Decode(env, strict, ty, b).value;
            && p.value.VInt? && Width(ty) <= |b| && p.rest == b[Width(ty)..]
            && Holds(ty, p.value.i) && IsBytesOf(b[..Width(ty)], p.value.i)
  {
    var width, signed := Width(ty), if ty.TInt? then ty.signed else ty.nzSigned;
    WordConsumed(b, width);
    var word := FromLittleEndian(b[..width]);
    IntegerRead(env, strict, signed, width, b, word, b[width..]);
    WordCanonical(signed, width, word);
    var i := FromWord(signed, width, word);
    LittleEndianCanonical(b[..width]);
    WordBytes(width, i);
    HoldsItsRange(env, ty, i);
  }

  lemma SameDigits(a: seq<byte>, b: seq<byte>, i: int)
    requires |a| == |b| && IsBytesOf(a, i) && IsBytesOf(b, i)
    ensures a == b
  {
  }

  lemma DigitsAreRead(env: Env, strict: bool, ty: Ty, b: seq<byte>, i: int)
    requires WellFormed(env) && IsInteger(ty) && Width(ty) <= |b| && Holds(ty, i) && IsBytesOf(b[..Width(ty)], i)
    ensures Decode(env, strict, ty, b) == Ok(Parsed(VInt(i), b[Width(ty)..]))
  {
    var width := Width(ty);
    IntegerBytes(env, ty, i);
    var e := Encode(env, ty, VInt(i)).value;
    SameDigits(e, b[..width], i);
    assert b == b[..width] + b[width..];
    DecodeEncode(env, strict, ty, VInt(i), b[width..]);
  }

  /** It fails on fewer bytes, and, where zero is excluded, on zeros. */
  lemma IntegerErrors(env: Env, strict: bool, ty: Ty, b: seq<byte>)
    requires WellFormed(env) && IsInteger(ty)
    ensures |b| < Width(ty) ==> Decode(env, strict, ty, b) == Err(UnexpectedLength)
    ensures |b| >= Width(ty) && Decode(env, strict, ty, b).Err? ==>
              Decode(env, strict, ty, b) == Err(ZeroValue) && ty.TNonZero? && IsBytesOf(b[..Width(ty)], 0)
  {
    var width, signed := Width(ty), if ty.TInt? then ty.signed else ty.nzSigned;
    if width <= |b| {
      WordConsumed(b, width);
      var word := FromLittleEndian(b[..width]);
      IntegerRead(env, strict, signed, width, b, word, b[width..]);
      WordCanonical(signed, width, word);
      LittleEndianCanonical(b[..width]);
      WordBytes(width, 0);
    }
  }

  // ---- Floats ----

  function FractionBits(width: FloatWidth): nat {
    if width == 4 then 0x80_0000 else 0x10_0000_0000_0000
  }

  function ExponentOnes(width: FloatWidth): nat {
    if width == 4 then 0xFF else 0x7FF
  }

  /** All ones in the exponent: an infinity or not a number. */
  predicate HasFullExponent(width: FloatWidth, bits: nat) {
    bits / FractionBits(width) % (ExponentOnes(width) + 1) == ExponentOnes(width)
  }

  predicate IsZeroFraction(width: FloatWidth, bits: nat) {
    bits % FractionBits(width) == 0
  }

  /** Not a number: exactly the patterns with a full exponent and some fraction. */
  lemma NaNExactly(width: FloatWidth, bits: nat)
    requires bits < Pow256(width)
    ensures IsNaN(width, bits) <==> HasFullExponent(width, bits) && !IsZeroFraction(width, bits)
  {
    if width == 4 {
      SplitPattern(bits, 0x80_0000, 0x100);
    } else {
      SplitPattern(bits, 0x10_0000_0000_0000, 0x800);
    }
  }

  /** The exponent and the fraction of a pattern without its sign. */
  lemma SplitPattern(bits: nat, fraction: nat, exponents: nat)
    requires fraction > 0 && exponents > 0
    ensures bits % (exponents * fraction) == (bits / fraction % exponents) * fraction + bits % fraction
  {
    var q := bits / fraction;
    Digits(bits, fraction, exponents, q / exponents, q % exponents, q, bits % fraction);
  }

  lemma Digits(v: nat, a: nat, b: nat, s: nat, x: nat, q: nat, f: nat)
    requires v == a * q + f && q == b * s + x && x < b && f < a
    ensures v % (b * a) == x * a + f
  {
    Distribute(a, b, s, x);
    DigitsBelow(a, b, x, f);
    Quotient(v, b * a, s, x * a + f);
  }

  lemma Distribute(a: nat, b: nat, s: nat, x: nat)
    ensures a * (b * s + x) == (b * a) * s + x * a
  {
    assert a * (b * s + x) == a * (b * s) + a * x;
    assert a * (b * s) == (a * b) * s;
  }

  lemma DigitsBelow(a: nat, b: nat, x: nat, f: nat)
    requires x < b && f < a
    ensures x * a + f < b * a
  {
    MulMonotone(x + 1, b, a, a);
    assert (x + 1) * a == x * a + a;
  }

  lemma FiniteExactly(bits: nat)
    requires bits < Pow256(8)
    ensures J.IsFinite(bits) <==> !HasFullExponent(8, bits)
  {
    SplitPattern(bits, 0x10_0000_0000_0000, 0x800);
  }

  /** A float is written as the digits of its pattern, infinities included, unless it
      is not a number. */
  lemma FloatBytes(env: Env, width: FloatWidth, bits: nat)
    requires bits < Pow256(width)
    ensures HasType(env, TFloat(width), VInt(bits))
    ensures var e := Encode(env, TFloat(width), VInt(bits));
            if HasFullExponent(width, bits) && !IsZeroFraction(width, bits) then e == Err(NaN)
            else e.Ok? && |e.value| == width && IsBytesOf(e.value, bits)
  {
    NaNExactly(width, bits);
    WordBytes(width, bits);
  }

  lemma FloatIsRead(env: Env, strict: bool, width: FloatWidth, b: seq<byte>, bits: nat)
    requires WellFormed(env) && width <= |b| && bits < Pow256(width) && IsBytesOf(b[..width], bits)
    ensures Decode(env, strict, TFloat(width), b) ==
            if HasFullExponent(width, bits) && !IsZeroFraction(width, bits) then Err(NaN) else Ok(Parsed(VInt(bits), b[width..]))
  {
    NaNExactly(width, bits);
    WordBytes(width, bits);
    assert b[..width] == LittleEndian(width, bits);
    LittleEndianRoundTrip(width, bits);
  }

  // ---- Flags and tags ----

  /** True is the byte 1 and false the byte 0, and no other byte is either. */
  lemma BoolBytes(env: Env, strict: bool, b: seq<byte>)
    requires WellFormed(env)
    ensures Encode(env, TBool, VBool(true)) == Ok([1]) && Encode(env, TBool, VBool(false)) == Ok([0])
    ensures Decode(env, strict, TBool, b) ==
            if b == [] then Err(UnexpectedLength)
            else if b[0] == 0 then Ok(Parsed(VBool(false), b[1..]))
            else if b[0] == 1 then Ok(Parsed(VBool(true), b[1..]))
            else Err(InvalidBool(b[0]))
  {
    FirstByte(b);
  }

  lemma FirstByte(b: seq<byte>)
    ensures DecodeWord(b, 1) == if b == [] then Err(UnexpectedLength) else Ok((b[0] as nat, b[1..]))
  {
    if b != [] {
      TagConsumed(b);
    }
  }

  /** What a flag announces is read behind it; other flags are refused by name. */
  lemma FlagsAreRead(env: Env, strict: bool, ok: Ty, err: Ty, b: seq<byte>)
    requires WellFormed(env) && b != []
    ensures var o := Decode(env, strict, TOption(ok), b);
            if b[0] == 0 then o == Ok(Parsed(VNone, b[1..]))
            else if b[0] > 1 then o == Err(InvalidOption(b[0]))
            else
              match Decode(env, strict, ok, b[1..])
              case Ok(p) => o == Ok(Parsed(VSome(p.value), p.rest))
              case Err(e) => o == Err(e)
    ensures var r := Decode(env, strict, TResult(ok, err), b);
            if b[0] > 1 then r == Err(InvalidResult(b[0]))
            else
              match Decode(env, strict, if b[0] == 1 then ok else err, b[1..])
              case Ok(p) => r == Ok(Parsed(if b[0] == 1 then VOk(p.value) else VErr(p.value), p.rest))
              case Err(e) => r == Err(e)
  {
    FirstByte(b);
  }

  /** The tag of an enum picks the one variant that has it. */
  lemma TagsAreRead(env: Env, strict: bool, name: string, b: seq<byte>, i: nat)
    requires WellFormed(env) && name in env.defs && env.defs[name].EnumDef? && b != []
    ensures var variants, r := env.defs[name].variants, Decode(env, strict, TNamed(name), b);
            && ((forall j | 0 <= j < |variants| :: variants[j].tag != b[0]) ==> r == Err(UnexpectedTag(b[0])))
            && (i < |variants| && variants[i].tag == b[0] ==>
                  match Decode(env, strict, TNamed(variants[i].payload), b[1..])
                  case Ok(p) => r == Ok(Parsed(VEnum(i, p.value), p.rest))
                  case Err(e) => r == Err(e))
  {
    var variants := env.defs[name].variants;
    FirstByte(b);
    assert WellFormedDef(env, name);
    if i < |variants| && variants[i].tag == b[0] {
      FindOwnTag(variants, i);
    }
  }

  // ---- Order ----

  /** A set ascends in the order of its members, a map in the order of its keys, and
      neither has one twice. */
  lemma KeysAscend(env: Env, kind: SortedKind, key: Ty, val: Ty, items: seq<Val>)
    requires StrictTotalOrder(env.less)
    ensures Ascending(env, TSet(kind, key), items) <==>
            forall i, j | 0 <= i < j < |items| :: env.less(key, items[i], items[j])
    ensures (forall i | 0 <= i < |items| :: items[i].VTuple? && |items[i].items| == 2) ==>
              (Ascending(env, TMap(kind, key, val), items) <==>
               forall i, j | 0 <= i < j < |items| :: env.less(key, items[i].items[0], items[j].items[0]))
  {
    FarApart(env, TSet(kind, key), items);
    FarApart(env, TMap(kind, key, val), items);
  }

  lemma FarApart(env: Env, ty: Ty, items: seq<Val>)
    requires StrictTotalOrder(env.less)
    ensures Ascending(env, ty, items) <==> forall i, j | 0 <= i < j < |items| :: Precedes(env, ty, items[i], items[j])
  {
    if Ascending(env, ty, items) {
      forall i, j | 0 <= i < j < |items| ensures Precedes(env, ty, items[i], items[j]) {
        AscendingFar(env, ty, items, i, j);
      }
    }
  }

  // ---- Rows ----

  /** Nothing is written for a unit, and around the members of tuples, arrays and structs. */
  lemma NothingAround(env: Env, ty: Ty, v: Val)
    requires HasType(env, ty, v) && (ty.TUnit? || ty.TTuple? || ty.TArray? || (ty.TNamed? && IsStruct(env, ty.name)))
    ensures ty.TUnit? ==> Encode(env, ty, v) == Ok([])
    ensures ty.TTuple? ==> RowHasTypes(env, ty.elems, v.items) && Encode(env, ty, v) == EncodeRow(env, ty.elems, v.items)
    ensures ty.TArray? ==> |v.items| == ty.len && AllHaveType(env, ty.elem, v.items) && Encode(env, ty, v) == EncodeAll(env, ty.elem, v.items)
    ensures ty.TNamed? ==>
              var tys := FieldTys(env.defs[ty.name].fields);
              RowHasTypes(env, tys, v.items) && Encode(env, ty, v) == EncodeRow(env, tys, v.items)
  {
  }

  /** The members of a row are written in turn. */
  lemma {:induction false} RowInTurn(env: Env, tys: seq<Ty>, more: seq<Ty>, items: seq<Val>, rest: seq<Val>)
    requires RowHasTypes(env, tys, items) && RowHasTypes(env, more, rest)
    ensures RowHasTypes(env, tys + more, items + rest)
    ensures var first, second, both := EncodeRow(env, tys, items), EncodeRow(env, more, rest), EncodeRow(env, tys + more, items + rest);
            if first.Err? then both == first
            else if second.Err? then both == second
            else both == Ok(first.value + second.value)
    decreases |items|
  {
    if items == [] {
      assert tys + more == more && items + rest == rest;
      if EncodeRow(env, more, rest).Ok? {
        assert [] + EncodeRow(env, more, rest).value == EncodeRow(env, more, rest).value;
      }
    } else {
      assert (tys + more)[1..] == tys[1..] + more && (items + rest)[1..] == items[1..] + rest;
      RowInTurn(env, tys[1..], more, items[1..], rest);
      var one, others, last := Encode(env, tys[0], items[0]), EncodeRow(env, tys[1..], items[1..]), EncodeRow(env, more, rest);
      if one.Ok? && others.Ok? && last.Ok? {
        assert one.value + (others.value + last.value) == (one.value + others.value) + last.value;
      }
    }
  }

  // ---- Which error comes first ----

  /** Items that take no memory are refused before anything is read or written. */
  lemma ZeroSizedFirst(env: Env, strict: bool, ty: Ty, b: seq<byte>, v: Val)
    requires WellFormed(env)
    requires (ty.TSeq? && env.zst(ty.item)) || (ty.TSet? && env.zst(ty.member)) || (ty.TMap? && env.zst(ty.key))
    ensures Decode(env, strict, ty, b) == Err(ZeroSizedItems)
    ensures HasType(env, ty, v) ==> Encode(env, ty, v) == Err(ZeroSizedItems)
  {
  }

  /** The items of a collection that can be written at all. */
  function ItemsOf(ty: Ty): Ty
    requires ty.TString? || ty.TSeq? || IsSorted(ty)
  {
    match ty
    case TString => U8
    case TSeq(_, item) => item
    case TSet(_, member) => member
    case TMap(_, key, val) => TTuple([key, val])
  }

  /** A collection is its length, in four bytes, and its items; too many are refused
      before any of them is looked at. */
  lemma CollectionBytes(env: Env, ty: Ty, v: Val)
    requires (ty.TString? || ty.TSeq? || IsSorted(ty)) && HasType(env, ty, v)
    requires !(ty.TSeq? && env.zst(ty.item)) && !(ty.TSet? && env.zst(ty.member)) && !(ty.TMap? && env.zst(ty.key))
    ensures AllHaveType(env, ItemsOf(ty), v.items)
    ensures var e, items := Encode(env, ty, v), EncodeAll(env, ItemsOf(ty), v.items);
            if |v.items| > U32_MAX then e == Err(LengthTooLarge)
            else if items.Err? then e == items
            else e.Ok? && |e.value| == 4 + |items.value| && IsBytesOf(e.value[..4], |v.items|) && e.value[4..] == items.value
  {
    assert Encode(env, ty, v) == EncodeItems(env, ItemsOf(ty), v.items);
    if |v.items| <= U32_MAX && EncodeAll(env, ItemsOf(ty), v.items).Ok? {
      Pow256Values();
      WordBytes(4, |v.items|);
      var e, n := Encode(env, ty, v).value, LittleEndian(4, |v.items|);
      assert e == n + EncodeAll(env, ItemsOf(ty), v.items).value;
      assert e[..4] == n;
    }
  }

  /** Bytes that are not a string, and keys out of order, are told by their own errors. */
  lemma CollectionErrors(env: Env, strict: bool, ty: Ty, b: seq<byte>)
    requires WellFormed(env) && (ty.TString? || ty.TSeq? || IsSorted(ty))
    requires !(ty.TMap? && env.zst(ty.key))
    ensures var read, r := DecodeItems(env, strict, ItemsOf(ty), b), Decode(env, strict, ty, b);
            if read.Err? then r == Err(read.error)
            else if ty.TString? && !env.utf8(BytesOf(read.value.values)) then r == Err(InvalidUtf8)
            else if strict && IsSorted(ty) && !Ascending(env, ty, read.value.values) then r == Err(WrongOrder)
            else r.Ok? && r.value.rest == read.value.rest
  {
  }

  ghost predicate FirstUnwrittenField(env: Env, tys: seq<Ty>, items: seq<Val>, j: nat, e: CodecError)
    requires RowHasTypes(env, tys, items)
  {
    && j < |items| && Encode(env, tys[j], items[j]) == Err(e)
    && forall i | 0 <= i < j :: Encode(env, tys[i], items[i]).Ok?
  }

  lemma {:induction false} FirstErrorOfRow(env: Env, tys: seq<Ty>, items: seq<Val>, e: CodecError)
    requires RowHasTypes(env, tys, items)
    ensures EncodeRow(env, tys, items) == Err(e) <==> exists j: nat :: FirstUnwrittenField(env, tys, items, j, e)
    decreases |items|
  {
    if items != [] {
      var types, rest := tys[1..], items[1..];
      FirstErrorOfRow(env, types, rest, e);
      if Encode(env, tys[0], items[0]).Err? {
        assert Encode(env, tys[0], items[0]) == Err(e) ==> FirstUnwrittenField(env, tys, items, 0, e);
      } else {
        LaterUnwrittenField(env, tys, items, e);
      }
    }
  }

  lemma LaterUnwrittenField(env: Env, tys: seq<Ty>, items: seq<Val>, e: CodecError)
    requires RowHasTypes(env, tys, items) && items != [] && Encode(env, tys[0], items[0]).Ok?
    ensures RowHasTypes(env, tys[1..], items[1..])
    ensures (exists j: nat :: FirstUnwrittenField(env, tys, items, j, e)) <==>
            (exists j: nat :: FirstUnwrittenField(env, tys[1..], items[1..], j, e))
  {
    var types, rest := tys[1..], items[1..];
    assert forall i | 0 <= i < |rest| :: rest[i] == items[i + 1] && types[i] == tys[i + 1];
    if exists j: nat :: FirstUnwrittenField(env, types, rest, j, e) {
      var j: nat :| FirstUnwrittenField(env, types, rest, j, e);
      assert FirstUnwrittenField(env, tys, items, j + 1, e) by {
        forall i | 0 <= i < j + 1 ensures Encode(env, tys[i], items[i]).Ok? {
          assert i > 0 ==> items[i] == rest[i - 1] && tys[i] == types[i - 1];
        }
      }
    }
    if exists j: nat :: FirstUnwrittenField(env, tys, items, j, e) {
      var j: nat :| FirstUnwrittenField(env, tys, items, j, e);
      assert FirstUnwrittenField(env, types, rest, j - 1, e);
    }
  }

  function Repeat(ty: Ty, count: nat): (tys: seq<Ty>)
    ensures |tys| == count
  {
    seq(count, _ => ty)
  }

  /** The items of an array or a collection are written as the fields of a row, so that
      of those that cannot be written the first is reported as well. */
  lemma {:induction false} ItemsAreFields(env: Env, ty: Ty, items: seq<Val>)
    requires AllHaveType(env, ty, items)
    ensures RowHasTypes(env, Repeat(ty, |items|), items)
    ensures EncodeAll(env, ty, items) == EncodeRow(env, Repeat(ty, |items|), items)
    decreases |items|
  {
    assert RowHasTypes(env, Repeat(ty, |items|), items);
    if items != [] {
      assert Repeat(ty, |items|)[0] == ty && Repeat(ty, |items|)[1..] == Repeat(ty, |items| - 1);
      ItemsAreFields(env, ty, items[1..]);
    }
  }

  lemma FirstErrorWritten(env: Env, ty: Ty, items: seq<Val>, e: CodecError)
    requires AllHaveType(env, ty, items)
    ensures RowHasTypes(env, Repeat(ty, |items|), items)
    ensures EncodeAll(env, ty, items) == Err(e) <==>
            exists j: nat :: FirstUnwrittenField(env, Repeat(ty, |items|), items, j, e)
  {
    ItemsAreFields(env, ty, items);
    FirstErrorOfRow(env, Repeat(ty, |items|), items, e);
  }

  /** The fields before `j` decode, and `j` fails on what they leave. */
  ghost predicate FirstUnreadField(env: Env, strict: bool, tys: seq<Ty>, b: seq<byte>, j: nat, e: CodecError)
    requires WellFormed(env)
  {
    && j < |tys|
    && var before := DecodeRow(env, strict, tys[..j], b);
       before.Ok? && Decode(env, strict, tys[j], before.value.rest) == Err(e)
  }

  lemma {:induction false} FirstErrorRead(env: Env, strict: bool, tys: seq<Ty>, b: seq<byte>, e: CodecError)
    requires WellFormed(env)
    ensures DecodeRow(env, strict, tys, b) == Err(e) <==> exists j: nat :: FirstUnreadField(env, strict, tys, b, j, e)
    decreases |tys|
  {
    if tys != [] {
      var one, rest := Decode(env, strict, tys[0], b), tys[1..];
      assert tys[..0] == [] && DecodeRow(env, strict, [], b) == Ok(ParsedRow([], b));
      if one.Ok? {
        FirstErrorRead(env, strict, rest, one.value.rest, e);
        LaterFields(env, strict, tys, rest, b, one.value.rest, e);
      } else {
        forall j: nat | 0 < j < |tys| ensures DecodeRow(env, strict, tys[..j], b) == Err(one.error) {
          assert tys[..j][0] == tys[0];
        }
        assert one == Err(e) ==> FirstUnreadField(env, strict, tys, b, 0, e);
      }
    }
  }

  lemma LaterFields(env: Env, strict: bool, tys: seq<Ty>, more: seq<Ty>, b: seq<byte>, rest: seq<byte>, e: CodecError)
    requires WellFormed(env) && tys != [] && more == tys[1..]
    requires Decode(env, strict, tys[0], b).Ok? && Decode(env, strict, tys[0], b).value.rest == rest
    ensures (exists j: nat :: FirstUnreadField(env, strict, tys, b, j, e)) <==>
            (exists j: nat :: FirstUnreadField(env, strict, more, rest, j, e))
  {
    assert tys[..0] == [] && DecodeRow(env, strict, [], b) == Ok(ParsedRow([], b));
    if exists j: nat :: FirstUnreadField(env, strict, more, rest, j, e) {
      var j: nat :| FirstUnreadField(env, strict, more, rest, j, e);
      FieldOneLater(env, strict, tys, more, b, rest, j, e);
    }
    if exists j: nat :: FirstUnreadField(env, strict, tys, b, j, e) {
      var j: nat :| FirstUnreadField(env, strict, tys, b, j, e);
      FieldOneLater(env, strict, tys, more, b, rest, j - 1, e);
    }
  }

  lemma FieldOneLater(env: Env, strict: bool, tys: seq<Ty>, more: seq<Ty>, b: seq<byte>, rest: seq<byte>, j: nat, e: CodecError)
    requires WellFormed(env) && tys != [] && more == tys[1..] && j < |more|
    requires Decode(env, strict, tys[0], b).Ok? && Decode(env, strict, tys[0], b).value.rest == rest
    ensures FirstUnreadField(env, strict, tys, b, j + 1, e) <==> FirstUnreadField(env, strict, more, rest, j, e)
  {
    var before := tys[..j + 1];
    assert before[0] == tys[0] && before[1..] == more[..j];
    assert DecodeRow(env, strict, before, b).Ok? <==> DecodeRow(env, strict, before[1..], rest).Ok?;
  }

  /** The items of an array or a collection fail as the fields of a row do. */
  lemma {:induction false} ItemsAreRow(env: Env, strict: bool, ty: Ty, count: nat, b: seq<byte>)
    requires WellFormed(env)
    ensures DecodeAll(env, strict, ty, count, b) == DecodeRow(env, strict, Repeat(ty, count), b)
    decreases count
  {
    if count > 0 {
      assert Repeat(ty, count)[0] == ty && Repeat(ty, count)[1..] == Repeat(ty, count - 1);
      var one := Decode(env, strict, ty, b);
      if one.Ok? {
        ItemsAreRow(env, strict, ty, count - 1, one.value.rest);
      }
    }
  }

  /** Too few bytes for the length, and then whatever the first bad item gives. */
  lemma FirstErrorOfItems(env: Env, strict: bool, ty: Ty, b: seq<byte>, e: CodecError)
    requires WellFormed(env) && !env.zst(ty)
    ensures |b| < 4 ==> DecodeItems(env, strict, ty, b) == Err(UnexpectedLength)
    ensures |b| >= 4 ==>
              var count := FromLittleEndian(b[..4]);
              && IsBytesOf(b[..4], count)
              && (DecodeItems(env, strict, ty, b) == Err(e) <==>
                  exists j: nat :: FirstUnreadField(env, strict, Repeat(ty, count), b[4..], j, e))
  {
    if |b| >= 4 {
      var count := FromLittleEndian(b[..4]);
      WordBytes(4, count);
      LittleEndianCanonical(b[..4]);
      ItemsAreRow(env, strict, ty, count, b[4..]);
      FirstErrorRead(env, strict, Repeat(ty, count), b[4..], e);
    }
  }

  // ---- Instances ----

  lemma SmallIntegers(env: Env)
    ensures HasType(env, TInt(true, 1), VInt(-1)) && Encode(env, TInt(true, 1), VInt(-1)) == Ok([0xFF])
    ensures HasType(env, TInt(true, 2), VInt(-2)) && Encode(env, TInt(true, 2), VInt(-2)) == Ok([0xFE, 0xFF])
    ensures HasType(env, TInt(false, 2), VInt(258)) && Encode(env, TInt(false, 2), VInt(258)) == Ok([2, 1])
  {
    Pow256Values();
    assert Pow256(0) == 1;
    IntegerBytes(env, TInt(true, 1), -1);
    IntegerBytes(env, TInt(true, 2), -2);
    IntegerBytes(env, TInt(false, 2), 258);
    var one, two, three := Encode(env, TInt(true, 1), VInt(-1)).value, Encode(env, TInt(true, 2), VInt(-2)).value, Encode(env, TInt(false, 2), VInt(258)).value;
    assert one == [0xFF] && two == [0xFE, 0xFF] && three == [2, 1];
  }
}
