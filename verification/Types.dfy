/** The universe of serializable types, their values, and the environment of named types. */
module Types {
  import opened Bytes

  type IntWidth = w: nat | w == 1 || w == 2 || w == 4 || w == 8 || w == 16 witness 1
  type FloatWidth = w: nat | w == 4 || w == 8 witness 4

  datatype SeqKind = Vec | VecDeque | LinkedList
  datatype SortedKind = BTree | Hash

  datatype Ty =
    | TInt(signed: bool, intWidth: IntWidth)
    | TNonZero(nzSigned: bool, nzWidth: IntWidth)
    | TFloat(floatWidth: FloatWidth)
    | TBool
    | TUnit
    | TString
    | TOption(some: Ty)
    | TResult(ok: Ty, err: Ty)
    | TTuple(elems: seq<Ty>)
    | TArray(elem: Ty, len: usize)
    | TSeq(seqKind: SeqKind, item: Ty)
    | TSet(setKind: SortedKind, member: Ty)
    | TMap(mapKind: SortedKind, key: Ty, val: Ty)
    | TNamed(name: string)

  const U8 := TInt(false, 1)

  /** Values. A float is its bit pattern, a struct the tuple of its fields, a
      string the sequence of its bytes, a set its members and a map its
      key-value pairs in ascending order: two collections with the same
      contents are the same value. */
  datatype Val =
    | VInt(i: int)
    | VBool(b: bool)
    | VNone
    | VSome(v: Val)
    | VOk(v: Val)
    | VErr(v: Val)
    | VTuple(items: seq<Val>)
    | VSeq(items: seq<Val>)
    | VEnum(variant: nat, payload: Val)

  /** The last segment of a path: all that a derive puts into a declaration. Named
      types are told apart by their paths, so two of them may share it. */
  function Ident(path: string): string {
    if ':' in path then Ident(path[1..]) else path
  }

  /** A variant's fields are those of the inner struct the derive declares for it. */
  datatype Variant = Variant(tag: byte, name: string, payload: string)

  datatype NamedDef =
    | StructDef(named: bool, fields: seq<(string, Ty)>)
    | EnumDef(variants: seq<Variant>)

  /** Everything the codec takes from the program around it: the named types,
      a rank showing that structs do not contain themselves directly, which
      types occupy no memory, which byte strings are UTF-8, and each key
      type's order. */
  datatype Env = Env(defs: map<string, NamedDef>,
                     rank: map<string, nat>,
                     zst: Ty -> bool,
                     utf8: seq<byte> -> bool,
                     less: (Ty, Val, Val) -> bool)

  function FieldTys(fields: seq<(string, Ty)>): (tys: seq<Ty>)
    ensures |tys| == |fields|
  {
    seq(|fields|, i requires 0 <= i < |fields| => fields[i].1)
  }

  predicate IsStruct(env: Env, name: string) {
    name in env.defs && env.defs[name].StructDef?
  }

  /** How deep structs nest inside `ty` before any byte has to be read. */
  function TyRank(env: Env, ty: Ty): nat {
    match ty
    case TTuple(elems) => RowRank(env, elems)
    case TArray(elem, _) => TyRank(env, elem)
    case TNamed(name) => if IsStruct(env, name) && name in env.rank then env.rank[name] + 1 else 0
    case _ => 0
  }

  function RowRank(env: Env, tys: seq<Ty>): nat {
    if tys == [] then 0
    else
      var first, rest := TyRank(env, tys[0]), RowRank(env, tys[1..]);
      if first < rest then rest else first
  }

  /** The derive gives every variant of an enum a struct of its own. */
  ghost predicate HasVariantStructs(env: Env) {
    forall name | name in env.defs :: VariantsAreStructs(env, name)
  }

  ghost predicate VariantsAreStructs(env: Env, name: string)
    requires name in env.defs
  {
    match env.defs[name]
    case StructDef(_, _) => true
    case EnumDef(variants) => forall i | 0 <= i < |variants| :: IsStruct(env, variants[i].payload)
  }

  /** What the codec asks of a named type: a struct does not contain itself
      directly, and the tags of an enum differ. */
  ghost predicate WellFormedDef(env: Env, name: string)
    requires name in env.defs
  {
    && VariantsAreStructs(env, name)
    && match env.defs[name]
       case StructDef(_, fields) => name in env.rank && RowRank(env, FieldTys(fields)) <= env.rank[name]
       case EnumDef(variants) => forall i, j | 0 <= i < j < |variants| :: variants[i].tag != variants[j].tag
  }

  ghost predicate StrictTotalOrder(less: (Ty, Val, Val) -> bool) {
    && (forall t, a :: !less(t, a, a))
    && (forall t, a, b, c :: less(t, a, b) && less(t, b, c) ==> less(t, a, c))
    && (forall t, a, b :: less(t, a, b) || less(t, b, a) || a == b)
  }

  ghost predicate WellFormed(env: Env) {
    && HasVariantStructs(env)
    && (forall name | name in env.defs :: WellFormedDef(env, name))
    && StrictTotalOrder(env.less)
    && !env.zst(U8)
    && (forall k, v :: env.zst(TTuple([k, v])) ==> env.zst(k))
  }

  // ---- Integers and floats ----

  /** Half the number of words of a width: the first one that reads as negative. */
  function Half(width: nat): nat {
    if width == 0 then 0 else 128 * Pow256(width - 1)
  }

  predicate InRange(signed: bool, width: nat, i: int) {
    if signed then 0 <= i + Half(width) && i < Half(width) else 0 <= i < Pow256(width)
  }

  /** Two's complement. */
  function ToWord(width: nat, i: int): nat
    requires 0 <= i + Pow256(width)
  {
    if i < 0 then i + Pow256(width) else i
  }

  function FromWord(signed: bool, width: nat, word: nat): int {
    if signed && word >= Half(width) then word - Pow256(width) else word
  }

  lemma WordRoundTrip(signed: bool, width: nat, i: int)
    requires width > 0 && InRange(signed, width, i)
    ensures 0 <= i + Pow256(width) && ToWord(width, i) < Pow256(width)
    ensures FromWord(signed, width, ToWord(width, i)) == i
  {
    assert Pow256(width) == 2 * Half(width);
  }

  lemma WordCanonical(signed: bool, width: nat, word: nat)
    requires width > 0 && word < Pow256(width)
    ensures InRange(signed, width, FromWord(signed, width, word))
    ensures 0 <= FromWord(signed, width, word) + Pow256(width)
    ensures ToWord(width, FromWord(signed, width, word)) == word
    ensures FromWord(signed, width, word) == 0 <==> word == 0
  {
    assert Pow256(width) == 2 * Half(width);
  }

  /** The bit pattern has an all-ones exponent and a non-zero fraction. */
  predicate IsNaN(width: FloatWidth, bits: nat) {
    if width == 4 then bits % 0x8000_0000 > 0x7F80_0000
    else bits % 0x8000_0000_0000_0000 > 0x7FF0_0000_0000_0000
  }

  // ---- Ordered collections ----

  function KeyOf(item: Val): Val {
    if item.VTuple? && item.items != [] then item.items[0] else item
  }

  /** The order on the items of a set, or on the entries of a map by key. */
  predicate Precedes(env: Env, ty: Ty, a: Val, b: Val) {
    match ty
    case TSet(_, member) => env.less(member, a, b)
    case TMap(_, key, _) => env.less(key, KeyOf(a), KeyOf(b))
    case _ => false
  }

  /** Every adjacent pair is in strictly ascending order. */
  predicate Ascending(env: Env, ty: Ty, items: seq<Val>) {
    forall i | 0 < i < |items| :: Precedes(env, ty, items[i - 1], items[i])
  }

  /** Putting an item into an ordered collection; an equal key is overwritten. */
  function Insert(env: Env, ty: Ty, acc: seq<Val>, x: Val): seq<Val> {
    if acc == [] then [x]
    else if Precedes(env, ty, x, acc[0]) then [x] + acc
    else if Precedes(env, ty, acc[0], x) then [acc[0]] + Insert(env, ty, acc[1..], x)
    else [x] + acc[1..]
  }

  /** Collecting a vector into an ordered or hashed collection, item by item. */
  function Collect(env: Env, ty: Ty, items: seq<Val>): seq<Val> {
    if items == [] then []
    else Insert(env, ty, Collect(env, ty, items[..|items| - 1]), items[|items| - 1])
  }

  lemma {:induction false} AscendingFar(env: Env, ty: Ty, items: seq<Val>, i: nat, j: nat)
    requires StrictTotalOrder(env.less) && Ascending(env, ty, items)
    requires i < j < |items|
    ensures Precedes(env, ty, items[i], items[j])
    decreases j
  {
    if i + 1 < j {
      AscendingFar(env, ty, items, i, j - 1);
      assert Precedes(env, ty, items[j - 1], items[j]);
    }
  }

  lemma {:induction false} InsertAtEnd(env: Env, ty: Ty, acc: seq<Val>, x: Val)
    requires StrictTotalOrder(env.less)
    requires forall y | y in acc :: Precedes(env, ty, y, x)
    ensures Insert(env, ty, acc, x) == acc + [x]
  {
    if acc != [] {
      assert acc[0] in acc;
      InsertAtEnd(env, ty, acc[1..], x);
    }
  }

  /** Collecting an ascending sequence changes nothing. */
  lemma {:induction false} CollectAscending(env: Env, ty: Ty, items: seq<Val>)
    requires StrictTotalOrder(env.less) && Ascending(env, ty, items)
    ensures Collect(env, ty, items) == items
  {
    if items != [] {
      var n := |items| - 1;
      var init := items[..n];
      CollectAscending(env, ty, init);
      forall y | y in init ensures Precedes(env, ty, y, items[n]) {
        var i :| 0 <= i < n && init[i] == y;
        AscendingFar(env, ty, items, i, n);
      }
      InsertAtEnd(env, ty, init, items[n]);
    }
  }

  predicate IsSorted(ty: Ty) {
    ty.TSet? || ty.TMap?
  }

  lemma {:induction false} InsertKeepsOrder(env: Env, ty: Ty, acc: seq<Val>, x: Val)
    requires StrictTotalOrder(env.less) && IsSorted(ty) && Ascending(env, ty, acc)
    ensures var r := Insert(env, ty, acc, x);
            && Ascending(env, ty, r)
            && 0 < |r| <= |acc| + 1
            && (forall y | y in r :: y == x || y in acc)
            && (r[0] == x || (acc != [] && r[0] == acc[0]))
  {
    if acc != [] {
      var tail := acc[1..];
      assert Ascending(env, ty, tail) by {
        forall i | 0 < i < |tail| ensures Precedes(env, ty, tail[i - 1], tail[i]) {
          assert tail[i - 1] == acc[i] && tail[i] == acc[i + 1];
        }
      }
      InsertKeepsOrder(env, ty, tail, x);
      if tail != [] {
        assert Precedes(env, ty, acc[0], acc[1]);
      }
    }
  }

  /** Whatever is collected ends up ascending and comes from the input. */
  lemma {:induction false} CollectKeepsOrder(env: Env, ty: Ty, items: seq<Val>)
    requires StrictTotalOrder(env.less) && IsSorted(ty)
    ensures var r := Collect(env, ty, items);
            Ascending(env, ty, r) && |r| <= |items| && forall y | y in r :: y in items
  {
    if items != [] {
      var n := |items| - 1;
      CollectKeepsOrder(env, ty, items[..n]);
      InsertKeepsOrder(env, ty, Collect(env, ty, items[..n]), items[n]);
    }
  }

  // ---- Typing ----

  ghost predicate HasType(env: Env, ty: Ty, v: Val)
    decreases v
  {
    match ty
    case TInt(signed, width) => v.VInt? && InRange(signed, width, v.i)
    case TNonZero(signed, width) => v.VInt? && InRange(signed, width, v.i) && v.i != 0
    case TFloat(width) => v.VInt? && 0 <= v.i < Pow256(width)
    case TBool => v.VBool?
    case TUnit => v == VTuple([])
    case TString => v.VSeq? && AllHaveType(env, U8, v.items) && env.utf8(BytesOf(v.items))
    case TOption(some) => v.VNone? || (v.VSome? && HasType(env, some, v.v))
    case TResult(ok, err) => (v.VOk? && HasType(env, ok, v.v)) || (v.VErr? && HasType(env, err, v.v))
    case TTuple(elems) => v.VTuple? && RowHasTypes(env, elems, v.items)
    case TArray(elem, len) => v.VSeq? && |v.items| == len && AllHaveType(env, elem, v.items)
    case TSeq(_, item) => v.VSeq? && AllHaveType(env, item, v.items)
    case TSet(_, member) => v.VSeq? && AllHaveType(env, member, v.items) && Ascending(env, ty, v.items)
    case TMap(_, key, val) => v.VSeq? && AllHaveType(env, TTuple([key, val]), v.items) && Ascending(env, ty, v.items)
    case TNamed(name) =>
      && name in env.defs
      && match env.defs[name]
         case StructDef(_, fields) => v.VTuple? && RowHasTypes(env, FieldTys(fields), v.items)
         case EnumDef(variants) =>
           && v.VEnum? && v.variant < |variants|
           && IsStruct(env, variants[v.variant].payload)
           && HasType(env, TNamed(variants[v.variant].payload), v.payload)
  }

  ghost predicate AllHaveType(env: Env, ty: Ty, items: seq<Val>)
    decreases items
  {
    forall i | 0 <= i < |items| :: HasType(env, ty, items[i])
  }

  ghost predicate RowHasTypes(env: Env, tys: seq<Ty>, items: seq<Val>)
    decreases items
  {
    |tys| == |items| && forall i | 0 <= i < |items| :: HasType(env, tys[i], items[i])
  }

  /** The bytes of a sequence of 8-bit values. */
  function BytesOf(items: seq<Val>): (b: seq<byte>)
    ensures |b| == |items|
  {
    seq(|items|, i requires 0 <= i < |items| => if items[i].VInt? && 0 <= items[i].i < 256 then items[i].i else 0)
  }

  /** The 8-bit values of a sequence of bytes. */
  function Ints(b: seq<byte>): (items: seq<Val>)
    ensures |items| == |b|
  {
    seq(|b|, i requires 0 <= i < |b| => VInt(b[i]))
  }

  lemma BytesOfInts(b: seq<byte>)
    ensures BytesOf(Ints(b)) == b
  {
  }
}
