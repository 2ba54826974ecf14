/** The declarations and the definitions of the built-in types, spelled out, and those of
    derived types by their fields and variants. */
module BuiltIns {
  import opened Bytes
  import opened Types
  import opened Schema
  import opened Generate

  /** Numbers are written in decimal: a numeral is never empty, and another digit
      multiplies by ten. */
  lemma Numerals(n: nat, digit: nat)
    requires digit < 10
    ensures NatString(digit) == ["0123456789"[digit]]
    ensures n > 0 ==> NatString(10 * n + digit) == NatString(n) + ["0123456789"[digit]]
  {
    assert n > 0 ==> (10 * n + digit) / 10 == n && (10 * n + digit) % 10 == digit;
  }

  lemma WidthNumerals()
    ensures NatString(8) == "8" && NatString(16) == "16" && NatString(32) == "32"
    ensures NatString(64) == "64" && NatString(128) == "128"
  {
    Numerals(0, 8);
    Numerals(0, 1);
    Numerals(1, 6);
    Numerals(0, 3);
    Numerals(3, 2);
    Numerals(0, 6);
    Numerals(6, 4);
    Numerals(1, 2);
    Numerals(12, 8);
  }

  lemma NumberNames()
    ensures Decl(TInt(false, 1)) == "u8" && Decl(TInt(true, 1)) == "i8"
    ensures Decl(TInt(false, 2)) == "u16" && Decl(TInt(true, 2)) == "i16"
    ensures Decl(TInt(false, 4)) == "u32" && Decl(TInt(true, 4)) == "i32"
    ensures Decl(TInt(false, 8)) == "u64" && Decl(TInt(true, 8)) == "i64"
    ensures Decl(TInt(false, 16)) == "u128" && Decl(TInt(true, 16)) == "i128"
    ensures Decl(TFloat(4)) == "f32" && Decl(TFloat(8)) == "f64"
  {
    WidthNumerals();
  }

  lemma NonZeroNames()
    ensures Decl(TNonZero(false, 1)) == "NonZeroU8" && Decl(TNonZero(false, 2)) == "NonZeroU16"
    ensures Decl(TNonZero(false, 4)) == "NonZeroU32" && Decl(TNonZero(false, 8)) == "NonZeroU64"
    ensures Decl(TNonZero(false, 16)) == "NonZeroU128"
  {
    WidthNumerals();
  }

  lemma SignedNonZeroNames()
    ensures Decl(TNonZero(true, 1)) == "NonZeroI8" && Decl(TNonZero(true, 2)) == "NonZeroI16"
    ensures Decl(TNonZero(true, 4)) == "NonZeroI32" && Decl(TNonZero(true, 8)) == "NonZeroI64"
    ensures Decl(TNonZero(true, 16)) == "NonZeroI128"
  {
    WidthNumerals();
  }

  lemma OneArgument(name: string, head: string, a: string)
    requires head == name + "<"
    ensures name + Angled(a) == head + a + ">"
  {
  }

  lemma TwoArguments(name: string, head: string, a: string, b: string)
    requires head == name + "<"
    ensures name + Angled(a + ", " + b) == head + a + ", " + b + ">"
  {
    OneArgument(name, head, a + ", " + b);
    assert head + (a + ", " + b) == head + a + ", " + b;
  }

  lemma SimpleNames(a: Ty, len: usize)
    ensures Decl(TBool) == "bool" && Decl(TUnit) == "()" && Decl(TString) == "String"
    ensures Decl(TArray(a, len)) == "[" + Decl(a) + "; " + NatString(len) + "]"
  {
  }

  lemma ChoiceNames(a: Ty, b: Ty)
    ensures Decl(TOption(a)) == "Option<" + Decl(a) + ">"
    ensures Decl(TResult(a, b)) == "Result<" + Decl(a) + ", " + Decl(b) + ">"
  {
    OneArgument("Option", "Option<", Decl(a));
    TwoArguments("Result", "Result<", Decl(a), Decl(b));
  }

  lemma SequenceNames(a: Ty)
    ensures Decl(TSeq(Vec, a)) == "Vec<" + Decl(a) + ">"
    ensures Decl(TSeq(VecDeque, a)) == "VecDeque<" + Decl(a) + ">"
    ensures Decl(TSeq(LinkedList, a)) == "LinkedList<" + Decl(a) + ">"
  {
    OneArgument("Vec", "Vec<", Decl(a));
    OneArgument("VecDeque", "VecDeque<", Decl(a));
    OneArgument("LinkedList", "LinkedList<", Decl(a));
  }

  lemma SetNames(a: Ty)
    ensures Decl(TSet(BTree, a)) == "BTreeSet<" + Decl(a) + ">"
    ensures Decl(TSet(Hash, a)) == "HashSet<" + Decl(a) + ">"
  {
    assert "BTree" + "Set" == "BTreeSet" && "Hash" + "Set" == "HashSet";
    OneArgument("BTreeSet", "BTreeSet<", Decl(a));
    OneArgument("HashSet", "HashSet<", Decl(a));
  }

  lemma MapNames(a: Ty, b: Ty)
    ensures Decl(TMap(BTree, a, b)) == "BTreeMap<" + Decl(a) + ", " + Decl(b) + ">"
    ensures Decl(TMap(Hash, a, b)) == "HashMap<" + Decl(a) + ", " + Decl(b) + ">"
  {
    assert "BTree" + "Map" == "BTreeMap" && "Hash" + "Map" == "HashMap";
    TwoArguments("BTreeMap", "BTreeMap<", Decl(a), Decl(b));
    TwoArguments("HashMap", "HashMap<", Decl(a), Decl(b));
  }

  lemma TupleNames(a: Ty, b: Ty, more: seq<Ty>)
    ensures Decl(TTuple([a])) == "(" + Decl(a) + ",)"
    ensures Decl(TTuple([a, b])) == "(" + Decl(a) + ", " + Decl(b) + ")"
    ensures more != [] ==> Join([a] + more) == Decl(a) + ", " + Join(more)
    ensures Decl(TTuple([a, b] + more)) == "(" + Join([a, b] + more) + ")"
  {
    assert [a, b][1..] == [b] && Join([b]) == Decl(b);
    assert "(" + (Decl(a) + ", " + Decl(b)) + ")" == "(" + Decl(a) + ", " + Decl(b) + ")";
    assert ([a] + more)[1..] == more;
  }

  /** A number is as many bytes as its width, a flag is one, a unit none. */
  lemma PrimitiveDefinitions(env: Env, signed: bool, width: IntWidth, float: FloatWidth)
    ensures DefOf(env, TInt(signed, width)) == DefOf(env, TNonZero(signed, width)) == Primitive(width)
    ensures DefOf(env, TFloat(float)) == Primitive(float)
    ensures DefOf(env, TBool) == Primitive(1) && DefOf(env, TUnit) == Primitive(0)
  {
  }

  /** The tags and names of options and results, and the members of tuples. */
  lemma ChoiceDefinitions(env: Env, a: Ty, b: Ty, tys: seq<Ty>)
    ensures DefOf(env, TOption(a)) == Enum(1, [(0, "None", "()"), (1, "Some", Decl(a))])
    ensures DefOf(env, TResult(a, b)) == Enum(1, [(1, "Ok", Decl(a)), (0, "Err", Decl(b))])
    ensures DefOf(env, TTuple(tys)).Tuple? && |DefOf(env, TTuple(tys)).members| == |tys|
    ensures forall i | 0 <= i < |tys| :: DefOf(env, TTuple(tys)).members[i] == Decl(tys[i])
  {
  }

  /** Arrays have no length prefix and one length; every collection has a prefix of
      four bytes and any length that fits it. */
  lemma SequenceDefinitions(env: Env, a: Ty, kind: SeqKind, sorted: SortedKind, len: usize)
    ensures DefOf(env, TArray(a, len)) == Sequence(0, len, len, Decl(a))
    ensures DefOf(env, TSeq(kind, a)) == Sequence(4, 0, 0xFFFF_FFFF, Decl(a))
    ensures DefOf(env, TSet(sorted, a)) == Sequence(4, 0, 0xFFFF_FFFF, Decl(a))
  {
  }

  /** A string is a collection of bytes and a map one of pairs. */
  lemma ItemDefinitions(env: Env, a: Ty, b: Ty, sorted: SortedKind)
    ensures DefOf(env, TString) == Sequence(4, 0, 0xFFFF_FFFF, "u8")
    ensures DefOf(env, TMap(sorted, a, b)) == Sequence(4, 0, 0xFFFF_FFFF, "(" + Decl(a) + ", " + Decl(b) + ")")
  {
    NumberNames();
    TupleNames(a, b, []);
  }

  /** A derived struct keeps the names of its fields, if they have names, and their order. */
  lemma StructDefinition(env: Env, name: string, i: nat)
    requires IsStruct(env, name)
    ensures var fields, def := env.defs[name].fields, DefOf(env, TNamed(name));
            && def.Struct?
            && (def.fields.NoFields? <==> fields == [])
            && (def.fields.NamedFields? <==> fields != [] && env.defs[name].named)
            && (i < |fields| && def.fields.NamedFields? ==>
                  |def.fields.named| == |fields| && def.fields.named[i] == (fields[i].0, Decl(fields[i].1)))
            && (i < |fields| && def.fields.UnnamedFields? ==>
                  |def.fields.unnamed| == |fields| && def.fields.unnamed[i] == Decl(fields[i].1))
  {
  }

  /** A derived enum has tags of one byte, and its variants their names and inner structs. */
  lemma EnumDefinition(env: Env, name: string, i: nat)
    requires name in env.defs && env.defs[name].EnumDef?
    ensures var variants, def := env.defs[name].variants, DefOf(env, TNamed(name));
            && def.Enum? && def.tagWidth == 1 && |def.variants| == |variants|
            && (i < |variants| ==> def.variants[i] == (variants[i].tag as i64, variants[i].name, Decl(TNamed(variants[i].payload))))
  {
  }
}
