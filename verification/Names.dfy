/** When declarations tell types apart, and when they do not. */
module Names {
  import opened Wrappers
  import opened Types
  import opened Schema
  import opened Collection
  import opened Generate

  // ---- Words and what may follow a declaration ----

  /** The characters that declarations are put together with. */
  predicate IsPunctuation(c: char) {
    c == '<' || c == '(' || c == '[' || c == ' ' || Closes(c)
  }

  /** The characters that can come right after a declaration. */
  predicate Closes(c: char) {
    c == ',' || c == ';' || c == '>' || c == ')' || c == ']'
  }

  predicate IsWord(s: string) {
    forall i | 0 <= i < |s| :: !IsPunctuation(s[i])
  }

  predicate Stops(x: string) {
    x == [] || Closes(x[0])
  }

  predicate IsLeaf(t: Ty) {
    t.TInt? || t.TNonZero? || t.TFloat? || t.TBool? || t.TString?
  }

  ghost predicate IsBuiltIn(word: string) {
    exists t :: IsLeaf(t) && Decl(t) == word
  }

  function FirstCharacter(t: Ty): char
    requires IsLeaf(t)
  {
    match t
    case TInt(signed, _) => if signed then 'i' else 'u'
    case TNonZero(_, _) => 'N'
    case TFloat(_) => 'f'
    case TBool => 'b'
    case TString => 'S'
  }

  lemma LeafIsWord(t: Ty)
    requires IsLeaf(t)
    ensures IsWord(Decl(t)) && Decl(t) != "" && Decl(t)[0] == FirstCharacter(t)
  {
    match t
    case TInt(_, width) => NatStringIsWord(8 * width);
    case TNonZero(_, width) => NatStringIsWord(8 * width);
    case TFloat(width) => NatStringIsWord(8 * width);
    case TBool =>
    case TString =>
  }

  lemma LeafInjective(t: Ty, u: Ty)
    requires IsLeaf(t) && IsLeaf(u) && Decl(t) == Decl(u)
    ensures t == u
  {
    LeafIsWord(t);
    LeafIsWord(u);
    match t
    case TInt(signed, width) => NumberCancel(if signed then "i" else "u", 8 * width, 8 * u.intWidth);
    case TNonZero(signed, width) =>
      assert Decl(t)[7] == if signed then 'I' else 'U';
      assert Decl(u)[7] == if u.nzSigned then 'I' else 'U';
      NumberCancel(if signed then "NonZeroI" else "NonZeroU", 8 * width, 8 * u.nzWidth);
    case TFloat(width) => NumberCancel("f", 8 * width, 8 * u.floatWidth);
    case TBool =>
    case TString =>
  }

  lemma NumberCancel(prefix: string, m: nat, n: nat)
    requires prefix + NatString(m) == prefix + NatString(n)
    ensures m == n
  {
    Strip(prefix, NatString(m), NatString(n));
    NatStringInjective(m, n);
  }

  // ---- Plain types ----

  /** Named types whose last segments are single words, no built-in names and
      pairwise different. */
  ghost predicate PlainNames(names: set<string>) {
    && (forall n | n in names :: Ident(n) != [] && IsWord(Ident(n)) && !IsBuiltIn(Ident(n)))
    && (forall m, n | m in names && n in names && Ident(m) == Ident(n) :: m == n)
  }

  /** A type put together from built-in types and these names; the tuple of no
      types is the unit type. */
  predicate PlainTy(names: set<string>, t: Ty)
    decreases t
  {
    match t
    case TOption(some) => PlainTy(names, some)
    case TResult(ok, err) => PlainTy(names, ok) && PlainTy(names, err)
    case TTuple(elems) => elems != [] && PlainRow(names, elems)
    case TArray(elem, _) => PlainTy(names, elem)
    case TSeq(_, item) => PlainTy(names, item)
    case TSet(_, member) => PlainTy(names, member)
    case TMap(_, key, val) => PlainTy(names, key) && PlainTy(names, val)
    case TNamed(name) => name in names
    case _ => true
  }

  predicate PlainRow(names: set<string>, tys: seq<Ty>)
    decreases tys
  {
    forall i | 0 <= i < |tys| :: PlainTy(names, tys[i])
  }

  // ---- A declaration is a word and then a bracket ----

  function Head(t: Ty): string {
    match t
    case TUnit => ""
    case TTuple(_) => ""
    case TArray(_, _) => ""
    case TOption(_) => "Option"
    case TResult(_, _) => "Result"
    case TSeq(kind, _) => SeqName(kind)
    case TSet(kind, _) => SortedName(kind) + "Set"
    case TMap(kind, _, _) => SortedName(kind) + "Map"
    case _ => Decl(t)
  }

  function Tail(t: Ty): string {
    match t
    case TUnit => "()"
    case TTuple(elems) => if |elems| == 1 then "(" + Decl(elems[0]) + ",)" else "(" + Join(elems) + ")"
    case TArray(elem, len) => "[" + Decl(elem) + "; " + NatString(len) + "]"
    case TOption(some) => Angled(Decl(some))
    case TResult(ok, err) => Angled(Decl(ok) + ", " + Decl(err))
    case TSeq(_, item) => Angled(Decl(item))
    case TSet(_, member) => Angled(Decl(member))
    case TMap(_, key, val) => Angled(Decl(key) + ", " + Decl(val))
    case _ => ""
  }

  /** Which generic type, counted from one, a word before an angle bracket means. */
  function Generic(word: string): nat {
    if word == "Option" then 1 else if word == "Result" then 2
    else if word == "Vec" then 3 else if word == "VecDeque" then 4 else if word == "LinkedList" then 5
    else if word == "BTreeSet" then 6 else if word == "HashSet" then 7
    else if word == "BTreeMap" then 8 else if word == "HashMap" then 9
    else 0
  }

  function GenericOf(t: Ty): nat {
    match t
    case TOption(_) => 1
    case TResult(_, _) => 2
    case TSeq(kind, _) => if kind.Vec? then 3 else if kind.VecDeque? then 4 else 5
    case TSet(kind, _) => if kind.BTree? then 6 else 7
    case TMap(kind, _, _) => if kind.BTree? then 8 else 9
    case _ => 0
  }

  lemma HeadAndTail(names: set<string>, t: Ty)
    requires PlainNames(names) && PlainTy(names, t)
    ensures Decl(t) == Head(t) + Tail(t) && IsWord(Head(t))
    ensures Tail(t) == "" <==> IsLeaf(t) || t.TNamed?
    ensures Tail(t) != "" ==> Tail(t)[0] == if GenericOf(t) > 0 then '<' else if t.TArray? then '[' else '('
  {
    HeadThenTail(t);
    HeadIsWord(names, t);
    TailOpens(t);
  }

  lemma HeadThenTail(t: Ty)
    ensures Decl(t) == Head(t) + Tail(t)
  {
    if Head(t) == "" {
      assert "" + Tail(t) == Tail(t);
    }
  }

  lemma HeadIsWord(names: set<string>, t: Ty)
    requires PlainNames(names) && PlainTy(names, t)
    ensures IsWord(Head(t))
  {
    if IsLeaf(t) {
      LeafIsWord(t);
    } else if GenericOf(t) > 0 {
      GenericWords();
      GenericHeadName(t);
    }
  }

  lemma GenericWords()
    ensures IsWord("Option") && IsWord("Result") && IsWord("Vec") && IsWord("VecDeque") && IsWord("LinkedList")
    ensures IsWord("BTreeSet") && IsWord("HashSet") && IsWord("BTreeMap") && IsWord("HashMap")
  {
  }

  lemma GenericHeadName(t: Ty)
    requires GenericOf(t) > 0
    ensures Head(t) == ["Option", "Result", "Vec", "VecDeque", "LinkedList", "BTreeSet", "HashSet", "BTreeMap", "HashMap"][GenericOf(t) - 1]
  {
    if t.TSet? {
      assert Head(t) == if t.setKind.BTree? then "BTreeSet" else "HashSet";
    } else if t.TMap? {
      assert Head(t) == if t.mapKind.BTree? then "BTreeMap" else "HashMap";
    }
  }

  lemma AngledOpens(arguments: string)
    ensures Angled(arguments) != "" && Angled(arguments)[0] == '<'
  {
  }

  lemma TailOpens(t: Ty)
    ensures Tail(t) == "" <==> IsLeaf(t) || t.TNamed?
    ensures Tail(t) != "" ==> Tail(t)[0] == if GenericOf(t) > 0 then '<' else if t.TArray? then '[' else '('
  {
    match t
    case TOption(a) => AngledOpens(Decl(a));
    case TResult(a, b) => AngledOpens(Decl(a) + ", " + Decl(b));
    case TSeq(_, a) => AngledOpens(Decl(a));
    case TSet(_, a) => AngledOpens(Decl(a));
    case TMap(_, a, b) => AngledOpens(Decl(a) + ", " + Decl(b));
    case _ =>
  }

  lemma GenericHead(t: Ty)
    requires GenericOf(t) > 0
    ensures Generic(Head(t)) == GenericOf(t)
  {
    GenericHeadName(t);
  }

  // ---- Cancelling equal beginnings ----

  lemma Strip(a: string, x: string, y: string)
    requires a + x == a + y
    ensures x == y
  {
    assert x == (a + x)[|a|..];
    assert y == (a + y)[|a|..];
  }

  lemma Assoc(a: string, b: string, c: string)
    ensures a + b + c == a + (b + c)
  {
  }

  /** Two words that are followed by punctuation, or by nothing, in the same text. */
  lemma WordCancel(a: string, b: string, x: string, y: string)
    requires IsWord(a) && IsWord(b) && a + x == b + y
    requires x == [] || IsPunctuation(x[0])
    requires y == [] || IsPunctuation(y[0])
    ensures a == b && x == y
  {
    var all := a + x;
    assert forall i | 0 <= i < |a| :: all[i] == a[i];
    assert forall i | 0 <= i < |b| :: all[i] == b[i];
    assert x != [] ==> all[|a|] == x[0];
    assert y != [] ==> all[|b|] == y[0];
    assert |a| == |b|;
    assert a == all[..|a|] && b == all[..|b|];
    Strip(a, x, y);
  }

  lemma {:induction false} NatStringIsWord(n: nat)
    ensures IsWord(NatString(n)) && NatString(n) != ""
  {
    assert !IsPunctuation("0123456789"[n % 10]);
    if n >= 10 {
      NatStringIsWord(n / 10);
    }
  }

  lemma {:induction false} NatStringInjective(m: nat, n: nat)
    requires NatString(m) == NatString(n)
    ensures m == n
  {
    var p, q := NatString(m), NatString(n);
    assert p[|p| - 1] == "0123456789"[m % 10] && q[|q| - 1] == "0123456789"[n % 10];
    assert m % 10 == n % 10;
    NatStringIsWord(m / 10);
    NatStringIsWord(n / 10);
    assert m >= 10 ==> p[..|p| - 1] == NatString(m / 10);
    assert n >= 10 ==> q[..|q| - 1] == NatString(n / 10);
    if m >= 10 && n >= 10 {
      NatStringInjective(m / 10, n / 10);
    }
  }

  /** A bracket, or nothing. */
  predicate Opens(s: string) {
    s == "" || s[0] == '<' || s[0] == '(' || s[0] == '['
  }

  /** Two texts made of a word, a bracketed part and a rest. */
  lemma TextsCancel(a: string, b: string, s: string, t: string, x: string, y: string)
    requires IsWord(a) && IsWord(b) && Opens(s) && Opens(t) && Stops(x) && Stops(y)
    requires a + s + x == b + t + y
    ensures a == b && s + x == t + y
    ensures s == "" <==> t == ""
    ensures s != "" ==> s[0] == t[0]
    ensures s == "" ==> x == y
  {
    Assoc(a, s, x);
    Assoc(b, t, y);
    assert s + x != "" ==> (s + x)[0] == if s == "" then x[0] else s[0];
    assert t + y != "" ==> (t + y)[0] == if t == "" then y[0] else t[0];
    WordCancel(a, b, s + x, t + y);
    SameOpening(s, t, x, y);
  }

  /** What two types whose declarations begin the same text have in common at once. */
  lemma HeadsCancel(names: set<string>, t: Ty, u: Ty, x: string, y: string)
    requires PlainNames(names) && PlainTy(names, t) && PlainTy(names, u)
    requires Decl(t) + x == Decl(u) + y && Stops(x) && Stops(y)
    ensures Head(t) == Head(u) && Tail(t) + x == Tail(u) + y
    ensures Tail(t) == "" <==> Tail(u) == ""
    ensures Tail(t) != "" ==> Tail(t)[0] == Tail(u)[0]
    ensures Tail(t) == "" ==> Decl(t) == Decl(u) && x == y
  {
    HeadAndTail(names, t);
    HeadAndTail(names, u);
    TextsCancel(Head(t), Head(u), Tail(t), Tail(u), x, y);
  }

  /** Equal words and equal brackets mean the same kind of type. */
  lemma KindsAgree(names: set<string>, t: Ty, u: Ty)
    requires PlainNames(names) && PlainTy(names, t) && PlainTy(names, u)
    requires Head(t) == Head(u) && (Tail(t) == "" <==> Tail(u) == "")
    requires Tail(t) != "" ==> Tail(t)[0] == Tail(u)[0]
    ensures GenericOf(t) == GenericOf(u) && (t.TArray? <==> u.TArray?)
    ensures Tail(t) == "" <==> IsLeaf(t) || t.TNamed?
    ensures Tail(t) == "" <==> IsLeaf(u) || u.TNamed?
  {
    TailOpens(t);
    TailOpens(u);
    if GenericOf(t) > 0 {
      GenericHead(t);
    }
    if GenericOf(u) > 0 {
      GenericHead(u);
    }
  }

  /** Equal texts that begin with declarations begin with the same type's, and
      go on the same way. */
  lemma {:induction false} DeclCancel(names: set<string>, t: Ty, u: Ty, x: string, y: string)
    requires PlainNames(names) && PlainTy(names, t) && PlainTy(names, u)
    requires Decl(t) + x == Decl(u) + y && Stops(x) && Stops(y)
    ensures t == u && x == y
    decreases t, 1
  {
    HeadsCancel(names, t, u, x, y);
    KindsAgree(names, t, u);
    if Tail(t) == "" {
      WordsCancel(names, t, u);
    } else if GenericOf(t) > 0 {
      ArgumentsCancel(names, t, u, x, y);
    } else if t.TArray? {
      ArrayCancel(names, t, u, x, y);
    } else {
      TupleCancel(names, t, u, x, y);
    }
  }

  lemma SameOpening(a: string, b: string, x: string, y: string)
    requires a + x == b + y && Stops(x) && Stops(y) && Opens(a) && Opens(b)
    ensures a == "" <==> b == ""
    ensures a != "" ==> a[0] == b[0]
    ensures a == "" ==> x == y
  {
    var all := a + x;
    assert a == "" ==> all == x;
    assert b == "" ==> all == y;
    assert a != "" ==> all[0] == a[0];
    assert b != "" ==> all[0] == b[0];
  }

  lemma Regrouped(a: string, b: string, c: string, d: string, e: string)
    ensures a + (b + c + d) + e == a + b + c + d + e
  {
    Assoc(a, b + c, d);
    Assoc(a, b, c);
  }

  /** An opening, a first part and what closes it. */
  lemma Peel(open: string, a: string, b: string, c: string, d: string, x: string, y: string)
    requires open + a + c + x == open + b + d + y
    ensures a + (c + x) == b + (d + y)
  {
    Assoc(open + a, c, x);
    Assoc(open, a, c + x);
    Assoc(open + b, d, y);
    Assoc(open, b, d + y);
    Strip(open, a + (c + x), b + (d + y));
  }

  /** An opening, a first part, a separator, a second part and what closes it. */
  lemma PeelTwo(open: string, a: string, b: string, c: string, d: string, separator: string, close: string, x: string, y: string)
    requires open + a + separator + b + close + x == open + c + separator + d + close + y
    ensures a + (separator + (b + (close + x))) == c + (separator + (d + (close + y)))
  {
    Assoc(open + a + separator, b, close);
    Assoc(open + a + separator, b + close, x);
    Assoc(b, close, x);
    Assoc(open + c + separator, d, close);
    Assoc(open + c + separator, d + close, y);
    Assoc(d, close, y);
    Peel(open, a, c, separator, separator, b + (close + x), d + (close + y));
  }

  lemma WordsCancel(names: set<string>, t: Ty, u: Ty)
    requires PlainNames(names) && PlainTy(names, t) && PlainTy(names, u)
    requires (IsLeaf(t) || t.TNamed?) && (IsLeaf(u) || u.TNamed?) && Decl(t) == Decl(u)
    ensures t == u
  {
    if IsLeaf(t) && IsLeaf(u) {
      LeafInjective(t, u);
    }
  }

  lemma {:induction false} ArgumentsCancel(names: set<string>, t: Ty, u: Ty, x: string, y: string)
    requires PlainNames(names) && PlainTy(names, t) && PlainTy(names, u)
    requires GenericOf(t) == GenericOf(u) > 0 && Tail(t) + x == Tail(u) + y
    ensures t == u && x == y
    decreases t, 0, 1
  {
    match t
    case TOption(a) => OneCancels(names, t, a, u.some, x, y);
    case TSeq(_, a) => OneCancels(names, t, a, u.item, x, y);
    case TSet(_, a) => OneCancels(names, t, a, u.member, x, y);
    case TResult(a, b) => TwoCancel(names, t, a, b, u.ok, u.err, x, y);
    case TMap(_, a, b) => TwoCancel(names, t, a, b, u.key, u.val, x, y);
  }

  lemma {:induction false} OneCancels(names: set<string>, owner: Ty, a: Ty, b: Ty, x: string, y: string)
    requires PlainNames(names) && PlainTy(names, a) && PlainTy(names, b) && a < owner
    requires Angled(Decl(a)) + x == Angled(Decl(b)) + y
    ensures a == b && x == y
    decreases owner, 0, 0
  {
    Peel("<", Decl(a), Decl(b), ">", ">", x, y);
    DeclCancel(names, a, b, ">" + x, ">" + y);
    Strip(">", x, y);
  }

  lemma {:induction false} TwoCancel(names: set<string>, owner: Ty, a: Ty, b: Ty, c: Ty, d: Ty, x: string, y: string)
    requires PlainNames(names) && PlainTy(names, a) && PlainTy(names, b) && PlainTy(names, c) && PlainTy(names, d)
    requires a < owner && b < owner
    requires Angled(Decl(a) + ", " + Decl(b)) + x == Angled(Decl(c) + ", " + Decl(d)) + y
    ensures a == c && b == d && x == y
    decreases owner, 0, 0
  {
    var p, q := Decl(b) + (">" + x), Decl(d) + (">" + y);
    Regrouped("<", Decl(a), ", ", Decl(b), ">");
    Regrouped("<", Decl(c), ", ", Decl(d), ">");
    PeelTwo("<", Decl(a), Decl(b), Decl(c), Decl(d), ", ", ">", x, y);
    DeclCancel(names, a, c, ", " + p, ", " + q);
    Strip(", ", p, q);
    DeclCancel(names, b, d, ">" + x, ">" + y);
    Strip(">", x, y);
  }

  lemma {:induction false} ArrayCancel(names: set<string>, t: Ty, u: Ty, x: string, y: string)
    requires PlainNames(names) && PlainTy(names, t) && PlainTy(names, u)
    requires t.TArray? && u.TArray? && Tail(t) + x == Tail(u) + y
    ensures t == u && x == y
    decreases t, 0
  {
    var a, b := t.elem, u.elem;
    var p, q := NatString(t.len) + ("]" + x), NatString(u.len) + ("]" + y);
    PeelTwo("[", Decl(a), NatString(t.len), Decl(b), NatString(u.len), "; ", "]", x, y);
    DeclCancel(names, a, b, "; " + p, "; " + q);
    Strip("; ", p, q);
    NatStringIsWord(t.len);
    NatStringIsWord(u.len);
    WordCancel(NatString(t.len), NatString(u.len), "]" + x, "]" + y);
    NatStringInjective(t.len, u.len);
    Strip("]", x, y);
  }

  // ---- Tuples ----

  /** What comes after the first member of a tuple. */
  function Others(elems: seq<Ty>): string
    requires elems != []
  {
    if |elems| == 1 then ",)" else ", " + Join(elems[1..]) + ")"
  }

  lemma DeclNotEmpty(names: set<string>, t: Ty)
    requires PlainNames(names) && PlainTy(names, t)
    ensures Decl(t) != "" && Decl(t)[0] != ')'
  {
    HeadAndTail(names, t);
    if IsLeaf(t) {
      LeafIsWord(t);
    }
  }

  lemma {:induction false} TupleCancel(names: set<string>, t: Ty, u: Ty, x: string, y: string)
    requires PlainNames(names) && PlainTy(names, t) && PlainTy(names, u)
    requires (t.TUnit? || t.TTuple?) && (u.TUnit? || u.TTuple?) && Tail(t) + x == Tail(u) + y
    ensures t == u && x == y
    decreases t, 0, 2
  {
    SecondCharacter(names, t, x);
    SecondCharacter(names, u, y);
    if t.TTuple? {
      var e, f := t.elems, u.elems;
      Opened(e, x);
      Opened(f, y);
      Strip("(", Decl(e[0]) + (Others(e) + x), Decl(f[0]) + (Others(f) + y));
      DeclCancel(names, e[0], f[0], Others(e) + x, Others(f) + y);
      OthersCancel(names, t, e, f, x, y);
      assert e == [e[0]] + e[1..] && f == [f[0]] + f[1..];
    } else if t.TUnit? {
      Strip("()", x, y);
    }
  }

  /** The character after the opening parenthesis tells the unit type from a tuple. */
  lemma SecondCharacter(names: set<string>, t: Ty, x: string)
    requires PlainNames(names) && PlainTy(names, t) && (t.TUnit? || t.TTuple?)
    ensures |Tail(t) + x| > 1 && ((Tail(t) + x)[1] == ')' <==> t.TUnit?)
  {
    if t.TTuple? {
      DeclNotEmpty(names, t.elems[0]);
      Opened(t.elems, x);
    }
  }

  lemma Opened(elems: seq<Ty>, x: string)
    requires elems != []
    ensures Tail(TTuple(elems)) + x == "(" + (Decl(elems[0]) + (Others(elems) + x))
  {
    var d := Decl(elems[0]);
    if |elems| == 1 {
      Assoc("(" + d, ",)", x);
      Assoc("(", d, ",)" + x);
    } else {
      var j := Join(elems[1..]);
      Regrouped("(", d, ", ", j, ")");
      Regrouped("(" + d, ", ", j, ")", x);
      Assoc("(" + d, ", " + j + ")", x);
      Assoc("(", d, ", " + j + ")" + x);
    }
  }

  lemma {:induction false} OthersCancel(names: set<string>, owner: Ty, e: seq<Ty>, f: seq<Ty>, x: string, y: string)
    requires PlainNames(names) && PlainRow(names, e) && PlainRow(names, f)
    requires e != [] && f != [] && Others(e) + x == Others(f) + y
    requires forall i | 0 <= i < |e| :: e[i] < owner
    ensures e[1..] == f[1..] && x == y
    decreases owner, 0, 1
  {
    SecondMember(e, x);
    SecondMember(f, y);
    if |e| == 1 {
      Strip(",)", x, y);
    } else {
      Strip(", ", Closed(e[1..], x), Closed(f[1..], y));
      JoinCancel(names, owner, e[1..], f[1..], x, y);
    }
  }

  lemma SecondMember(e: seq<Ty>, x: string)
    requires e != []
    ensures (Others(e) + x)[1] == if |e| == 1 then ')' else ' '
    ensures |e| > 1 ==> Others(e) + x == ", " + Closed(e[1..], x)
  {
    if |e| > 1 {
      Assoc(", ", Join(e[1..]), ")");
      Assoc(", ", Join(e[1..]) + ")", x);
      Assoc(Join(e[1..]), ")", x);
    }
  }

  /** The members of a tuple, the closing parenthesis and what follows. */
  function Closed(e: seq<Ty>, x: string): string {
    Join(e) + (")" + x)
  }

  function AfterFirst(e: seq<Ty>, x: string): string
    requires e != []
  {
    if |e| == 1 then ")" + x else ", " + Closed(e[1..], x)
  }

  lemma JoinStep(e: seq<Ty>, x: string)
    requires e != []
    ensures Closed(e, x) == Decl(e[0]) + AfterFirst(e, x)
    ensures AfterFirst(e, x) != "" && AfterFirst(e, x)[0] == if |e| == 1 then ')' else ','
  {
    if |e| > 1 {
      var d, j := Decl(e[0]), Join(e[1..]);
      Assoc(d + ", ", j, ")" + x);
      Assoc(d, ", ", j + (")" + x));
    }
  }

  lemma {:induction false} JoinHeads(names: set<string>, owner: Ty, e: seq<Ty>, f: seq<Ty>, x: string, y: string)
    requires PlainNames(names) && PlainRow(names, e) && PlainRow(names, f)
    requires e != [] && f != [] && Closed(e, x) == Closed(f, y)
    requires forall i | 0 <= i < |e| :: e[i] < owner
    ensures e[0] == f[0] && AfterFirst(e, x) == AfterFirst(f, y)
    ensures |e| == 1 <==> |f| == 1
    decreases owner, 0, 0, 0
  {
    JoinStep(e, x);
    JoinStep(f, y);
    DeclCancel(names, e[0], f[0], AfterFirst(e, x), AfterFirst(f, y));
  }

  lemma SameRow(e: seq<Ty>, f: seq<Ty>)
    requires e != [] && f != [] && e[0] == f[0] && e[1..] == f[1..]
    ensures e == f
  {
    assert e == [e[0]] + e[1..] && f == [f[0]] + f[1..];
  }

  lemma {:induction false} JoinCancel(names: set<string>, owner: Ty, e: seq<Ty>, f: seq<Ty>, x: string, y: string)
    requires PlainNames(names) && PlainRow(names, e) && PlainRow(names, f)
    requires e != [] && f != [] && Closed(e, x) == Closed(f, y)
    requires forall i | 0 <= i < |e| :: e[i] < owner
    ensures e == f && x == y
    decreases owner, 0, 0, 1 + |e|
  {
    JoinHeads(names, owner, e, f, x, y);
    if |e| == 1 {
      Strip(")", x, y);
    } else {
      Strip(", ", Closed(e[1..], x), Closed(f[1..], y));
      JoinCancel(names, owner, e[1..], f[1..], x, y);
    }
    SameRow(e, f);
  }

  // ---- Consequences for schema generation ----

  /** Different plain types have different declarations. */
  lemma DeclInjective(names: set<string>, t: Ty, u: Ty)
    requires PlainNames(names) && PlainTy(names, t) && PlainTy(names, u) && Decl(t) == Decl(u)
    ensures t == u
  {
    assert Decl(t) + "" == Decl(u) + "";
    DeclCancel(names, t, u, "", "");
  }

  /** A universe of plain types has no two definitions under one declaration, so
      schema generation succeeds on it. */
  lemma PlainIsCoherent(env: Env, all: set<Ty>, names: set<string>)
    requires Universe(env, all) && PlainNames(names) && forall t | t in all :: PlainTy(names, t)
    ensures Coherent(env, all)
  {
    var table := TableOf(env, all);
    forall t, u ensures NoConflict(table, t, u) {
      if t in table && u in table && table[t].decl == table[u].decl {
        DeclInjective(names, t, u);
      }
    }
  }

  // ---- Names that the derive puts together ----

  /** The derive declares the inner struct of a variant under the names of the
      enum and the variant, one right after the other. */
  ghost predicate Derived(env: Env) {
    forall name | name in env.defs :: DerivedNames(env, name)
  }

  ghost predicate DerivedNames(env: Env, name: string)
    requires name in env.defs
  {
    env.defs[name].EnumDef? ==>
      forall v | v in env.defs[name].variants :: Ident(v.payload) == Ident(name) + v.name
  }

  /** Two enums anywhere below a type, with variants whose concatenated names
      agree while their fields differ: schema generation panics, though no two
      types need have the same name. */
  lemma ConcatenationsCollide(env: Env, all: set<Ty>, ty: Ty, e: string, f: string, v: Variant, w: Variant)
    requires HasVariantStructs(env) && Universe(env, all) && ty in all && FaithfulStructs(env, Below(TableOf(env, all), ty))
    requires Leads(TableOf(env, all), ty, TNamed(e)) && Leads(TableOf(env, all), ty, TNamed(f))
    requires e in env.defs && env.defs[e].EnumDef? && v in env.defs[e].variants
    requires f in env.defs && env.defs[f].EnumDef? && w in env.defs[f].variants
    requires DerivedNames(env, e) && DerivedNames(env, f) && Ident(e) + v.name == Ident(f) + w.name
    requires Known(env, TNamed(v.payload)) && Known(env, TNamed(w.payload))
    requires DefOf(env, TNamed(v.payload)) != DefOf(env, TNamed(w.payload))
    ensures ForType(env, all, ty).Err?
  {
    PayloadBelow(env, all, ty, e, v);
    PayloadBelow(env, all, ty, f, w);
    var table := TableOf(env, all);
    assert Conflict(table, Below(table, ty), TNamed(v.payload), TNamed(w.payload));
    PanicsIffConflict(env, all, ty);
  }

  lemma PayloadBelow(env: Env, all: set<Ty>, ty: Ty, e: string, v: Variant)
    requires HasVariantStructs(env) && Universe(env, all) && ty in all && Leads(TableOf(env, all), ty, TNamed(e))
    requires e in env.defs && env.defs[e].EnumDef? && v in env.defs[e].variants
    ensures TNamed(v.payload) in all && TNamed(v.payload) in Below(TableOf(env, all), ty)
  {
    TableIsSound(env, all);
    var table := TableOf(env, all);
    assert RefersWithin(env, all, ty);
    BelowIsClosed(table, ty);
    PayloadReferred(env, e, v);
    assert StaysWithin(table, Below(table, ty), TNamed(e));
  }

  lemma PayloadReferred(env: Env, e: string, v: Variant)
    requires e in env.defs && env.defs[e].EnumDef? && v in env.defs[e].variants
    ensures TNamed(v.payload) in Refs(env, TNamed(e))
  {
    var variants := env.defs[e].variants;
    var i :| 0 <= i < |variants| && variants[i] == v;
    assert PayloadTys(variants)[i] == TNamed(v.payload);
  }

  /** `Foo` with a variant `BarBaz` next to `FooBar` with a variant `Baz`, over
      whatever a well-formed environment says of memory, text and order. */
  function FooBarBaz(base: Env): Env {
    base.(defs := map["Both" := StructDef(true, [("foo", TNamed("Foo")), ("bar", TNamed("FooBar"))]),
                      "Foo" := EnumDef([Variant(0, "BarBaz", "a:FooBarBaz")]),
                      "FooBar" := EnumDef([Variant(0, "Baz", "b:FooBarBaz")]),
                      "a:FooBarBaz" := StructDef(false, [("0", TBool)]),
                      "b:FooBarBaz" := StructDef(false, [])],
          rank := map["Both" := 0, "a:FooBarBaz" := 0, "b:FooBarBaz" := 0])
  }

  function FooBarBazTypes(): set<Ty> {
    Six("Both", "Foo", "FooBar", Variant(0, "BarBaz", "a:FooBarBaz"), Variant(0, "Baz", "b:FooBarBaz"))
  }

  ghost predicate IsFooBarBaz(env: Env) {
    && env.defs.Keys == {"Both", "Foo", "FooBar", "a:FooBarBaz", "b:FooBarBaz"}
    && env.defs["Both"] == StructDef(true, [("foo", TNamed("Foo")), ("bar", TNamed("FooBar"))])
    && env.defs["Foo"] == EnumDef([Variant(0, "BarBaz", "a:FooBarBaz")])
    && env.defs["FooBar"] == EnumDef([Variant(0, "Baz", "b:FooBarBaz")])
    && env.defs["a:FooBarBaz"] == StructDef(false, [("0", TBool)])
    && env.defs["b:FooBarBaz"] == StructDef(false, [])
    && env.rank.Keys == {"Both", "a:FooBarBaz", "b:FooBarBaz"}
  }

  lemma FooBarBazDefined(base: Env)
    ensures IsFooBarBaz(FooBarBaz(base))
  {
  }

  /** The inner structs have the concatenated names, which agree. */
  lemma InnerNames()
    ensures Ident("a:FooBarBaz") == Ident("Foo") + "BarBaz"
    ensures Ident("b:FooBarBaz") == Ident("FooBar") + "Baz"
    ensures Ident("Foo") + "BarBaz" == Ident("FooBar") + "Baz"
  {
    assert "a:FooBarBaz"[1..][1..] == "FooBarBaz" && "b:FooBarBaz"[1..][1..] == "FooBarBaz";
    assert ':' !in "FooBarBaz";
    assert Ident("a:FooBarBaz"[1..]) == Ident("FooBarBaz") && Ident("b:FooBarBaz"[1..]) == Ident("FooBarBaz");
    assert "Foo" + "BarBaz" == "FooBarBaz" && "FooBar" + "Baz" == "FooBarBaz";
  }

  lemma VariantNames()
    ensures Ident("Foo") + "BarBaz" == Ident("FooBar") + "Baz" && "BarBaz" != "Baz"
  {
    InnerNames();
    assert |"BarBaz"| == 6 && |"Baz"| == 3;
  }

  lemma FooBarBazRanks(env: Env)
    requires IsFooBarBaz(env)
    ensures RowRank(env, FieldTys(env.defs["Both"].fields)) == 0
    ensures RowRank(env, FieldTys(env.defs["a:FooBarBaz"].fields)) == 0
    ensures RowRank(env, FieldTys(env.defs["b:FooBarBaz"].fields)) == 0
  {
    var fields := FieldTys(env.defs["Both"].fields);
    assert fields == [TNamed("Foo"), TNamed("FooBar")] && fields[1..] == [TNamed("FooBar")];
    assert TyRank(env, TNamed("Foo")) == 0 && TyRank(env, TNamed("FooBar")) == 0;
    assert RowRank(env, fields[1..]) == 0;
    assert FieldTys(env.defs["a:FooBarBaz"].fields) == [TBool] && [TBool][1..] == [];
  }

  lemma FooBarBazIsWellFormed(env: Env)
    requires IsFooBarBaz(env) && StrictTotalOrder(env.less) && !env.zst(U8)
    requires forall k, v :: env.zst(TTuple([k, v])) ==> env.zst(k)
    ensures WellFormed(env)
  {
    FooBarBazRanks(env);
    forall name | name in env.defs ensures WellFormedDef(env, name) {
    }
  }

  lemma FooBarBazIsDerived(env: Env)
    requires IsFooBarBaz(env)
    ensures Derived(env)
  {
    FooAndFooBarDerived(env);
    OnlyEnumsMatter(env, "Both", "Foo", "FooBar", "a:FooBarBaz", "b:FooBarBaz");
  }

  lemma FooAndFooBarDerived(env: Env)
    requires IsFooBarBaz(env)
    ensures DerivedNames(env, "Foo") && DerivedNames(env, "FooBar")
  {
    InnerNames();
    OneVariantDerived(env, "Foo", Variant(0, "BarBaz", "a:FooBarBaz"));
    OneVariantDerived(env, "FooBar", Variant(0, "Baz", "b:FooBarBaz"));
  }

  lemma OnlyEnumsMatter(env: Env, s: string, e: string, f: string, a: string, b: string)
    requires env.defs.Keys == {s, e, f, a, b} && DerivedNames(env, e) && DerivedNames(env, f)
    requires env.defs[s].StructDef? && env.defs[a].StructDef? && env.defs[b].StructDef?
    ensures Derived(env)
  {
  }

  lemma OneVariantDerived(env: Env, name: string, v: Variant)
    requires name in env.defs && env.defs[name] == EnumDef([v]) && Ident(v.payload) == Ident(name) + v.name
    ensures DerivedNames(env, name)
  {
  }

  lemma FooBarBazIsClosed(env: Env)
    requires IsFooBarBaz(env)
    ensures Universe(env, FooBarBazTypes())
    ensures Refs(env, TNamed("Both")) == [TNamed("Foo"), TNamed("FooBar")]
  {
    assert FieldTys(env.defs["Both"].fields) == [TNamed("Foo"), TNamed("FooBar")];
    assert FieldTys(env.defs["a:FooBarBaz"].fields) == [TBool];
    assert PayloadTys(env.defs["Foo"].variants) == [TNamed("a:FooBarBaz")];
    assert PayloadTys(env.defs["FooBar"].variants) == [TNamed("b:FooBarBaz")];
    forall t | t in FooBarBazTypes() ensures RefersWithin(env, FooBarBazTypes(), t) {
    }
  }

  lemma FooBarBazCollides(base: Env)
    requires WellFormed(base)
    ensures WellFormed(FooBarBaz(base)) && Derived(FooBarBaz(base)) && Universe(FooBarBaz(base), FooBarBazTypes())
    ensures ForType(FooBarBaz(base), FooBarBazTypes(), TNamed("Both")).Err?
  {
    var env := FooBarBaz(base);
    FooBarBazDefined(base);
    FooBarBazIsWellFormed(env);
    FooBarBazIsDerived(env);
    FooBarBazIsClosed(env);
    FooBarBazPanics(env);
  }

  lemma FooBarBazPanics(env: Env)
    requires IsFooBarBaz(env) && HasVariantStructs(env) && Derived(env) && Universe(env, FooBarBazTypes())
    ensures ForType(env, FooBarBazTypes(), TNamed("Both")).Err?
  {
    FooBarBazIsClosed(env);
    VariantNames();
    OneVariantEach(env, FooBarBazTypes(), "Both", "Foo", "FooBar",
                   Variant(0, "BarBaz", "a:FooBarBaz"), Variant(0, "Baz", "b:FooBarBaz"));
  }

  lemma OneVariantEach(env: Env, all: set<Ty>, s: string, e: string, f: string, v: Variant, w: Variant)
    requires HasVariantStructs(env) && Derived(env) && Universe(env, all)
    requires all == Six(s, e, f, v, w)
    requires s in env.defs && env.defs[s].StructDef? && env.defs[s].named && |env.defs[s].fields| == 2
    requires Refs(env, TNamed(s)) == [TNamed(e), TNamed(f)]
    requires e in env.defs && env.defs[e] == EnumDef([v]) && f in env.defs && env.defs[f] == EnumDef([w])
    requires Ident(e) + v.name == Ident(f) + w.name && v.name != w.name
    requires v.payload in env.defs && env.defs[v.payload] == StructDef(false, [("0", TBool)])
    requires w.payload in env.defs && env.defs[w.payload] == StructDef(false, [])
    ensures ForType(env, all, TNamed(s)).Err?
  {
    OneVariantStructs(env, s, e, f, v, w);
    DifferIsFaithful(env, all, Below(TableOf(env, all), TNamed(s)));
    assert DerivedNames(env, e) && DerivedNames(env, f);
    LeadsToReference(env, all, TNamed(s), TNamed(e));
    LeadsToReference(env, all, TNamed(s), TNamed(f));
    ConcatenationsCollide(env, all, TNamed(s), e, f, v, w);
  }

  lemma LeadsToReference(env: Env, all: set<Ty>, t: Ty, r: Ty)
    requires HasVariantStructs(env) && Universe(env, all) && t in all && Known(env, t) && r in Refs(env, t)
    ensures Leads(TableOf(env, all), t, r)
  {
    var table := TableOf(env, all);
    assert RefersWithin(env, all, t);
    TableIsSound(env, all);
    BelowIsClosed(table, t);
    LeadsOn(table, t, t, r);
  }

  /** Structs with different definitions leave nothing to assume. */
  ghost predicate StructsDiffer(env: Env, all: set<Ty>) {
    forall s, u | IsStruct(env, s) && IsStruct(env, u) && TNamed(s) in all && TNamed(u) in all && s != u ::
      DefOf(env, TNamed(s)) != DefOf(env, TNamed(u))
  }

  lemma DifferIsFaithful(env: Env, all: set<Ty>, some: set<Ty>)
    requires StructsDiffer(env, all) && some <= all
    ensures FaithfulStructs(env, some)
  {
    forall s, u ensures FaithfulStructPair(env, some, s, u) {
    }
  }

  /** The three structs have named, unnamed and no fields. */
  lemma OneVariantStructs(env: Env, s: string, e: string, f: string, v: Variant, w: Variant)
    requires s in env.defs && env.defs[s].StructDef? && env.defs[s].named && |env.defs[s].fields| == 2
    requires e in env.defs && env.defs[e].EnumDef? && f in env.defs && env.defs[f].EnumDef?
    requires v.payload in env.defs && env.defs[v.payload] == StructDef(false, [("0", TBool)])
    requires w.payload in env.defs && env.defs[w.payload] == StructDef(false, [])
    ensures StructsDiffer(env, Six(s, e, f, v, w)) && DefOf(env, TNamed(v.payload)) != DefOf(env, TNamed(w.payload))
  {
    assert DefOf(env, TNamed(s)).fields.NamedFields?;
    assert DefOf(env, TNamed(v.payload)).fields.UnnamedFields? && DefOf(env, TNamed(w.payload)).fields.NoFields?;
    forall x, y | IsStruct(env, x) && IsStruct(env, y) && TNamed(x) in Six(s, e, f, v, w) && TNamed(y) in Six(s, e, f, v, w) && x != y
      ensures DefOf(env, TNamed(x)) != DefOf(env, TNamed(y))
    {
      assert x == s || x == v.payload || x == w.payload;
      assert y == s || y == v.payload || y == w.payload;
    }
  }

  function Six(s: string, e: string, f: string, v: Variant, w: Variant): set<Ty> {
    {TNamed(s), TNamed(e), TNamed(f), TNamed(v.payload), TNamed(w.payload), TBool}
  }

  // ---- Two enums of one name ----

  const U16 := TInt(false, 2)

  /** Two enums with one name, each with one variant of one name and tag; the
      first holds a byte there and the second two. */
  ghost predicate Twins(env: Env, e: string, f: string, v: Variant, w: Variant) {
    && e in env.defs && env.defs[e] == EnumDef([v]) && f in env.defs && env.defs[f] == EnumDef([w])
    && v.payload in env.defs && env.defs[v.payload] == StructDef(false, [("0", U8)])
    && w.payload in env.defs && env.defs[w.payload] == StructDef(false, [("0", U16)])
    && DerivedNames(env, e) && DerivedNames(env, f)
    && Ident(e) == Ident(f) && v.name == w.name && v.tag == w.tag
  }

  function TwinPair(e: string, f: string): Ty {
    TTuple([TNamed(e), TNamed(f)])
  }

  function TwinTypes(e: string, f: string, v: Variant, w: Variant): set<Ty> {
    {TwinPair(e, f), TNamed(e), TNamed(f), TNamed(v.payload), TNamed(w.payload), U8, U16}
  }

  lemma TwinsClosed(env: Env, e: string, f: string, v: Variant, w: Variant)
    requires Twins(env, e, f, v, w)
    ensures Universe(env, TwinTypes(e, f, v, w))
  {
    assert PayloadTys([v]) == [TNamed(v.payload)] && PayloadTys([w]) == [TNamed(w.payload)];
    assert FieldTys(env.defs[v.payload].fields) == [U8] && FieldTys(env.defs[w.payload].fields) == [U16];
    forall t | t in TwinTypes(e, f, v, w) ensures RefersWithin(env, TwinTypes(e, f, v, w), t) {
    }
  }

  lemma TwinDefinitions(env: Env, e: string, f: string, v: Variant, w: Variant)
    requires Twins(env, e, f, v, w)
    ensures Ident(v.payload) == Ident(w.payload) && DefOf(env, TNamed(e)) == DefOf(env, TNamed(f))
    ensures DefOf(env, TNamed(v.payload)) != DefOf(env, TNamed(w.payload))
  {
    assert v in env.defs[e].variants && w in env.defs[f].variants;
    assert VariantsOf([v]) == VariantsOf([w]);
    assert FieldTys(env.defs[v.payload].fields) == [U8] && FieldTys(env.defs[w.payload].fields) == [U16];
    assert NatString(8) == "8" && NatString(16) == "16";
    assert Decls([U8])[0] == "u8" && Decls([U16])[0] == "u16";
  }

  /** The enums themselves have one definition, and only their inner structs differ:
      generation panics on the pair. */
  lemma TwinsCollide(env: Env, e: string, f: string, v: Variant, w: Variant)
    requires HasVariantStructs(env) && Twins(env, e, f, v, w)
    ensures Universe(env, TwinTypes(e, f, v, w)) && DefOf(env, TNamed(e)) == DefOf(env, TNamed(f))
    ensures ForType(env, TwinTypes(e, f, v, w), TwinPair(e, f)).Err?
  {
    var all, pair := TwinTypes(e, f, v, w), TwinPair(e, f);
    TwinsClosed(env, e, f, v, w);
    TwinDefinitions(env, e, f, v, w);
    TwinsDiffer(env, e, f, v, w);
    DifferIsFaithful(env, all, Below(TableOf(env, all), pair));
    LeadsToReference(env, all, pair, TNamed(e));
    LeadsToReference(env, all, pair, TNamed(f));
    ConcatenationsCollide(env, all, pair, e, f, v, w);
  }

  lemma TwinsDiffer(env: Env, e: string, f: string, v: Variant, w: Variant)
    requires Twins(env, e, f, v, w)
    ensures StructsDiffer(env, TwinTypes(e, f, v, w))
  {
    TwinDefinitions(env, e, f, v, w);
    forall s, u | IsStruct(env, s) && IsStruct(env, u) && TNamed(s) in TwinTypes(e, f, v, w) && TNamed(u) in TwinTypes(e, f, v, w) && s != u
      ensures DefOf(env, TNamed(s)) != DefOf(env, TNamed(u))
    {
      assert (s == v.payload || s == w.payload) && (u == v.payload || u == w.payload);
    }
  }

  /** There are such enums: `E` with a variant `A`, once in a path `a` and once in `b`. */
  function TwinEnums(base: Env): Env {
    base.(defs := map["a:E" := EnumDef([Variant(0, "A", "a:EA")]), "b:E" := EnumDef([Variant(0, "A", "b:EA")]),
                      "a:EA" := StructDef(false, [("0", U8)]), "b:EA" := StructDef(false, [("0", U16)])],
          rank := map["a:EA" := 0, "b:EA" := 0])
  }

  lemma TwinNames()
    ensures Ident("a:E") == Ident("b:E") == "E" && Ident("a:EA") == Ident("b:EA") == "EA" && "E" + "A" == "EA"
  {
    assert "a:E"[1..][1..] == "E" == "b:E"[1..][1..] && "a:EA"[1..][1..] == "EA" == "b:EA"[1..][1..];
    assert Ident("a:E"[1..]) == Ident("E") == Ident("b:E"[1..]);
    assert Ident("a:EA"[1..]) == Ident("EA") == Ident("b:EA"[1..]);
  }

  lemma TwinsExist(base: Env)
    requires WellFormed(base)
    ensures WellFormed(TwinEnums(base)) && Derived(TwinEnums(base))
    ensures Twins(TwinEnums(base), "a:E", "b:E", Variant(0, "A", "a:EA"), Variant(0, "A", "b:EA"))
  {
    var env := TwinEnums(base);
    TwinNames();
    OneVariantDerived(env, "a:E", Variant(0, "A", "a:EA"));
    OneVariantDerived(env, "b:E", Variant(0, "A", "b:EA"));
    OneLeafRank(env, "a:EA", U8);
    OneLeafRank(env, "b:EA", U16);
    forall name | name in env.defs ensures WellFormedDef(env, name) && DerivedNames(env, name) {
    }
  }

  lemma OneLeafRank(env: Env, name: string, leaf: Ty)
    requires name in env.defs && env.defs[name] == StructDef(false, [("0", leaf)]) && leaf.TInt?
    ensures RowRank(env, FieldTys(env.defs[name].fields)) == 0
  {
    assert FieldTys(env.defs[name].fields) == [leaf] && [leaf][1..] == [];
  }
}
