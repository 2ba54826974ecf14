/** Depth-first collection of definitions into a map, over any table of types. */
module Collection {
  import opened Wrappers
  import opened Types
  import opened Schema

  type Definitions = map<Declaration, Definition>

  /** When a type's own definition is added: a derived struct adds it first and
      follows its fields only if it was not there before, a derived enum adds
      it last, every built-in type adds it first. */
  datatype Mode = Guarded | First | Last

  /** What one type declares, defines and refers to; `size` bounds how far the
      collection goes before it meets a guarded type. */
  datatype Node = Node(mode: Mode, decl: Declaration, def: Definition, refs: seq<Ty>, size: nat)

  type Table = map<Ty, Node>

  function DeclsIn(table: Table, tys: seq<Ty>): (ds: seq<Declaration>)
    requires forall t | t in tys :: t in table
    ensures |ds| == |tys|
  {
    seq(|tys|, i requires 0 <= i < |tys| => table[tys[i]].decl)
  }

  function RowSize(table: Table, tys: seq<Ty>): nat
    requires forall t | t in tys :: t in table
  {
    if tys == [] then 0 else table[tys[0]].size + RowSize(table, tys[1..])
  }

  ghost predicate SoundNode(table: Table, t: Ty) {
    t in table ==>
      var node := table[t];
      && node.size > 0
      && (forall r | r in node.refs :: r in table)
      && (!node.mode.Guarded? ==> RowSize(table, node.refs) < node.size)
      && (forall c :: c in References(node.def) <==> c in DeclsIn(table, node.refs))
  }

  /** The table is closed under reference, its definitions mention what its
      types refer to, and every cycle passes through a guarded type. */
  ghost predicate SoundTable(table: Table) {
    forall t :: SoundNode(table, t)
  }

  // ---- The collection as a function of the map ----

  /** Adding one definition panics, naming the declaration, when it is already
      defined differently. */
  function AddDefinition(d: Declaration, def: Definition, m: Definitions): Result<Definitions, Declaration> {
    if d !in m then Ok(m[d := def])
    else if m[d] == def then Ok(m)
    else Err(d)
  }

  ghost predicate Extends(m: Definitions, m': Definitions) {
    forall d | d in m :: d in m' && m'[d] == m[d]
  }

  ghost function GuardedDecls(table: Table): set<Declaration> {
    set t | t in table && table[t].mode.Guarded? :: table[t].decl
  }

  /** How many guarded declarations are not yet in the map. */
  ghost function Missing(table: Table, m: Definitions): nat {
    Count(GuardedDecls(table) - m.Keys)
  }

  lemma MissingShrinks(table: Table, m: Definitions, m': Definitions, t: Ty)
    requires Extends(m, m') && t in table
    ensures Missing(table, m') <= Missing(table, m)
    ensures table[t].mode.Guarded? && table[t].decl !in m && table[t].decl in m' ==> Missing(table, m') < Missing(table, m)
  {
    var before, after := GuardedDecls(table) - m.Keys, GuardedDecls(table) - m'.Keys;
    CountSubset(after, before);
    var d := table[t].decl;
    if table[t].mode.Guarded? && d !in m && d in m' {
      assert d in GuardedDecls(table);
      CountSubset(after, before - {d});
      CountIsSize(before);
      CountIsSize(before - {d});
    }
  }

  ghost function Add(table: Table, t: Ty, m: Definitions): (r: Result<Definitions, Declaration>)
    requires SoundTable(table) && t in table
    ensures r.Ok? ==> Extends(m, r.value) && table[t].decl in r.value && r.value[table[t].decl] == table[t].def
    decreases Missing(table, m), table[t].size, 1
  {
    var node := table[t];
    assert SoundNode(table, t);
    if node.mode.Last? then
      var m' :- AddAll(table, node.refs, m);
      AddDefinition(node.decl, node.def, m')
    else
      var m' :- AddDefinition(node.decl, node.def, m);
      if node.mode.Guarded? && node.decl in m then Ok(m')
      else
        MissingShrinks(table, m, m', t);
        AddAll(table, node.refs, m')
  }

  ghost function AddAll(table: Table, tys: seq<Ty>, m: Definitions): (r: Result<Definitions, Declaration>)
    requires SoundTable(table) && forall t | t in tys :: t in table
    ensures r.Ok? ==> Extends(m, r.value) && forall t | t in tys :: table[t].decl in r.value
    decreases Missing(table, m), RowSize(table, tys), 2
  {
    if tys == [] then Ok(m)
    else
      assert SoundNode(table, tys[0]);
      var m' :- Add(table, tys[0], m);
      MissingShrinks(table, m, m', tys[0]);
      AddAll(table, tys[1..], m')
  }

  /** The types of a row are added in turn, up to the first panic. */
  lemma {:induction false} AddInTurn(table: Table, a: seq<Ty>, b: seq<Ty>, m: Definitions)
    requires SoundTable(table) && (forall t | t in a :: t in table) && (forall t | t in b :: t in table)
    ensures forall t | t in a + b :: t in table
    ensures var first := AddAll(table, a, m);
            AddAll(table, a + b, m) == if first.Err? then first else AddAll(table, b, first.value)
    decreases |a|
  {
    if a == [] {
      assert a + b == b;
    } else {
      assert (a + b)[0] == a[0] && (a + b)[1..] == a[1..] + b;
      assert SoundNode(table, a[0]);
      var one := Add(table, a[0], m);
      if one.Ok? {
        AddInTurn(table, a[1..], b, one.value);
      }
    }
  }

  // ---- The result is closed and exact ----

  function Schematic(m: Definitions): Container {
    Container("", m)
  }

  /** Every definition outside `open` mentions only defined declarations. */
  ghost predicate ClosedExcept(m: Definitions, open: set<Declaration>) {
    forall d | d in m && d !in open :: forall c | c in References(m[d]) :: c in m
  }

  lemma ReachesGrows(m: Definitions, m': Definitions, d: Declaration, x: Declaration)
    requires Extends(m, m') && Reaches(Schematic(m), Mentioned, d, x)
    ensures Reaches(Schematic(m'), Mentioned, d, x)
  {
    var p :| IsPath(Schematic(m), Mentioned, p) && p[0] == d && p[|p| - 1] == x;
    PathGrows(Schematic(m), Schematic(m'), p);
  }

  lemma PathGrows(s: Container, s': Container, p: seq<Declaration>)
    requires Extends(s.definitions, s'.definitions) && IsPath(s, Mentioned, p)
    ensures IsPath(s', Mentioned, p)
  {
    forall i | 0 <= i < |p| - 1 ensures IsStep(s', Mentioned, p, i) {
      assert IsStep(s, Mentioned, p, i);
    }
  }

  /** Adding a type, while the declarations `open` are still being worked on,
      leaves nothing else open. */
  lemma {:induction false} AddCloses(table: Table, t: Ty, m: Definitions, open: set<Declaration>)
    requires SoundTable(table) && t in table && Add(table, t, m).Ok? && ClosedExcept(m, open)
    ensures ClosedExcept(Add(table, t, m).value, open)
    decreases Missing(table, m), table[t].size, 1
  {
    assert SoundNode(table, t);
    var node := table[t];
    if node.mode.Last? {
      AddAllCloses(table, node.refs, m, open);
      OwnReferencesDefined(table, t, AddAll(table, node.refs, m).value);
    } else if !(node.mode.Guarded? && node.decl in m) {
      var m1 := AddDefinition(node.decl, node.def, m).value;
      MissingShrinks(table, m, m1, t);
      assert Add(table, t, m) == AddAll(table, node.refs, m1);
      AddAllCloses(table, node.refs, m1, open + {node.decl});
      assert ClosedExcept(Add(table, t, m).value, open + {node.decl});
      OwnReferencesDefined(table, t, Add(table, t, m).value);
    }
  }

  lemma OwnReferencesDefined(table: Table, t: Ty, m: Definitions)
    requires SoundNode(table, t) && t in table
    requires forall r | r in table[t].refs :: table[r].decl in m
    ensures forall c | c in References(table[t].def) :: c in m
  {
    forall c | c in References(table[t].def) ensures c in m {
      assert c in DeclsIn(table, table[t].refs);
    }
  }

  lemma {:induction false} AddAllCloses(table: Table, tys: seq<Ty>, m: Definitions, open: set<Declaration>)
    requires SoundTable(table) && forall t | t in tys :: t in table
    requires AddAll(table, tys, m).Ok? && ClosedExcept(m, open)
    ensures ClosedExcept(AddAll(table, tys, m).value, open)
    decreases Missing(table, m), RowSize(table, tys), 2
  {
    if tys != [] {
      assert SoundNode(table, tys[0]);
      var m1 := Add(table, tys[0], m).value;
      MissingShrinks(table, m, m1, tys[0]);
      AddCloses(table, tys[0], m, open);
      AddAllCloses(table, tys[1..], m1, open);
    }
  }

  ghost predicate ReachedFrom(m: Definitions, d: Declaration, x: Declaration) {
    Reaches(Schematic(m), Mentioned, d, x)
  }

  ghost predicate ReachedFromAny(table: Table, m: Definitions, tys: seq<Ty>, x: Declaration)
    requires forall t | t in tys :: t in table
  {
    exists t :: t in tys && ReachedFrom(m, table[t].decl, x)
  }

  /** Adding a type adds only what that type reaches. */
  lemma {:induction false} AddReaches(table: Table, t: Ty, m: Definitions, x: Declaration)
    requires SoundTable(table) && t in table && Add(table, t, m).Ok?
    requires x in Add(table, t, m).value && x !in m
    ensures ReachedFrom(Add(table, t, m).value, table[t].decl, x)
    decreases Missing(table, m), table[t].size, 1
  {
    assert SoundNode(table, t);
    var node := table[t];
    var m' := Add(table, t, m).value;
    if x == node.decl {
      ReachesSelf(Schematic(m'), Mentioned, x);
    } else if node.mode.Last? {
      var m1 := AddAll(table, node.refs, m).value;
      AddAllReaches(table, node.refs, m, x);
      ThroughReference(table, t, m1, m', x);
    } else {
      var m1 := AddDefinition(node.decl, node.def, m).value;
      MissingShrinks(table, m, m1, t);
      assert Add(table, t, m) == AddAll(table, node.refs, m1);
      AddAllReaches(table, node.refs, m1, x);
      ThroughReference(table, t, m', m', x);
    }
  }

  lemma ThroughReference(table: Table, t: Ty, m: Definitions, m': Definitions, x: Declaration)
    requires SoundNode(table, t) && t in table && ReachedFromAny(table, m, table[t].refs, x)
    requires Extends(m, m') && table[t].decl in m' && m'[table[t].decl] == table[t].def
    ensures ReachedFrom(m', table[t].decl, x)
  {
    var refs := table[t].refs;
    var r :| r in refs && ReachedFrom(m, table[r].decl, x);
    ReachesGrows(m, m', table[r].decl, x);
    var i :| 0 <= i < |refs| && refs[i] == r;
    assert DeclsIn(table, refs)[i] == table[r].decl;
    ReachesStep(Schematic(m'), Mentioned, table[t].decl, table[r].decl, x);
  }

  lemma {:induction false} AddAllReaches(table: Table, tys: seq<Ty>, m: Definitions, x: Declaration)
    requires SoundTable(table) && (forall t | t in tys :: t in table) && AddAll(table, tys, m).Ok?
    requires x in AddAll(table, tys, m).value && x !in m
    ensures ReachedFromAny(table, AddAll(table, tys, m).value, tys, x)
    decreases Missing(table, m), RowSize(table, tys), 2
  {
    assert SoundNode(table, tys[0]);
    var m1, m' := Add(table, tys[0], m).value, AddAll(table, tys, m).value;
    MissingShrinks(table, m, m1, tys[0]);
    if x in m1 {
      AddReaches(table, tys[0], m, x);
      ReachesGrows(m1, m', table[tys[0]].decl, x);
      assert tys[0] in tys && ReachedFrom(m', table[tys[0]].decl, x);
    } else {
      AddAllReaches(table, tys[1..], m1, x);
      var t :| t in tys[1..] && ReachedFrom(m', table[t].decl, x);
      assert t in tys;
    }
  }

  lemma {:induction false} ClosedAlong(m: Definitions, p: seq<Declaration>)
    requires ClosedExcept(m, {}) && IsPath(Schematic(m), Mentioned, p) && p[0] in m
    ensures p[|p| - 1] in m
    decreases |p|
  {
    if |p| > 1 {
      PathTail(Schematic(m), Mentioned, p);
      ClosedAlong(m, p[1..]);
    }
  }

  /** Collected from nothing, the map defines exactly the declarations reachable
      from the root, and lacks none that a definition mentions. */
  lemma CollectedExact(table: Table, t: Ty)
    requires SoundTable(table) && t in table && Add(table, t, map[]).Ok?
    ensures var m := Add(table, t, map[]).value;
            && ClosedExcept(m, {})
            && forall x :: x in m <==> Reaches(Container(table[t].decl, m), Mentioned, table[t].decl, x)
  {
    var m, d := Add(table, t, map[]).value, table[t].decl;
    var s := Container(d, m);
    AddCloses(table, t, map[], {});
    forall x ensures x in m <==> Reaches(s, Mentioned, d, x) {
      if x in m {
        AddReaches(table, t, map[], x);
        var p :| IsPath(Schematic(m), Mentioned, p) && p[0] == d && p[|p| - 1] == x;
        PathGrows(Schematic(m), s, p);
      }
      if Reaches(s, Mentioned, d, x) {
        var p :| IsPath(s, Mentioned, p) && p[0] == d && p[|p| - 1] == x;
        PathGrows(s, Schematic(m), p);
        ClosedAlong(m, p);
      }
    }
  }

  // ---- Exactly when the collection panics ----

  /** Types that refer only to each other. */
  ghost predicate IsClosed(table: Table, all: set<Ty>) {
    forall t :: StaysWithin(table, all, t)
  }

  ghost predicate StaysWithin(table: Table, all: set<Ty>, t: Ty) {
    t in all ==> t in table && forall r | r in table[t].refs :: r in all
  }

  /** Whatever `t` leads to by following references: what no closed set that
      holds `t` can leave out. */
  ghost predicate Leads(table: Table, t: Ty, u: Ty) {
    forall all | IsClosed(table, all) && t in all :: u in all
  }

  ghost function Below(table: Table, t: Ty): set<Ty> {
    set u | u in table && Leads(table, t, u)
  }

  lemma BelowIsClosed(table: Table, t: Ty)
    requires SoundTable(table) && t in table
    ensures IsClosed(table, Below(table, t)) && t in Below(table, t)
  {
    forall u ensures StaysWithin(table, Below(table, t), u) {
      if u in Below(table, t) {
        assert SoundNode(table, u);
        forall r | r in table[u].refs ensures Leads(table, t, r) {
          LeadsOn(table, t, u, r);
        }
      }
    }
  }

  lemma LeadsOn(table: Table, t: Ty, u: Ty, r: Ty)
    requires Leads(table, t, u) && u in table && r in table[u].refs
    ensures Leads(table, t, r)
  {
    forall all | IsClosed(table, all) && t in all ensures r in all {
      assert StaysWithin(table, all, u);
    }
  }

  /** Two of these types have one declaration and different definitions. */
  ghost predicate HasConflict(table: Table, all: set<Ty>) {
    exists t, u :: Conflict(table, all, t, u)
  }

  ghost predicate Conflict(table: Table, all: set<Ty>, t: Ty, u: Ty) {
    && t in all && t in table && u in all && u in table
    && table[t].decl == table[u].decl && table[t].def != table[u].def
  }

  /** The conflict is over the declaration `d`. */
  ghost predicate HasConflictAt(table: Table, all: set<Ty>, d: Declaration) {
    exists t, u :: Conflict(table, all, t, u) && table[t].decl == d
  }

  ghost predicate IsDefinitionOf(table: Table, all: set<Ty>, d: Declaration, def: Definition, t: Ty) {
    t in all && t in table && table[t].decl == d && table[t].def == def
  }

  /** Every entry of the map is the definition of one of the types. */
  ghost predicate DrawnFrom(table: Table, all: set<Ty>, m: Definitions) {
    forall d | d in m :: exists t :: IsDefinitionOf(table, all, d, m[d], t)
  }

  /** A collection draws on what its type leads to, and panics only at a conflict,
      naming its declaration. */
  lemma {:induction false} PanicIsConflict(table: Table, all: set<Ty>, t: Ty, m: Definitions)
    requires SoundTable(table) && IsClosed(table, all) && t in all && t in table && DrawnFrom(table, all, m)
    ensures match Add(table, t, m)
            case Ok(m') => DrawnFrom(table, all, m')
            case Err(d) => HasConflictAt(table, all, d)
    decreases Missing(table, m), table[t].size, 1
  {
    assert SoundNode(table, t) && StaysWithin(table, all, t);
    var node := table[t];
    if node.mode.Last? {
      PanicInRow(table, all, node.refs, m);
      if AddAll(table, node.refs, m).Ok? {
        PanicAtOne(table, all, t, AddAll(table, node.refs, m).value);
      }
    } else {
      PanicAtOne(table, all, t, m);
      var one := AddDefinition(node.decl, node.def, m);
      if one.Ok? && !(node.mode.Guarded? && node.decl in m) {
        MissingShrinks(table, m, one.value, t);
        assert Add(table, t, m) == AddAll(table, node.refs, one.value);
        PanicInRow(table, all, node.refs, one.value);
      }
    }
  }

  lemma PanicAtOne(table: Table, all: set<Ty>, t: Ty, m: Definitions)
    requires t in all && t in table && DrawnFrom(table, all, m)
    ensures match AddDefinition(table[t].decl, table[t].def, m)
            case Ok(m') => DrawnFrom(table, all, m')
            case Err(d) => HasConflictAt(table, all, d)
  {
    var d, def := table[t].decl, table[t].def;
    assert IsDefinitionOf(table, all, d, def, t);
    if d in m {
      var u :| IsDefinitionOf(table, all, d, m[d], u);
      assert def != m[d] ==> Conflict(table, all, t, u) && table[t].decl == d;
    }
  }

  lemma {:induction false} PanicInRow(table: Table, all: set<Ty>, tys: seq<Ty>, m: Definitions)
    requires SoundTable(table) && IsClosed(table, all) && DrawnFrom(table, all, m)
    requires forall t | t in tys :: t in table && t in all
    ensures match AddAll(table, tys, m)
            case Ok(m') => DrawnFrom(table, all, m')
            case Err(d) => HasConflictAt(table, all, d)
    decreases Missing(table, m), RowSize(table, tys), 2
  {
    if tys != [] {
      assert SoundNode(table, tys[0]);
      PanicIsConflict(table, all, tys[0], m);
      var one := Add(table, tys[0], m);
      if one.Ok? {
        MissingShrinks(table, m, one.value, tys[0]);
        PanicInRow(table, all, tys[1..], one.value);
      }
    }
  }

  /** A guarded type refers to the same types as any other with its declaration and
      its definition. Only guarded types need this: every other is followed
      whenever it is met. */
  ghost predicate Faithful(table: Table, all: set<Ty>) {
    forall t, u :: FaithfulPair(table, all, t, u)
  }

  ghost predicate FaithfulPair(table: Table, all: set<Ty>, t: Ty, u: Ty) {
    t in all && t in table && table[t].mode.Guarded? && IsDefinitionOf(table, all, table[t].decl, table[t].def, u) ==>
      table[t].refs == table[u].refs
  }

  /** The map holds the type's own definition. */
  ghost predicate Has(table: Table, m: Definitions, t: Ty) {
    t in table && table[t].decl in m && m[table[t].decl] == table[t].def
  }

  /** The map defines the types `seen` and comes from them, and whatever one of
      them refers to is seen as well, unless a type that is still being worked
      on refers to the same. */
  ghost predicate Seen(table: Table, all: set<Ty>, m: Definitions, seen: set<Ty>, open: set<Ty>) {
    && seen <= all
    && DrawnFrom(table, seen, m)
    && forall t :: SeenAt(table, m, seen, open, t)
  }

  ghost predicate SeenAt(table: Table, m: Definitions, seen: set<Ty>, open: set<Ty>, t: Ty) {
    t in seen ==> Has(table, m, t) && (IsFollowed(table, seen, t) || SharesWithOpen(table, open, t))
  }

  ghost predicate IsFollowed(table: Table, seen: set<Ty>, t: Ty)
    requires t in table
  {
    forall r | r in table[t].refs :: r in seen
  }

  ghost predicate SharesWithOpen(table: Table, open: set<Ty>, t: Ty)
    requires t in table
  {
    exists u :: u in open && u in table && table[u].refs == table[t].refs
  }

  lemma DrawnFromMore(table: Table, all: set<Ty>, more: set<Ty>, m: Definitions)
    requires DrawnFrom(table, all, m) && all <= more
    ensures DrawnFrom(table, more, m)
  {
    forall d | d in m ensures exists t :: IsDefinitionOf(table, more, d, m[d], t) {
      var t :| IsDefinitionOf(table, all, d, m[d], t);
      assert IsDefinitionOf(table, more, d, m[d], t);
    }
  }

  /** A definition that is added opens its type. */
  lemma Opens(table: Table, all: set<Ty>, t: Ty, m: Definitions, seen: set<Ty>, open: set<Ty>)
    requires t in all && t in table && Seen(table, all, m, seen, open)
    requires AddDefinition(table[t].decl, table[t].def, m).Ok?
    ensures Seen(table, all, AddDefinition(table[t].decl, table[t].def, m).value, seen + {t}, open + {t})
  {
    var m' := AddDefinition(table[t].decl, table[t].def, m).value;
    forall d | d in m' ensures exists u :: IsDefinitionOf(table, seen + {t}, d, m'[d], u) {
      if d in m {
        var u :| IsDefinitionOf(table, seen, d, m[d], u);
        assert IsDefinitionOf(table, seen + {t}, d, m'[d], u);
      } else {
        assert IsDefinitionOf(table, seen + {t}, d, m'[d], t);
      }
    }
    forall u ensures SeenAt(table, m', seen + {t}, open + {t}, u) {
      assert SeenAt(table, m, seen, open, u);
      if u in seen && SharesWithOpen(table, open, u) {
        var w :| w in open && w in table && table[w].refs == table[u].refs;
        assert w in open + {t};
      }
      assert u == t ==> t in open + {t} && table[t].refs == table[u].refs;
    }
  }

  /** Once everything that `t` refers to is seen, it need not be open. */
  lemma Closes(table: Table, all: set<Ty>, t: Ty, m: Definitions, seen: set<Ty>, open: set<Ty>)
    requires t in table && IsFollowed(table, seen, t) && Seen(table, all, m, seen, open + {t})
    ensures Seen(table, all, m, seen, open)
  {
    forall u ensures SeenAt(table, m, seen, open, u) {
      assert SeenAt(table, m, seen, open + {t}, u);
      if u in seen && !IsFollowed(table, seen, u) {
        var w :| w in open + {t} && w in table && table[w].refs == table[u].refs;
        assert w != t;
      }
    }
  }

  /** A guarded type whose definition is there can be skipped: it refers to what
      the type refers to that brought its definition. */
  lemma Skips(table: Table, all: set<Ty>, t: Ty, m: Definitions, seen: set<Ty>, open: set<Ty>)
    requires t in all && t in table && table[t].mode.Guarded? && Faithful(table, all)
    requires Has(table, m, t) && Seen(table, all, m, seen, open)
    ensures Seen(table, all, m, seen + {t}, open)
  {
    var d := table[t].decl;
    var v :| IsDefinitionOf(table, seen, d, m[d], v);
    assert IsDefinitionOf(table, all, d, m[d], v) && FaithfulPair(table, all, t, v);
    assert SeenAt(table, m, seen, open, v);
    DrawnFromMore(table, seen, seen + {t}, m);
    forall u ensures SeenAt(table, m, seen + {t}, open, u) {
      assert SeenAt(table, m, seen, open, u);
    }
  }

  /** A collection that succeeds has seen its type. */
  lemma {:induction false} AddSees(table: Table, all: set<Ty>, t: Ty, m: Definitions, seen: set<Ty>, open: set<Ty>)
      returns (seen': set<Ty>)
    requires SoundTable(table) && IsClosed(table, all) && Faithful(table, all) && t in all && t in table
    requires Add(table, t, m).Ok? && Seen(table, all, m, seen, open)
    ensures Seen(table, all, Add(table, t, m).value, seen', open) && seen + {t} <= seen'
    decreases Missing(table, m), table[t].size, 1
  {
    assert SoundNode(table, t) && StaysWithin(table, all, t);
    var node := table[t];
    if node.mode.Last? {
      seen' := AddAllSees(table, all, node.refs, m, seen, open);
      Opens(table, all, t, AddAll(table, node.refs, m).value, seen', open);
      seen' := seen' + {t};
      Closes(table, all, t, Add(table, t, m).value, seen', open);
    } else if node.mode.Guarded? && node.decl in m {
      Skips(table, all, t, m, seen, open);
      seen' := seen + {t};
    } else {
      var m1 := AddDefinition(node.decl, node.def, m).value;
      MissingShrinks(table, m, m1, t);
      assert Add(table, t, m) == AddAll(table, node.refs, m1);
      Opens(table, all, t, m, seen, open);
      seen' := AddAllSees(table, all, node.refs, m1, seen + {t}, open + {t});
      Closes(table, all, t, Add(table, t, m).value, seen', open);
    }
  }

  lemma {:induction false} AddAllSees(table: Table, all: set<Ty>, tys: seq<Ty>, m: Definitions, seen: set<Ty>, open: set<Ty>)
      returns (seen': set<Ty>)
    requires SoundTable(table) && IsClosed(table, all) && Faithful(table, all)
    requires forall t | t in tys :: t in table && t in all
    requires AddAll(table, tys, m).Ok? && Seen(table, all, m, seen, open)
    ensures Seen(table, all, AddAll(table, tys, m).value, seen', open) && seen <= seen' && forall t | t in tys :: t in seen'
    decreases Missing(table, m), RowSize(table, tys), 2
  {
    seen' := seen;
    if tys != [] {
      assert SoundNode(table, tys[0]);
      var seen1 := AddSees(table, all, tys[0], m, seen, open);
      var m1 := Add(table, tys[0], m).value;
      MissingShrinks(table, m, m1, tys[0]);
      seen' := AddAllSees(table, all, tys[1..], m1, seen1, open);
    }
  }

  /** The map has the definition of every type that `t` leads to. */
  ghost predicate HasAllBelow(table: Table, m: Definitions, t: Ty) {
    forall u | u in Below(table, t) :: Has(table, m, u)
  }

  /** From an empty map, a collection that succeeds has the definition of every
      type it leads to. */
  lemma CollectsAllBelow(table: Table, t: Ty)
    requires SoundTable(table) && t in table && Faithful(table, Below(table, t)) && Add(table, t, map[]).Ok?
    ensures HasAllBelow(table, Add(table, t, map[]).value, t)
  {
    var m, all := Add(table, t, map[]).value, Below(table, t);
    BelowIsClosed(table, t);
    var seen := AddSees(table, all, t, map[], {}, {});
    forall u ensures StaysWithin(table, seen, u) {
      assert SeenAt(table, m, seen, {}, u);
    }
    assert IsClosed(table, seen) && t in seen;
    forall u | u in Below(table, t) ensures Has(table, m, u) {
      assert u in seen && SeenAt(table, m, seen, {}, u);
    }
  }

  /** Having every type's definition leaves no room for a conflict. */
  lemma HadIsAgreed(table: Table, m: Definitions, t: Ty)
    requires HasAllBelow(table, m, t)
    ensures !HasConflict(table, Below(table, t))
  {
    forall u, w ensures !Conflict(table, Below(table, t), u, w) {
    }
  }

  /** A collection from an empty map panics if and only if two of the types that
      its type leads to have one declaration and different definitions. */
  lemma PanicIffConflict(table: Table, t: Ty)
    requires SoundTable(table) && t in table && Faithful(table, Below(table, t))
    ensures Add(table, t, map[]).Err? <==> HasConflict(table, Below(table, t))
    ensures Add(table, t, map[]).Err? ==> HasConflictAt(table, Below(table, t), Add(table, t, map[]).error)
  {
    BelowIsClosed(table, t);
    PanicIsConflict(table, Below(table, t), t, map[]);
    if Add(table, t, map[]).Ok? {
      CollectsAllBelow(table, t);
      HadIsAgreed(table, Add(table, t, map[]).value, t);
    }
  }

  /** Whatever types refer to: a conflict either makes the collection panic, or
      leaves some type without its own definition, and nothing else does. */
  lemma PanicOrHidden(table: Table, t: Ty)
    requires SoundTable(table) && t in table
    ensures Add(table, t, map[]).Err? || !HasAllBelow(table, Add(table, t, map[]).value, t) <==>
            HasConflict(table, Below(table, t))
  {
    BelowIsClosed(table, t);
    PanicIsConflict(table, Below(table, t), t, map[]);
    if Add(table, t, map[]).Ok? {
      var m := Add(table, t, map[]).value;
      if HasAllBelow(table, m, t) {
        HadIsAgreed(table, m, t);
      } else if !HasConflict(table, Below(table, t)) {
        AgreedIsHad(table, t);
      }
    }
  }

  lemma AgreedIsHad(table: Table, t: Ty)
    requires SoundTable(table) && t in table && Add(table, t, map[]).Ok? && !HasConflict(table, Below(table, t))
    ensures HasAllBelow(table, Add(table, t, map[]).value, t)
  {
    var m, all := Add(table, t, map[]).value, Below(table, t);
    BelowIsClosed(table, t);
    PanicIsConflict(table, all, t, map[]);
    AddCloses(table, t, map[], {});
    var had := set u | u in all && Has(table, m, u);
    forall u ensures StaysWithin(table, had, u) {
      if u in had {
        assert StaysWithin(table, all, u) && SoundNode(table, u);
        forall r | r in table[u].refs ensures r in had {
          ReferenceIsDeclared(table, u, r);
          var w :| IsDefinitionOf(table, all, table[r].decl, m[table[r].decl], w);
          assert !Conflict(table, all, r, w);
        }
      }
    }
    assert IsClosed(table, had) && t in had;
  }

  lemma ReferenceIsDeclared(table: Table, u: Ty, r: Ty)
    requires SoundNode(table, u) && u in table && r in table[u].refs
    ensures table[r].decl in References(table[u].def)
  {
    var i :| 0 <= i < |table[u].refs| && table[u].refs[i] == r;
    assert DeclsIn(table, table[u].refs)[i] == table[r].decl;
  }

  /** Without that a conflict may not show: two guarded types with one declaration
      and one definition, each referring to a type of its own. The second finds its
      definition present, and what it refers to is never added. */
  lemma ConflictStaysHidden(table: Table, outer: Ty, s: Ty, u: Ty, x: Ty, y: Ty)
    requires SoundTable(table) && outer in table && s in table && u in table && x in table && y in table
    requires table[outer].mode == First && table[outer].refs == [s, u]
    requires table[s].mode == Guarded && table[s].refs == [x] && table[u].mode == Guarded && table[u].refs == [y]
    requires table[s].decl == table[u].decl && table[s].def == table[u].def
    requires table[x].mode == Guarded && table[x].refs == [] && table[x].decl == table[y].decl && table[x].def != table[y].def
    requires table[outer].decl != table[s].decl && table[outer].decl != table[x].decl && table[s].decl != table[x].decl
    ensures Add(table, outer, map[]) ==
            Ok(map[table[outer].decl := table[outer].def, table[s].decl := table[s].def, table[x].decl := table[x].def])
    ensures HasConflict(table, Below(table, outer))
  {
    var m1 := map[table[outer].decl := table[outer].def];
    var m2 := m1[table[s].decl := table[s].def];
    var m3 := m2[table[x].decl := table[x].def];
    assert Add(table, x, m2) == Ok(m3) by { assert AddAll(table, [], m3) == Ok(m3); }
    assert [x][1..] == [] && AddAll(table, [], m3) == Ok(m3);
    assert AddAll(table, [x], m2) == Ok(m3);
    assert Add(table, s, m1) == Ok(m3);
    assert Add(table, u, m3) == Ok(m3);
    assert [s, u][1..] == [u] && [u][1..] == [];
    assert AddAll(table, [u], m3) == Ok(m3);
    assert AddAll(table, [s, u], m1) == Ok(m3);
    BelowIsClosed(table, outer);
    assert StaysWithin(table, Below(table, outer), outer);
    assert s in table[outer].refs && u in table[outer].refs;
    assert StaysWithin(table, Below(table, outer), s) && StaysWithin(table, Below(table, outer), u);
    assert x in table[s].refs && y in table[u].refs;
    assert Conflict(table, Below(table, outer), x, y);
  }

  ghost predicate NoConflict(table: Table, t: Ty, u: Ty) {
    t in table && u in table && table[t].decl == table[u].decl ==> table[t].def == table[u].def
  }

  ghost predicate NoConflicts(table: Table) {
    forall t, u :: NoConflict(table, t, u)
  }

  /** Without any conflict a collection succeeds on top of whatever was collected before. */
  lemma AddSucceeds(table: Table, t: Ty, m: Definitions)
    requires SoundTable(table) && NoConflicts(table) && t in table && DrawnFrom(table, table.Keys, m)
    ensures Add(table, t, m).Ok? && DrawnFrom(table, table.Keys, Add(table, t, m).value)
  {
    forall u ensures StaysWithin(table, table.Keys, u) {
      assert SoundNode(table, u);
    }
    PanicIsConflict(table, table.Keys, t, m);
    if HasConflict(table, table.Keys) {
      var u, w :| Conflict(table, table.Keys, u, w);
      assert NoConflict(table, u, w);
    }
  }
}
