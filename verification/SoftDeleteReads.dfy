/** Soft-delete filters on reads (src/prisma/scoped-prisma.ts): the top-level where and the
    rewrite of nested include/select trees, against a small table semantics. */
module SoftDeleteReads {
  import opened Common
  import opened SoftDeleteColumns

  datatype Relation = Relation(target: string, isList: bool)

  /** Relation fields per model, and the models that carry deletedAt. */
  datatype Schema = Schema(rels: map<string, map<string, Relation>>, softDeletable: set<string>) {
    predicate HasRel(model: string, field: string) { model in rels && field in rels[model] }

    function Rel(model: string, field: string): Relation
      requires HasRel(model, field)
    {
      rels[model][field]
    }

    /** A where is legal on a to-many relation only. */
    predicate Filterable(model: string, field: string)
      requires HasRel(model, field)
    {
      Rel(model, field).isList && Rel(model, field).target in softDeletable
    }
  }

  datatype Cond = IsNull | NotNull | Equals(v: Val) | OneOf(vs: set<Val>)

  /** Conjunction of field conditions and nested ANDs. */
  datatype Where = Where(fields: map<string, Cond>, ands: seq<Where>)

  datatype Args = Args(where: Option<Where>, includes: Clause, selects: Clause, take: Option<nat>)

  /** `Flag(true)` is `true`; `Flag(false)` stands for a falsy entry. */
  datatype Node = Flag(on: bool) | Load(args: Args)

  datatype Clause = Absent | End | Entry(key: string, node: Node, rest: Clause)

  const NO_CONDITIONS := Where(map[], [])

  function MergeDeletedNull(w: Option<Where>): Where {
    var base := if w.Some? then w.value else NO_CONDITIONS;
    if DELETED_AT in base.fields then base else base.(fields := base.fields[DELETED_AT := IsNull])
  }

  function AndWhere(existing: Option<Where>, scope: Where): Where {
    if existing.None? || existing.value == NO_CONDITIONS then scope else Where(map[], [existing.value, scope])
  }

  // ----- The rewrite -----

  function Inject(sc: Schema, model: string, args: Args): Args
    decreases args, 2
  {
    args.(includes := InjectClause(sc, model, args.includes), selects := InjectClause(sc, model, args.selects))
  }

  function InjectClause(sc: Schema, model: string, c: Clause): Clause
    decreases c, 1
  {
    match c
    case Absent => Absent
    case End => End
    case Entry(key, node, rest) => Entry(key, InjectNode(sc, model, key, node), InjectClause(sc, model, rest))
  }

  /** One entry: the filter is merged into the entry's own where, then its own tree is walked. */
  function InjectNode(sc: Schema, model: string, key: string, node: Node): Node
    decreases node, 0
  {
    if !sc.HasRel(model, key) then node
    else
      match node
      case Load(a) =>
        var deeper := Inject(sc, sc.Rel(model, key).target, a);
        Load(if sc.Filterable(model, key) then deeper.(where := Some(MergeDeletedNull(a.where))) else deeper)
      case Flag(on) =>
        if on && sc.Filterable(model, key)
        then Load(Args(Some(Where(map[DELETED_AT := IsNull], [])), Absent, Absent, None))
        else node
  }

  // ----- Table semantics -----

  datatype Record = Record(id: Id, columns: Columns)

  predicate IsLive(r: Record) { Live(r.columns) }

  /** A comparison with null never holds. */
  predicate Meets(c: Cond, v: Val) {
    match c
    case IsNull => v.Null?
    case NotNull => !v.Null?
    case Equals(x) => !v.Null? && v == x
    case OneOf(xs) => !v.Null? && v in xs
  }

  predicate Satisfies(r: Record, w: Where) {
    && (forall f <- w.fields :: Meets(w.fields[f], ValueOf(r.columns, f)))
    && (forall a <- w.ands :: Satisfies(r, a))
  }

  /** Related rows by row id and relation field, in the order the query would return them. */
  datatype Tables = Tables(related: map<(Id, string), seq<Record>>) {
    function Related(row: Record, field: string): seq<Record> {
      if (row.id, field) in related then related[(row.id, field)] else []
    }
  }

  datatype Tree = Tree(row: Record, included: Loaded, selected: Loaded)

  datatype Loaded = Nothing | Relations(key: string, children: seq<Tree>, rest: Loaded)

  function TakeFirst(rows: seq<Record>, n: Option<nat>): seq<Record> {
    if n.None? || |rows| <= n.value then rows else rows[..n.value]
  }

  /** The rows one entry loads: filter, then limit, on a to-many relation. */
  function Chosen(rows: seq<Record>, isList: bool, a: Args): seq<Record> {
    if !isList || a.where.None? then (if isList then TakeFirst(rows, a.take) else rows)
    else TakeFirst(Filter(rows, (r: Record) => Satisfies(r, a.where.value)), a.take)
  }

  predicate Loads(sc: Schema, model: string, key: string, node: Node) {
    sc.HasRel(model, key) && (node.Load? || node.on)
  }

  function Fetch(db: Tables, sc: Schema, model: string, args: Args, row: Record): Tree
    decreases args, 2
  {
    Tree(row, FetchClause(db, sc, model, args.includes, row), FetchClause(db, sc, model, args.selects, row))
  }

  function FetchClause(db: Tables, sc: Schema, model: string, c: Clause, row: Record): Loaded
    decreases c, 1
  {
    match c
    case Absent => Nothing
    case End => Nothing
    case Entry(key, node, rest) =>
      if Loads(sc, model, key, node)
      then Relations(key, FetchNode(db, sc, model, key, node, row), FetchClause(db, sc, model, rest, row))
      else FetchClause(db, sc, model, rest, row)
  }

  function FetchNode(db: Tables, sc: Schema, model: string, key: string, node: Node, row: Record): seq<Tree>
    requires Loads(sc, model, key, node)
    decreases node, 0
  {
    var rel := sc.Rel(model, key);
    match node
    case Flag(_) => Leaves(db.Related(row, key))
    case Load(a) =>
      var rows := Chosen(db.Related(row, key), rel.isList, a);
      seq(|rows|, i requires 0 <= i < |rows| => Fetch(db, sc, rel.target, a, rows[i]))
  }

  function Leaves(rows: seq<Record>): seq<Tree> {
    seq(|rows|, i requires 0 <= i < |rows| => Tree(rows[i], Nothing, Nothing))
  }

  // ----- The reference: a load that cannot see deleted children -----

  predicate Mentions(node: Node) { node.Load? && node.args.where.Some? && DELETED_AT in node.args.where.value.fields }

  /** To-many children are hidden when deleted, unless the entry's filter names deletedAt. */
  predicate Hides(sc: Schema, model: string, key: string, node: Node)
    requires sc.HasRel(model, key)
  {
    sc.Filterable(model, key) && !Mentions(node)
  }

  /** The row has no deletedAt value. */
  predicate Undeleted(r: Record) { "deletedAt" in r.columns ==> r.columns["deletedAt"].Null? }

  /** The row passes a where: a column without a value passes `null` and nothing else. */
  predicate Passes(r: Record, w: Where) {
    && (forall f <- w.fields ::
          if f !in r.columns || r.columns[f].Null? then w.fields[f].IsNull?
          else w.fields[f].NotNull? || w.fields[f] == Equals(r.columns[f])
               || (w.fields[f].OneOf? && r.columns[f] in w.fields[f].vs))
    && (forall i | 0 <= i < |w.ands| :: Passes(r, w.ands[i]))
  }

  /** The related rows in order, without those the entry's where leaves out or, when it says
      nothing of deletedAt, the deleted ones; then as many as the entry asks for. */
  function Seen(rows: seq<Record>, soft: bool, where: Option<Where>, take: Option<nat>): seq<Record> {
    var asks := where.Some? && "deletedAt" in where.value.fields;
    var kept := Filter(rows, (r: Record) => (soft && !asks ==> Undeleted(r))
                                            && (where.Some? ==> Passes(r, where.value)));
    if take.Some? && take.value < |kept| then kept[..take.value] else kept
  }

  function LiveFetch(db: Tables, sc: Schema, model: string, args: Args, row: Record): Tree
    decreases args, 2
  {
    Tree(row, LiveFetchClause(db, sc, model, args.includes, row), LiveFetchClause(db, sc, model, args.selects, row))
  }

  function LiveFetchClause(db: Tables, sc: Schema, model: string, c: Clause, row: Record): Loaded
    decreases c, 1
  {
    match c
    case Absent => Nothing
    case End => Nothing
    case Entry(key, node, rest) =>
      if model in sc.rels && key in sc.rels[model] && node != Flag(false)
      then Relations(key, LiveFetchNode(db, sc, model, key, node, row), LiveFetchClause(db, sc, model, rest, row))
      else LiveFetchClause(db, sc, model, rest, row)
  }

  function LiveFetchNode(db: Tables, sc: Schema, model: string, key: string, node: Node, row: Record): seq<Tree>
    requires Loads(sc, model, key, node)
    decreases node, 0
  {
    var rel := sc.rels[model][key];
    var related := if (row.id, key) in db.related then db.related[(row.id, key)] else [];
    match node
    case Flag(_) =>
      Leaves(if rel.isList then Seen(related, rel.target in sc.softDeletable, None, None) else related)
    case Load(a) =>
      var rows := if rel.isList then Seen(related, rel.target in sc.softDeletable, a.where, a.take) else related;
      seq(|rows|, i requires 0 <= i < |rows| => LiveFetch(db, sc, rel.target, a, rows[i]))
  }

  // ----- Dropping deleted children from a loaded tree -----

  function Prune(sc: Schema, model: string, args: Args, t: Tree): Tree
    decreases args, 2
  {
    Tree(t.row, PruneClause(sc, model, args.includes, t.included), PruneClause(sc, model, args.selects, t.selected))
  }

  function PruneClause(sc: Schema, model: string, c: Clause, l: Loaded): Loaded
    decreases c, 1
  {
    match c
    case Absent => l
    case End => l
    case Entry(key, node, rest) =>
      if !Loads(sc, model, key, node) || l.Nothing? then PruneClause(sc, model, rest, l)
      else Relations(l.key, PruneNode(sc, model, key, node, l.children), PruneClause(sc, model, rest, l.rest))
  }

  function PruneNode(sc: Schema, model: string, key: string, node: Node, children: seq<Tree>): seq<Tree>
    requires Loads(sc, model, key, node)
    decreases node, 0
  {
    var kept := if Hides(sc, model, key, node) then Filter(children, (t: Tree) => IsLive(t.row)) else children;
    match node
    case Flag(_) => kept
    case Load(a) => seq(|kept|, i requires 0 <= i < |kept| => Prune(sc, sc.Rel(model, key).target, a, kept[i]))
  }
}

/** The rewrite preserves meaning. */
module SoftDeleteReadProofs {
  import opened Common
  import opened SoftDeleteColumns
  import opened SoftDeleteReads

  // ----- Top-level reads -----

  lemma {:induction false} PassesIs(r: Record, w: Where)
    ensures Passes(r, w) <==> Satisfies(r, w)
    decreases w
  {
    forall i | 0 <= i < |w.ands| ensures Passes(r, w.ands[i]) <==> Satisfies(r, w.ands[i]) {
      PassesIs(r, w.ands[i]);
    }
    forall f <- w.fields ensures FieldIs(w.fields[f], r.columns, f) {}
    assert (forall a <- w.ands :: Satisfies(r, a)) <==> (forall i | 0 <= i < |w.ands| :: Satisfies(r, w.ands[i]));
  }

  /** One field's condition, with and without Meets. */
  ghost predicate FieldIs(c: Cond, columns: Columns, f: string) {
    var passes := if f !in columns || columns[f].Null? then c.IsNull?
                  else c.NotNull? || c == Equals(columns[f]) || (c.OneOf? && columns[f] in c.vs);
    Meets(c, ValueOf(columns, f)) <==> passes
  }

  lemma MergeMatches(w: Option<Where>, r: Record)
    ensures var base := if w.Some? then w.value else NO_CONDITIONS;
            Satisfies(r, MergeDeletedNull(w)) <==> Satisfies(r, base) && (DELETED_AT in base.fields || IsLive(r))
  {
    var base := if w.Some? then w.value else NO_CONDITIONS;
    if DELETED_AT !in base.fields {
      var merged := MergeDeletedNull(w);
      assert merged.fields.Keys == base.fields.Keys + {DELETED_AT};
      if Satisfies(r, merged) {
        assert Meets(merged.fields[DELETED_AT], ValueOf(r.columns, DELETED_AT));
        forall f <- base.fields ensures Meets(base.fields[f], ValueOf(r.columns, f)) { assert f in merged.fields; }
      }
    }
  }

  /** A scoped top-level read returns exactly the live rows of the scope that match the
      caller's filter. The scope is ANDed in first, so a deletedAt condition of the caller's
      own never switches the filter off. */
  lemma ScopedReadIsLive(w: Option<Where>, scope: Where, r: Record)
    requires DELETED_AT !in scope.fields
    ensures Satisfies(r, MergeDeletedNull(Some(AndWhere(w, scope))))
       <==> (w.Some? ==> Passes(r, w.value)) && Passes(r, scope) && Undeleted(r)
  {
    if w.Some? { PassesIs(r, w.value); }
    PassesIs(r, scope);
    MergeMatches(Some(AndWhere(w, scope)), r);
    if w.Some? && w.value != NO_CONDITIONS {
      var both := Where(map[], [w.value, scope]);
      assert both.ands[0] == w.value && both.ands[1] == scope;
    }
  }

  /** So asking a scoped read for deleted rows finds none, against the stated intent of
      respecting an explicit deletedAt. */
  lemma ExplicitDeletedAtFindsNothing(scope: Where, r: Record)
    requires DELETED_AT !in scope.fields
    ensures !Satisfies(r, MergeDeletedNull(Some(AndWhere(Some(Where(map[DELETED_AT := NotNull], [])), scope))))
  {
    var w := Where(map[DELETED_AT := NotNull], []);
    ScopedReadIsLive(Some(w), scope, r);
    assert Passes(r, w) ==> DELETED_AT in w.fields && w.fields[DELETED_AT].NotNull?;
  }

  // ----- Shape of the rewrite -----

  /** A bare `true` expands to just the merged filter. */
  lemma StampedFlag()
    ensures MergeDeletedNull(None) == Where(map[DELETED_AT := IsNull], [])
    ensures MergeDeletedNull(Some(MergeDeletedNull(None))) == MergeDeletedNull(None)
  {
    assert NO_CONDITIONS.fields[DELETED_AT := IsNull] == map[DELETED_AT := IsNull];
  }

  /** Running it again changes nothing. */
  lemma {:induction false} Idempotent(sc: Schema, model: string, args: Args)
    ensures Inject(sc, model, Inject(sc, model, args)) == Inject(sc, model, args)
    decreases args, 2
  {
    IdempotentClause(sc, model, args.includes);
    IdempotentClause(sc, model, args.selects);
  }

  lemma {:induction false} IdempotentClause(sc: Schema, model: string, c: Clause)
    ensures InjectClause(sc, model, InjectClause(sc, model, c)) == InjectClause(sc, model, c)
    decreases c, 1
  {
    if c.Entry? {
      IdempotentNode(sc, model, c.key, c.node);
      IdempotentClause(sc, model, c.rest);
    }
  }

  lemma {:induction false} IdempotentNode(sc: Schema, model: string, key: string, node: Node)
    ensures InjectNode(sc, model, key, InjectNode(sc, model, key, node)) == InjectNode(sc, model, key, node)
    decreases node, 0
  {
    StampedFlag();
    if sc.HasRel(model, key) && node.Load? {
      var target, a := sc.Rel(model, key).target, node.args;
      Idempotent(sc, target, a);
      var deeper := Inject(sc, target, a);
      if sc.Filterable(model, key) {
        var once := deeper.(where := Some(MergeDeletedNull(a.where)));
        assert Inject(sc, target, once) == Inject(sc, target, deeper).(where := once.where);
      }
    }
  }

  /** At every depth the where of a to-one entry is left as it was, and every other
      difference is a deletedAt: null added to a to-many entry that did not name deletedAt. */
  ghost predicate OnlyListsGain(sc: Schema, model: string, a: Args, b: Args)
    decreases a, 2
  {
    && a.where == b.where && a.take == b.take
    && OnlyListsGainClause(sc, model, a.includes, b.includes)
    && OnlyListsGainClause(sc, model, a.selects, b.selects)
  }

  ghost predicate OnlyListsGainClause(sc: Schema, model: string, a: Clause, b: Clause)
    decreases a, 1
  {
    match (a, b)
    case (Entry(k, x, r), Entry(l, y, s)) =>
      k == l && OnlyListsGainNode(sc, model, k, x, y) && OnlyListsGainClause(sc, model, r, s)
    case _ => a == b
  }

  ghost predicate OnlyListsGainNode(sc: Schema, model: string, key: string, x: Node, y: Node)
    decreases x, 0
  {
    if !sc.HasRel(model, key) then x == y
    else
      match (x, y)
      case (Load(a), Load(b)) =>
        && b.where == (if sc.Rel(model, key).isList && Hides(sc, model, key, x)
                       then Some(MergeDeletedNull(a.where)) else a.where)
        && a.take == b.take
        && OnlyListsGainClause(sc, sc.Rel(model, key).target, a.includes, b.includes)
        && OnlyListsGainClause(sc, sc.Rel(model, key).target, a.selects, b.selects)
      case (Flag(on), Load(b)) =>
        on && sc.Rel(model, key).isList && b == Args(Some(MergeDeletedNull(None)), Absent, Absent, None)
      case _ => x == y
  }

  lemma {:induction false} ToOneNeverFiltered(sc: Schema, model: string, args: Args)
    ensures OnlyListsGain(sc, model, args, Inject(sc, model, args))
    decreases args, 2
  {
    ToOneNeverFilteredClause(sc, model, args.includes);
    ToOneNeverFilteredClause(sc, model, args.selects);
  }

  lemma {:induction false} ToOneNeverFilteredClause(sc: Schema, model: string, c: Clause)
    ensures OnlyListsGainClause(sc, model, c, InjectClause(sc, model, c))
    decreases c, 1
  {
    if c.Entry? {
      ToOneNeverFilteredNode(sc, model, c.key, c.node);
      ToOneNeverFilteredClause(sc, model, c.rest);
    }
  }

  lemma {:induction false} ToOneNeverFilteredNode(sc: Schema, model: string, key: string, node: Node)
    ensures OnlyListsGainNode(sc, model, key, node, InjectNode(sc, model, key, node))
    decreases node, 0
  {
    StampedFlag();
    if sc.HasRel(model, key) && node.Load? {
      ToOneNeverFiltered(sc, sc.Rel(model, key).target, node.args);
      assert Mentions(node) ==> Some(MergeDeletedNull(node.args.where)) == node.args.where;
    }
  }

  // ----- Meaning: rewritten load == load that cannot see deleted children -----

  lemma FilterMerged(rows: seq<Record>, w: Option<Where>)
    requires w.None? || DELETED_AT !in w.value.fields
    ensures var base := if w.Some? then w.value else NO_CONDITIONS;
            Filter(rows, (r: Record) => Satisfies(r, MergeDeletedNull(w)))
              == Filter(Filter(rows, IsLive), (r: Record) => Satisfies(r, base))
    decreases |rows|
  {
    var base := if w.Some? then w.value else NO_CONDITIONS;
    var merged, plain := (r: Record) => Satisfies(r, MergeDeletedNull(w)), (r: Record) => Satisfies(r, base);
    if rows != [] {
      MergeMatches(w, rows[0]);
      FilterMerged(rows[1..], w);
      if IsLive(rows[0]) { FilterCons(rows[0], Filter(rows[1..], IsLive), plain); }
      assert [] + Filter(rows[1..], IsLive) == Filter(rows[1..], IsLive);
    }
  }

  lemma EverythingMatches(rows: seq<Record>)
    ensures Filter(rows, (r: Record) => Satisfies(r, NO_CONDITIONS)) == rows
  {
    FilterAll(rows, (r: Record) => Satisfies(r, NO_CONDITIONS));
  }

  lemma ChosenMerged(rows: seq<Record>, a: Args)
    requires a.where.None? || DELETED_AT !in a.where.value.fields
    ensures Chosen(rows, true, a.(where := Some(MergeDeletedNull(a.where)))) == Chosen(Filter(rows, IsLive), true, a)
  {
    FilterMerged(rows, a.where);
    EverythingMatches(Filter(rows, IsLive));
  }

  /** The reference's choice of rows, in terms of the load's own filter and limit. */
  lemma SeenIs(rows: seq<Record>, soft: bool, a: Args)
    ensures var hides := soft && !Mentions(Load(a));
            Seen(rows, soft, a.where, a.take) == Chosen(if hides then Filter(rows, IsLive) else rows, true, a)
  {
    var hides := soft && !Mentions(Load(a));
    var wanted := if a.where.Some? then a.where.value else NO_CONDITIONS;
    var plain := (r: Record) => Satisfies(r, wanted);
    var both := (r: Record) => (hides ==> Undeleted(r)) && (a.where.Some? ==> Passes(r, a.where.value));
    forall r: Record ensures both(r) <==> (hides ==> IsLive(r)) && plain(r) {
      if a.where.Some? { PassesIs(r, a.where.value); }
    }
    FilterBoth(rows, (r: Record) => hides ==> IsLive(r), plain, both);
    EverythingMatches(if hides then Filter(rows, IsLive) else rows);
    if hides { FilterAgree(rows, (r: Record) => hides ==> IsLive(r), IsLive); }
    else { FilterAll(rows, (r: Record) => hides ==> IsLive(r)); }
  }

  lemma {:induction false} FilterAgree(rows: seq<Record>, p: Record -> bool, q: Record -> bool)
    requires forall r <- rows :: p(r) <==> q(r)
    ensures Filter(rows, p) == Filter(rows, q)
  {
    if rows == [] {
    } else {
      FilterAgree(rows[1..], p, q);
    }
  }

  /** For any tree, at every depth, under any nested limits: loading with the rewritten
      args is loading with the original args from tables whose deleted to-many children
      cannot be seen. */
  lemma {:induction false} RewrittenLoadIsLive(db: Tables, sc: Schema, model: string, args: Args, row: Record)
    ensures Fetch(db, sc, model, Inject(sc, model, args), row) == LiveFetch(db, sc, model, args, row)
    decreases args, 2
  {
    RewrittenClauseIsLive(db, sc, model, args.includes, row);
    RewrittenClauseIsLive(db, sc, model, args.selects, row);
  }

  lemma {:induction false} RewrittenClauseIsLive(db: Tables, sc: Schema, model: string, c: Clause, row: Record)
    ensures FetchClause(db, sc, model, InjectClause(sc, model, c), row) == LiveFetchClause(db, sc, model, c, row)
    decreases c, 1
  {
    if c.Entry? {
      RewrittenClauseIsLive(db, sc, model, c.rest, row);
      if Loads(sc, model, c.key, c.node) { RewrittenNodeIsLive(db, sc, model, c.key, c.node, row); }
    }
  }

  lemma {:induction false} RewrittenNodeIsLive(db: Tables, sc: Schema, model: string, key: string, node: Node,
      row: Record)
    requires Loads(sc, model, key, node)
    ensures Loads(sc, model, key, InjectNode(sc, model, key, node))
    ensures FetchNode(db, sc, model, key, InjectNode(sc, model, key, node), row)
         == LiveFetchNode(db, sc, model, key, node, row)
    decreases node, 0
  {
    var rel, rows := sc.Rel(model, key), db.Related(row, key);
    match node {
      case Flag(_) => RewrittenFlagIsLive(db, sc, model, key, node.on, row);
      case Load(a) =>
        var b := InjectNode(sc, model, key, node).args;
        if Hides(sc, model, key, node) { ChosenMerged(rows, a); }
        SeenIs(rows, rel.target in sc.softDeletable, a);
        var visible := if Hides(sc, model, key, node) then Filter(rows, IsLive) else rows;
        assert Chosen(rows, rel.isList, b) == Chosen(visible, rel.isList, a);
        forall r: Record ensures Fetch(db, sc, rel.target, b, r) == LiveFetch(db, sc, rel.target, a, r) {
          RewrittenLoadIsLive(db, sc, rel.target, a, r);
        }
    }
  }

  lemma RewrittenFlagIsLive(db: Tables, sc: Schema, model: string, key: string, on: bool, row: Record)
    requires Loads(sc, model, key, Flag(on))
    ensures Loads(sc, model, key, InjectNode(sc, model, key, Flag(on)))
    ensures FetchNode(db, sc, model, key, InjectNode(sc, model, key, Flag(on)), row)
         == LiveFetchNode(db, sc, model, key, Flag(on), row)
  {
    var rel, rows, bare := sc.Rel(model, key), db.Related(row, key), Args(None, Absent, Absent, None);
    SeenIs(rows, rel.target in sc.softDeletable, bare);
    if sc.Filterable(model, key) {
      ChosenMerged(rows, bare);
      assert MergeDeletedNull(None) == Where(map[DELETED_AT := IsNull], []);
      assert Chosen(Filter(rows, IsLive), true, bare) == Filter(rows, IsLive);
    }
  }

  // ----- Meaning: pruning afterwards -----

  /** A limit n over these rows cuts the same rows before and after dropping deleted ones:
      there is no limit, or nothing lies beyond it, or no deleted row lies within it, or no
      live row lies beyond it. */
  predicate CutIsHarmless(rows: seq<Record>, limit: Option<nat>) {
    || limit.None?
    || |rows| <= limit.value
    || (forall r <- rows[..limit.value] :: IsLive(r))
    || (forall r <- rows[limit.value..] :: !IsLive(r))
  }

  function Matched(rows: seq<Record>, a: Args): seq<Record> {
    if a.where.None? then rows else Filter(rows, (r: Record) => Satisfies(r, a.where.value))
  }

  /** Every limit met while loading `row` on a relation whose deleted rows are hidden is harmless. */
  predicate LimitsHarmless(db: Tables, sc: Schema, model: string, args: Args, row: Record)
    decreases args, 2
  {
    LimitsHarmlessClause(db, sc, model, args.includes, row) && LimitsHarmlessClause(db, sc, model, args.selects, row)
  }

  predicate LimitsHarmlessClause(db: Tables, sc: Schema, model: string, c: Clause, row: Record)
    decreases c, 1
  {
    c.Entry? ==>
      && (Loads(sc, model, c.key, c.node) ==> LimitsHarmlessNode(db, sc, model, c.key, c.node, row))
      && LimitsHarmlessClause(db, sc, model, c.rest, row)
  }

  predicate LimitsHarmlessNode(db: Tables, sc: Schema, model: string, key: string, node: Node, row: Record)
    requires Loads(sc, model, key, node)
    decreases node, 0
  {
    match node
    case Flag(_) => true
    case Load(a) =>
      var rel, rows, hides := sc.Rel(model, key), db.Related(row, key), Hides(sc, model, key, node);
      && (hides ==> CutIsHarmless(Matched(rows, a), a.take))
      && (forall r <- Chosen(if hides then Filter(rows, IsLive) else rows, rel.isList, a) ::
            LimitsHarmless(db, sc, rel.target, a, r))
  }

  lemma {:induction false} FiltersCommute(rows: seq<Record>, p: Record -> bool, q: Record -> bool)
    ensures Filter(Filter(rows, p), q) == Filter(Filter(rows, q), p)
  {
    if rows == [] {
    } else {
      var x, rest := rows[0], rows[1..];
      FiltersCommute(rest, p, q);
      if p(x) { FilterCons(x, Filter(rest, p), q); }
      if q(x) { FilterCons(x, Filter(rest, q), p); }
      assert [] + Filter(rest, p) == Filter(rest, p) && [] + Filter(rest, q) == Filter(rest, q);
    }
  }

  lemma {:induction false} FilterTrees(ts: seq<Tree>, rows: seq<Record>)
    requires |ts| == |rows| && forall i | 0 <= i < |ts| :: ts[i].row == rows[i]
    ensures var kept := Filter(ts, (t: Tree) => IsLive(t.row));
            && |kept| == |Filter(rows, IsLive)|
            && forall i | 0 <= i < |kept| :: kept[i].row == Filter(rows, IsLive)[i] && kept[i] in ts
  {
    if ts == [] {
    } else {
      FilterTrees(ts[1..], rows[1..]);
    }
  }

  /** Dropping deleted rows and cutting commute exactly when the cut is harmless. */
  lemma CutCommutes(rows: seq<Record>, limit: Option<nat>)
    ensures TakeFirst(Filter(rows, IsLive), limit) == Filter(TakeFirst(rows, limit), IsLive)
           <==> CutIsHarmless(rows, limit)
  {
    FilterLengths(rows, IsLive);
    if limit.Some? && |rows| > limit.value {
      var head, tail := rows[..limit.value], rows[limit.value..];
      assert rows == head + tail;
      FilterAppend(head, tail, IsLive);
      FilterLengths(head, IsLive);
      FilterLengths(tail, IsLive);
      if forall r <- head :: IsLive(r) { FilterAll(head, IsLive); }
      if forall r <- tail :: !IsLive(r) { FilterNone(tail, IsLive); }
    }
  }

  /** A filter never lengthens, keeps the length only by keeping everything, and is empty
      only by keeping nothing. */
  lemma {:induction false} FilterLengths(rows: seq<Record>, p: Record -> bool)
    ensures |Filter(rows, p)| <= |rows|
    ensures |Filter(rows, p)| == |rows| ==> forall r <- rows :: p(r)
    ensures Filter(rows, p) == [] ==> forall r <- rows :: !p(r)
  {
    if rows == [] {
    } else {
      FilterLengths(rows[1..], p);
    }
  }

  lemma ChosenLive(rows: seq<Record>, a: Args)
    ensures Chosen(Filter(rows, IsLive), true, a) == Filter(Chosen(rows, true, a), IsLive)
       <==> CutIsHarmless(Matched(rows, a), a.take)
  {
    CutCommutes(Matched(rows, a), a.take);
    if a.where.Some? { FiltersCommute(rows, IsLive, (r: Record) => Satisfies(r, a.where.value)); }
  }

  /** The rewritten load is the original load with the deleted children dropped from the
      result, at every depth, exactly when every limit met on the way is harmless. */
  lemma {:induction false} RewrittenLoadIsPruned(db: Tables, sc: Schema, model: string, args: Args, row: Record)
    ensures Fetch(db, sc, model, Inject(sc, model, args), row)
         == Prune(sc, model, args, Fetch(db, sc, model, args, row))
       <==> LimitsHarmless(db, sc, model, args, row)
  {
    RewrittenLoadIsLive(db, sc, model, args, row);
    LiveIsPruned(db, sc, model, args, row);
  }

  lemma {:induction false} LiveIsPruned(db: Tables, sc: Schema, model: string, args: Args, row: Record)
    ensures LiveFetch(db, sc, model, args, row) == Prune(sc, model, args, Fetch(db, sc, model, args, row))
       <==> LimitsHarmless(db, sc, model, args, row)
    decreases args, 2
  {
    LiveClauseIsPruned(db, sc, model, args.includes, row);
    LiveClauseIsPruned(db, sc, model, args.selects, row);
  }

  lemma {:induction false} LiveClauseIsPruned(db: Tables, sc: Schema, model: string, c: Clause, row: Record)
    ensures LiveFetchClause(db, sc, model, c, row) == PruneClause(sc, model, c, FetchClause(db, sc, model, c, row))
       <==> LimitsHarmlessClause(db, sc, model, c, row)
    decreases c, 1
  {
    if c.Entry? {
      LiveClauseIsPruned(db, sc, model, c.rest, row);
      if Loads(sc, model, c.key, c.node) { LiveNodeIsPruned(db, sc, model, c.key, c.node, row); }
    }
  }

  lemma {:induction false} LiveNodeIsPruned(db: Tables, sc: Schema, model: string, key: string, node: Node, row: Record)
    requires Loads(sc, model, key, node)
    ensures LiveFetchNode(db, sc, model, key, node, row)
              == PruneNode(sc, model, key, node, FetchNode(db, sc, model, key, node, row))
       <==> LimitsHarmlessNode(db, sc, model, key, node, row)
    decreases node, 0
  {
    var rows, trees := db.Related(row, key), FetchNode(db, sc, model, key, node, row);
    match node {
      case Flag(_) =>
        SeenIs(rows, sc.Rel(model, key).target in sc.softDeletable, Args(None, Absent, Absent, None));
        if Hides(sc, model, key, node) {
          FilterTrees(trees, rows);
          LeavesAre(Filter(trees, (t: Tree) => IsLive(t.row)), Filter(rows, IsLive));
        }
      case Load(a) =>
        var target := sc.Rel(model, key).target;
        forall r: Record ensures PrunedExactly(db, sc, target, a, r) { LiveIsPruned(db, sc, target, a, r); }
        LoadIsPruned(db, sc, model, key, a, row);
    }
  }

  /** What LiveIsPruned says of one row. */
  ghost predicate PrunedExactly(db: Tables, sc: Schema, target: string, a: Args, r: Record) {
    var same := LiveFetch(db, sc, target, a, r) == Prune(sc, target, a, Fetch(db, sc, target, a, r));
    same <==> LimitsHarmless(db, sc, target, a, r)
  }

  function FetchAll(db: Tables, sc: Schema, target: string, a: Args, rows: seq<Record>): seq<Tree> {
    seq(|rows|, i requires 0 <= i < |rows| => Fetch(db, sc, target, a, rows[i]))
  }

  function LiveFetchAll(db: Tables, sc: Schema, target: string, a: Args, rows: seq<Record>): seq<Tree> {
    seq(|rows|, i requires 0 <= i < |rows| => LiveFetch(db, sc, target, a, rows[i]))
  }

  function PruneAll(sc: Schema, target: string, a: Args, trees: seq<Tree>): seq<Tree> {
    seq(|trees|, i requires 0 <= i < |trees| => Prune(sc, target, a, trees[i]))
  }

  /** Dropping the deleted ones of the trees loaded is loading the rows that are not deleted. */
  lemma LiveTrees(db: Tables, sc: Schema, target: string, a: Args, rows: seq<Record>)
    ensures Filter(FetchAll(db, sc, target, a, rows), (t: Tree) => IsLive(t.row))
         == FetchAll(db, sc, target, a, Filter(rows, IsLive))
  {
    var trees := FetchAll(db, sc, target, a, rows);
    var kept := Filter(trees, (t: Tree) => IsLive(t.row));
    FilterTrees(trees, rows);
    forall i | 0 <= i < |kept| ensures kept[i] == Fetch(db, sc, target, a, Filter(rows, IsLive)[i]) {
      assert kept[i] in trees;
    }
  }

  /** One nested load, given its subtrees. */
  lemma LoadIsPruned(db: Tables, sc: Schema, model: string, key: string, a: Args, row: Record)
    requires Loads(sc, model, key, Load(a))
    requires forall r: Record :: PrunedExactly(db, sc, sc.Rel(model, key).target, a, r)
    ensures LiveFetchNode(db, sc, model, key, Load(a), row)
              == PruneNode(sc, model, key, Load(a), FetchNode(db, sc, model, key, Load(a), row))
       <==> LimitsHarmlessNode(db, sc, model, key, Load(a), row)
  {
    var target, rows := sc.Rel(model, key).target, db.Related(row, key);
    var chosen := Chosen(rows, sc.Rel(model, key).isList, a);
    assert FetchNode(db, sc, model, key, Load(a), row) == FetchAll(db, sc, target, a, chosen);
    SeenIs(rows, target in sc.softDeletable, a);
    if Hides(sc, model, key, Load(a)) {
      HiddenLoadIsPruned(db, sc, model, key, a, row);
    } else {
      assert LiveFetchNode(db, sc, model, key, Load(a), row) == LiveFetchAll(db, sc, target, a, chosen);
      SameTrees(db, sc, target, a, chosen, chosen);
    }
  }

  lemma HiddenLoadIsPruned(db: Tables, sc: Schema, model: string, key: string, a: Args, row: Record)
    requires Loads(sc, model, key, Load(a)) && Hides(sc, model, key, Load(a))
    requires forall r: Record :: PrunedExactly(db, sc, sc.Rel(model, key).target, a, r)
    ensures LiveFetchNode(db, sc, model, key, Load(a), row)
              == PruneNode(sc, model, key, Load(a), FetchNode(db, sc, model, key, Load(a), row))
       <==> LimitsHarmlessNode(db, sc, model, key, Load(a), row)
  {
    var target, rows := sc.Rel(model, key).target, db.Related(row, key);
    var chosen, seen := Chosen(rows, true, a), Chosen(Filter(rows, IsLive), true, a);
    assert FetchNode(db, sc, model, key, Load(a), row) == FetchAll(db, sc, target, a, chosen);
    SeenIs(rows, target in sc.softDeletable, a);
    assert LiveFetchNode(db, sc, model, key, Load(a), row) == LiveFetchAll(db, sc, target, a, seen);
    LiveTrees(db, sc, target, a, chosen);
    ChosenLive(rows, a);
    SameTrees(db, sc, target, a, seen, Filter(chosen, IsLive));
  }

  /** Tree lists agree exactly when they are about the same rows and agree row by row. */
  lemma SameTrees(db: Tables, sc: Schema, target: string, a: Args, seen: seq<Record>, kept: seq<Record>)
    requires forall r: Record :: PrunedExactly(db, sc, target, a, r)
    ensures LiveFetchAll(db, sc, target, a, seen) == PruneAll(sc, target, a, FetchAll(db, sc, target, a, kept))
       <==> seen == kept && forall r <- seen :: LimitsHarmless(db, sc, target, a, r)
  {
    var left := LiveFetchAll(db, sc, target, a, seen);
    var right := PruneAll(sc, target, a, FetchAll(db, sc, target, a, kept));
    if left == right {
      forall i | 0 <= i < |seen| ensures seen[i] == kept[i] && LimitsHarmless(db, sc, target, a, seen[i]) {
        assert left[i] == right[i] && left[i].row == seen[i] && right[i].row == kept[i];
        assert PrunedExactly(db, sc, target, a, seen[i]);
      }
    } else if seen == kept && forall r <- seen :: LimitsHarmless(db, sc, target, a, r) {
      forall i | 0 <= i < |left| ensures left[i] == right[i] {
        assert PrunedExactly(db, sc, target, a, seen[i]) && LimitsHarmless(db, sc, target, a, seen[i]);
      }
    }
  }

  lemma LeavesAre(kept: seq<Tree>, rows: seq<Record>)
    requires |kept| == |rows| && forall i | 0 <= i < |kept| :: kept[i] == Tree(rows[i], Nothing, Nothing)
    ensures kept == Leaves(rows)
  {}

  /** Where the limit matters: one deleted row ahead of a live one, and take 1. */
  lemma LimitBreaksPruning() returns (db: Tables, sc: Schema, args: Args, row: Record)
    ensures Fetch(db, sc, "product", Inject(sc, "product", args), row)
         != Prune(sc, "product", args, Fetch(db, sc, "product", args, row))
  {
    var dead, live := Record(1, map[DELETED_AT := At(0)]), Record(2, map[]);
    row := Record(0, map[]);
    sc := Schema(map["product" := map["variants" := Relation("productVariant", true)]], {"productVariant"});
    db := Tables(map[(0, "variants") := [dead, live]]);
    var node := Load(Args(None, Absent, Absent, Some(1)));
    args := Args(None, Entry("variants", node, End), Absent, None);
    RewrittenLoadIsPruned(db, sc, "product", args, row);
    OneDeadOneLive(dead, live);
    var rows := db.Related(row, "variants");
    assert rows == [dead, live];
    assert sc.HasRel("product", "variants") && sc.Rel("product", "variants") == Relation("productVariant", true);
    assert Hides(sc, "product", "variants", node);
    assert !CutIsHarmless(Matched(rows, node.args), node.args.take);
    assert !LimitsHarmlessNode(db, sc, "product", "variants", node, row);
    assert !LimitsHarmlessClause(db, sc, "product", args.includes, row);
  }

  lemma OneDeadOneLive(dead: Record, live: Record)
    requires !IsLive(dead) && IsLive(live)
    ensures !CutIsHarmless([dead, live], Some(1))
  {
    var rows := [dead, live];
    assert dead in rows[..1] by { assert rows[..1][0] == dead; }
    assert live in rows[1..] by { assert rows[1..][0] == live; }
  }
}
