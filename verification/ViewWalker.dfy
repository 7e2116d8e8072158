/** Queries as views store them, and the walk over their tables with the scoping of CTEs. Identifiers are compared
    without regard to case, so they are written folded to one case. */
module ViewWalker {
  import opened Outcomes

  /** A table name as it is written: t, x.t or c.s.t. */
  datatype WrittenName = Bare(table: string) | InSchema(schema: string, table: string)
                       | InCatalog(catalog: string, schema: string, table: string)

  type Name = n: WrittenName | (!n.Bare? ==> n.schema != "") && (n.InCatalog? ==> n.catalog != "") witness Bare("t")

  datatype Query =
    | Select(ctes: seq<Cte>, from: TableRef, exprs: seq<Expr>, modifiers: seq<Expr>)
    | SetOperation(ctes: seq<Cte>, children: seq<Query>, modifiers: seq<Expr>)
    | RecursiveCte(ctes: seq<Cte>, name: string, left: Query, right: Query, keys: seq<Expr>, modifiers: seq<Expr>)
    | OtherQuery

  datatype Cte = Cte(name: string, query: Query, keys: seq<Expr>)

  datatype TableRef =
    | BaseTable(name: Name)
    | Join(left: TableRef, right: TableRef, exprs: seq<Expr>)
    | Subquery(query: Query)
    | Pivot(source: TableRef, exprs: seq<Expr>)
    | ExpressionList(exprs: seq<Expr>)
    | EmptyFrom
    | TableFunction
    | OtherRef

  /** A star's qualifiers are the catalogs of the columns it excludes or renames. */
  datatype Expr =
    | ColumnRef(names: seq<string>)
    | Star(qualifiers: seq<string>)
    | SubqueryExpr(query: Query, children: seq<Expr>)
    | Operator(children: seq<Expr>)

  /** What a pass does with a table name, given the CTE names in scope; None refuses the view. */
  type Rewriting = (Name, set<string>) -> Option<Name>

  // The walk: every base table's name is rewritten, and what a Glue view can not store is refused.

  function WalkQuery(q: Query, visible: set<string>, f: Rewriting): Option<Query>
    decreases q
  {
    match q
    case OtherQuery => None
    case Select(ctes, from, exprs, modifiers) =>
      var inside := visible + NamesOf(ctes);
      (match (WalkCtes(ctes, visible, f), WalkRef(from, inside, f), WalkExprs(exprs, inside, f), WalkExprs(modifiers, inside, f))
       case (Some(c), Some(t), Some(e), Some(m)) => Some(Select(c, t, e, m))
       case _ => None)
    case SetOperation(ctes, children, modifiers) =>
      var inside := visible + NamesOf(ctes);
      (match (WalkCtes(ctes, visible, f), WalkQueries(children, inside, f), WalkExprs(modifiers, inside, f))
       case (Some(c), Some(qs), Some(m)) => Some(SetOperation(c, qs, m))
       case _ => None)
    case RecursiveCte(ctes, name, left, right, keys, modifiers) =>
      var inside := visible + NamesOf(ctes);
      (match (WalkCtes(ctes, visible, f), WalkQuery(left, inside, f), WalkQuery(right, inside + {name}, f),
              WalkExprs(keys, {}, f), WalkExprs(modifiers, inside, f))
       case (Some(c), Some(l), Some(r), Some(k), Some(m)) => Some(RecursiveCte(c, name, l, r, k, m))
       case _ => None)
  }

  function WalkQueries(qs: seq<Query>, visible: set<string>, f: Rewriting): Option<seq<Query>>
    decreases qs
  {
    if qs == [] then Some([])
    else match (WalkQuery(qs[0], visible, f), WalkQueries(qs[1..], visible, f))
      case (Some(q), Some(rest)) => Some([q] + rest)
      case _ => None
  }

  /** A CTE is visible in those after it. */
  function WalkCtes(ctes: seq<Cte>, visible: set<string>, f: Rewriting): Option<seq<Cte>>
    decreases ctes
  {
    if ctes == [] then Some([])
    else
      var cte := ctes[0];
      match (WalkQuery(cte.query, visible, f), WalkExprs(cte.keys, {}, f), WalkCtes(ctes[1..], visible + {cte.name}, f))
      case (Some(q), Some(k), Some(rest)) => Some([Cte(cte.name, q, k)] + rest)
      case _ => None
  }

  function WalkRef(t: TableRef, visible: set<string>, f: Rewriting): Option<TableRef>
    decreases t
  {
    match t
    case BaseTable(name) =>
      (match f(name, visible)
       case Some(n) => Some(BaseTable(n))
       case None => None)
    case Join(left, right, exprs) =>
      (match (WalkRef(left, visible, f), WalkRef(right, visible, f), WalkExprs(exprs, visible, f))
       case (Some(l), Some(r), Some(e)) => Some(Join(l, r, e))
       case _ => None)
    case Subquery(q) =>
      (match WalkQuery(q, visible, f)
       case Some(w) => Some(Subquery(w))
       case None => None)
    case Pivot(source, exprs) =>
      (match (WalkRef(source, visible, f), WalkExprs(exprs, visible, f))
       case (Some(s), Some(e)) => Some(Pivot(s, e))
       case _ => None)
    case ExpressionList(exprs) =>
      (match WalkExprs(exprs, visible, f)
       case Some(e) => Some(ExpressionList(e))
       case None => None)
    case EmptyFrom => Some(t)
    case TableFunction => None
    case OtherRef => None
  }

  function WalkExpr(e: Expr, visible: set<string>, f: Rewriting): Option<Expr>
    decreases e
  {
    match e
    case SubqueryExpr(q, children) =>
      (match (WalkQuery(q, visible, f), WalkExprs(children, visible, f))
       case (Some(w), Some(c)) => Some(SubqueryExpr(w, c))
       case _ => None)
    case Operator(children) =>
      (match WalkExprs(children, visible, f)
       case Some(c) => Some(Operator(c))
       case None => None)
    case _ => Some(e)
  }

  function WalkExprs(es: seq<Expr>, visible: set<string>, f: Rewriting): Option<seq<Expr>>
    decreases es
  {
    if es == [] then Some([])
    else match (WalkExpr(es[0], visible, f), WalkExprs(es[1..], visible, f))
      case (Some(e), Some(rest)) => Some([e] + rest)
      case _ => None
  }

  function NamesOf(ctes: seq<Cte>): set<string> {
    if ctes == [] then {} else {ctes[0].name} + NamesOf(ctes[1..])
  }

  // What the tables of a query mean, bound from scratch: each declaration of a CTE is told apart by where it stands
  // (module ViewScopes).

  /** What a catalog is, whatever it is attached as. */
  datatype Identity = GlueId(region: string, endpoint: string, id: string) | ExternalId(kind: string, alias: string)

  datatype Meaning = TableOf(identity: Identity, schema: string, table: string) | CteOf(declaration: seq<nat>) | Unbound

  type Scope = map<string, seq<nat>>

  /** A bare name is a CTE when one is in scope, and otherwise what the catalogs make of it. */
  function BindName(n: Name, scope: Scope, tables: Name -> Meaning): Meaning {
    if n.Bare? && n.table in scope then CteOf(scope[n.table]) else tables(n)
  }

  function BindQuery(q: Query, at: seq<nat>, scope: Scope, tables: Name -> Meaning): seq<Meaning>
    decreases q
  {
    match q
    case OtherQuery => []
    case Select(ctes, from, exprs, modifiers) =>
      var inside := Declare(ctes, at + [0], 0, scope);
      BindCtes(ctes, at + [0], 0, scope, tables) + BindRef(from, at + [1], inside, tables) +
      BindExprs(exprs, at + [2], inside, tables) + BindExprs(modifiers, at + [3], inside, tables)
    case SetOperation(ctes, children, modifiers) =>
      var inside := Declare(ctes, at + [0], 0, scope);
      BindCtes(ctes, at + [0], 0, scope, tables) + BindQueries(children, at + [1], inside, tables) +
      BindExprs(modifiers, at + [2], inside, tables)
    case RecursiveCte(ctes, name, left, right, keys, modifiers) =>
      var inside := Declare(ctes, at + [0], 0, scope);
      BindCtes(ctes, at + [0], 0, scope, tables) + BindQuery(left, at + [1], inside, tables) +
      BindQuery(right, at + [2], inside[name := at + [5]], tables) + BindExprs(keys, at + [3], map[], tables) +
      BindExprs(modifiers, at + [4], inside, tables)
  }

  function Declare(ctes: seq<Cte>, at: seq<nat>, k: nat, scope: Scope): Scope {
    if ctes == [] then scope else Declare(ctes[1..], at, k + 1, scope[ctes[0].name := at + [k, 0]])
  }

  function BindCtes(ctes: seq<Cte>, at: seq<nat>, k: nat, scope: Scope, tables: Name -> Meaning): seq<Meaning>
    decreases ctes
  {
    if ctes == [] then []
    else
      BindQuery(ctes[0].query, at + [k, 1], scope, tables) + BindExprs(ctes[0].keys, at + [k, 2], map[], tables) +
      BindCtes(ctes[1..], at, k + 1, scope[ctes[0].name := at + [k, 0]], tables)
  }

  function BindQueries(qs: seq<Query>, at: seq<nat>, scope: Scope, tables: Name -> Meaning): seq<Meaning>
    decreases qs
  {
    if qs == [] then []
    else BindQuery(qs[0], at + [|qs|, 0], scope, tables) + BindQueries(qs[1..], at, scope, tables)
  }

  function BindRef(t: TableRef, at: seq<nat>, scope: Scope, tables: Name -> Meaning): seq<Meaning>
    decreases t
  {
    match t
    case BaseTable(name) => [BindName(name, scope, tables)]
    case Join(left, right, exprs) =>
      BindRef(left, at + [0], scope, tables) + BindRef(right, at + [1], scope, tables) + BindExprs(exprs, at + [2], scope, tables)
    case Subquery(q) => BindQuery(q, at + [0], scope, tables)
    case Pivot(source, exprs) => BindRef(source, at + [0], scope, tables) + BindExprs(exprs, at + [1], scope, tables)
    case ExpressionList(exprs) => BindExprs(exprs, at, scope, tables)
    case _ => []
  }

  function BindExpr(e: Expr, at: seq<nat>, scope: Scope, tables: Name -> Meaning): seq<Meaning>
    decreases e
  {
    match e
    case SubqueryExpr(q, children) => BindQuery(q, at + [0], scope, tables) + BindExprs(children, at + [1], scope, tables)
    case Operator(children) => BindExprs(children, at + [0], scope, tables)
    case _ => []
  }

  function BindExprs(es: seq<Expr>, at: seq<nat>, scope: Scope, tables: Name -> Meaning): seq<Meaning>
    decreases es
  {
    if es == [] then []
    else BindExpr(es[0], at + [|es|, 0], scope, tables) + BindExprs(es[1..], at, scope, tables)
  }

  // A pass that keeps the meaning of each name keeps the meaning of the query.

  ghost predicate Keeps(f: Rewriting, before: Name -> Meaning, after: Name -> Meaning) {
    forall n: Name, scope: Scope :: f(n, scope.Keys).Some? ==>
      BindName(f(n, scope.Keys).value, scope, after) == BindName(n, scope, before)
  }

  lemma {:induction false} DeclaredNames(ctes: seq<Cte>, at: seq<nat>, k: nat, scope: Scope)
    ensures Declare(ctes, at, k, scope).Keys == scope.Keys + NamesOf(ctes)
  {
    if ctes != [] {
      DeclaredNames(ctes[1..], at, k + 1, scope[ctes[0].name := at + [k, 0]]);
    }
  }

  lemma {:induction false} WalkedCtesDeclare(ctes: seq<Cte>, f: Rewriting, visible: set<string>, at: seq<nat>, k: nat, scope: Scope)
    requires WalkCtes(ctes, visible, f).Some?
    ensures Declare(WalkCtes(ctes, visible, f).value, at, k, scope) == Declare(ctes, at, k, scope)
    ensures |WalkCtes(ctes, visible, f).value| == |ctes|
  {
    if ctes != [] {
      var walked := WalkCtes(ctes, visible, f).value;
      assert walked[1..] == WalkCtes(ctes[1..], visible + {ctes[0].name}, f).value;
      WalkedCtesDeclare(ctes[1..], f, visible + {ctes[0].name}, at, k + 1, scope[ctes[0].name := at + [k, 0]]);
    }
  }

  lemma {:induction false} QueryKept(q: Query, at: seq<nat>, scope: Scope, f: Rewriting,
                                                  before: Name -> Meaning, after: Name -> Meaning)
    requires Keeps(f, before, after) && WalkQuery(q, scope.Keys, f).Some?
    ensures BindQuery(WalkQuery(q, scope.Keys, f).value, at, scope, after) == BindQuery(q, at, scope, before)
    decreases q
  {
    hide Keeps, BindName, Declare;
    if !q.OtherQuery? {
      var inside := Declare(q.ctes, at + [0], 0, scope);
      DeclaredNames(q.ctes, at + [0], 0, scope);
      CtesKept(q.ctes, at + [0], 0, scope, f, before, after);
      WalkedCtesDeclare(q.ctes, f, scope.Keys, at + [0], 0, scope);
      match q
      case Select(ctes, from, exprs, modifiers) =>
        RefKept(from, at + [1], inside, f, before, after);
        ExprsKept(exprs, at + [2], inside, f, before, after);
        ExprsKept(modifiers, at + [3], inside, f, before, after);
      case SetOperation(ctes, children, modifiers) =>
        QueriesKept(children, at + [1], inside, f, before, after);
        ExprsKept(modifiers, at + [2], inside, f, before, after);
      case RecursiveCte(ctes, name, left, right, keys, modifiers) =>
        var there := at + [5];
        assert inside[name := there].Keys == inside.Keys + {name};
        EmptyScope();
        QueryKept(left, at + [1], inside, f, before, after);
        QueryKept(right, at + [2], inside[name := there], f, before, after);
        ExprsKept(keys, at + [3], map[], f, before, after);
        ExprsKept(modifiers, at + [4], inside, f, before, after);
    }
  }

  lemma EmptyScope()
    ensures var none: Scope := map[]; none.Keys == {}
  {
  }

  lemma {:induction false} QueriesKept(qs: seq<Query>, at: seq<nat>, scope: Scope, f: Rewriting,
                                                    before: Name -> Meaning, after: Name -> Meaning)
    requires Keeps(f, before, after) && WalkQueries(qs, scope.Keys, f).Some?
    ensures |WalkQueries(qs, scope.Keys, f).value| == |qs|
    ensures BindQueries(WalkQueries(qs, scope.Keys, f).value, at, scope, after) == BindQueries(qs, at, scope, before)
    decreases qs
  {
    hide Keeps, BindName;
    if qs != [] {
      QueryKept(qs[0], at + [|qs|, 0], scope, f, before, after);
      QueriesKept(qs[1..], at, scope, f, before, after);
      var walked := WalkQueries(qs, scope.Keys, f).value;
      assert walked[1..] == WalkQueries(qs[1..], scope.Keys, f).value;
    }
  }

  lemma {:induction false} CtesKept(ctes: seq<Cte>, at: seq<nat>, k: nat, scope: Scope, f: Rewriting,
                                                 before: Name -> Meaning, after: Name -> Meaning)
    requires Keeps(f, before, after) && WalkCtes(ctes, scope.Keys, f).Some?
    ensures BindCtes(WalkCtes(ctes, scope.Keys, f).value, at, k, scope, after) == BindCtes(ctes, at, k, scope, before)
    decreases ctes
  {
    hide Keeps, BindName;
    if ctes != [] {
      var cte := ctes[0];
      var next := scope[cte.name := at + [k, 0]];
      assert next.Keys == scope.Keys + {cte.name};
      EmptyScope();
      QueryKept(cte.query, at + [k, 1], scope, f, before, after);
      ExprsKept(cte.keys, at + [k, 2], map[], f, before, after);
      CtesKept(ctes[1..], at, k + 1, next, f, before, after);
      var walked := WalkCtes(ctes, scope.Keys, f).value;
      assert walked[1..] == WalkCtes(ctes[1..], next.Keys, f).value;
    }
  }

  lemma {:induction false} RefKept(t: TableRef, at: seq<nat>, scope: Scope, f: Rewriting,
                                                before: Name -> Meaning, after: Name -> Meaning)
    requires Keeps(f, before, after) && WalkRef(t, scope.Keys, f).Some?
    ensures BindRef(WalkRef(t, scope.Keys, f).value, at, scope, after) == BindRef(t, at, scope, before)
    decreases t
  {
    hide BindName;
    match t
    case BaseTable(name) => assert f(name, scope.Keys).Some?;
    case Join(left, right, exprs) =>
      RefKept(left, at + [0], scope, f, before, after);
      RefKept(right, at + [1], scope, f, before, after);
      ExprsKept(exprs, at + [2], scope, f, before, after);
    case Subquery(q) => QueryKept(q, at + [0], scope, f, before, after);
    case Pivot(source, exprs) =>
      RefKept(source, at + [0], scope, f, before, after);
      ExprsKept(exprs, at + [1], scope, f, before, after);
    case ExpressionList(exprs) => ExprsKept(exprs, at, scope, f, before, after);
    case _ =>
  }

  lemma {:induction false} ExprKept(e: Expr, at: seq<nat>, scope: Scope, f: Rewriting,
                                                 before: Name -> Meaning, after: Name -> Meaning)
    requires Keeps(f, before, after) && WalkExpr(e, scope.Keys, f).Some?
    ensures BindExpr(WalkExpr(e, scope.Keys, f).value, at, scope, after) == BindExpr(e, at, scope, before)
    decreases e
  {
    hide Keeps, BindName;
    match e
    case SubqueryExpr(q, children) =>
      QueryKept(q, at + [0], scope, f, before, after);
      ExprsKept(children, at + [1], scope, f, before, after);
    case Operator(children) => ExprsKept(children, at + [0], scope, f, before, after);
    case _ =>
  }

  lemma {:induction false} ExprsKept(es: seq<Expr>, at: seq<nat>, scope: Scope, f: Rewriting,
                                                  before: Name -> Meaning, after: Name -> Meaning)
    requires Keeps(f, before, after) && WalkExprs(es, scope.Keys, f).Some?
    ensures |WalkExprs(es, scope.Keys, f).value| == |es|
    ensures BindExprs(WalkExprs(es, scope.Keys, f).value, at, scope, after) == BindExprs(es, at, scope, before)
    decreases es
  {
    hide Keeps, BindName;
    if es != [] {
      ExprKept(es[0], at + [|es|, 0], scope, f, before, after);
      ExprsKept(es[1..], at, scope, f, before, after);
      var walked := WalkExprs(es, scope.Keys, f).value;
      assert walked[1..] == WalkExprs(es[1..], scope.Keys, f).value;
    }
  }

  // A pass that accepts every name accepts every body an earlier pass accepted.

  ghost predicate AcceptsAll(g: Rewriting) {
    forall n: Name, visible: set<string> :: g(n, visible).Some?
  }

  lemma {:induction false} QueryAccepted(q: Query, visible: set<string>, f: Rewriting, g: Rewriting)
    requires AcceptsAll(g) && WalkQuery(q, visible, f).Some?
    ensures WalkQuery(WalkQuery(q, visible, f).value, visible, g).Some?
    decreases q
  {
    hide AcceptsAll;
    CtesAccepted(q.ctes, visible, f, g);
    var inside := visible + NamesOf(q.ctes);
    match q
    case Select(_, from, exprs, modifiers) =>
      RefAccepted(from, inside, f, g);
      ExprsAccepted(exprs, inside, f, g);
      ExprsAccepted(modifiers, inside, f, g);
    case SetOperation(_, children, modifiers) =>
      QueriesAccepted(children, inside, f, g);
      ExprsAccepted(modifiers, inside, f, g);
    case RecursiveCte(_, name, left, right, keys, modifiers) =>
      QueryAccepted(left, inside, f, g);
      QueryAccepted(right, inside + {name}, f, g);
      ExprsAccepted(keys, {}, f, g);
      ExprsAccepted(modifiers, inside, f, g);
  }

  lemma {:induction false} QueriesAccepted(qs: seq<Query>, visible: set<string>, f: Rewriting, g: Rewriting)
    requires AcceptsAll(g) && WalkQueries(qs, visible, f).Some?
    ensures WalkQueries(WalkQueries(qs, visible, f).value, visible, g).Some?
    decreases qs
  {
    hide AcceptsAll;
    if qs != [] {
      QueryAccepted(qs[0], visible, f, g);
      QueriesAccepted(qs[1..], visible, f, g);
      assert WalkQueries(qs, visible, f).value[1..] == WalkQueries(qs[1..], visible, f).value;
    }
  }

  lemma {:induction false} CtesAccepted(ctes: seq<Cte>, visible: set<string>, f: Rewriting, g: Rewriting)
    requires AcceptsAll(g) && WalkCtes(ctes, visible, f).Some?
    ensures WalkCtes(WalkCtes(ctes, visible, f).value, visible, g).Some?
    ensures NamesOf(WalkCtes(ctes, visible, f).value) == NamesOf(ctes)
    decreases ctes
  {
    hide AcceptsAll;
    if ctes != [] {
      var rest := visible + {ctes[0].name};
      QueryAccepted(ctes[0].query, visible, f, g);
      ExprsAccepted(ctes[0].keys, {}, f, g);
      CtesAccepted(ctes[1..], rest, f, g);
      assert WalkCtes(ctes, visible, f).value[1..] == WalkCtes(ctes[1..], rest, f).value;
    }
  }

  lemma {:induction false} RefAccepted(t: TableRef, visible: set<string>, f: Rewriting, g: Rewriting)
    requires AcceptsAll(g) && WalkRef(t, visible, f).Some?
    ensures WalkRef(WalkRef(t, visible, f).value, visible, g).Some?
    decreases t
  {
    match t
    case BaseTable(name) => assert g(f(name, visible).value, visible).Some?;
    case Join(left, right, exprs) =>
      RefAccepted(left, visible, f, g);
      RefAccepted(right, visible, f, g);
      ExprsAccepted(exprs, visible, f, g);
    case Subquery(q) => QueryAccepted(q, visible, f, g);
    case Pivot(source, exprs) =>
      RefAccepted(source, visible, f, g);
      ExprsAccepted(exprs, visible, f, g);
    case ExpressionList(exprs) => ExprsAccepted(exprs, visible, f, g);
    case _ =>
  }

  lemma {:induction false} ExprsAccepted(es: seq<Expr>, visible: set<string>, f: Rewriting, g: Rewriting)
    requires AcceptsAll(g) && WalkExprs(es, visible, f).Some?
    ensures WalkExprs(WalkExprs(es, visible, f).value, visible, g).Some?
    decreases es
  {
    hide AcceptsAll;
    if es != [] {
      match es[0] {
        case SubqueryExpr(q, children) =>
          QueryAccepted(q, visible, f, g);
          ExprsAccepted(children, visible, f, g);
        case Operator(children) => ExprsAccepted(children, visible, f, g);
        case _ =>
      }
      ExprsAccepted(es[1..], visible, f, g);
      assert WalkExprs(es, visible, f).value[1..] == WalkExprs(es[1..], visible, f).value;
    }
  }
}
