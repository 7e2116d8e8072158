/** What a query is made of: the shapes a Glue view can store, and the tables and columns it stands on. */
module ViewShapes {
  import opened ViewWalker

  // Which bodies a pass accepts: those with nothing a Glue view can not store, and each table accepted where it stands.

  /** A table where it stands, with the CTE names in scope, or what a column reference may name a catalog by. */
  datatype Site = TableSite(name: Name, visible: set<string>) | ColumnSite(qualifiers: set<string>)

  function SitesOf(q: Query, visible: set<string>): seq<Site>
    decreases q
  {
    match q
    case OtherQuery => []
    case Select(ctes, from, exprs, modifiers) =>
      var inside := visible + NamesOf(ctes);
      CteSites(ctes, visible) + RefSites(from, inside) + ExprSites(exprs, inside) + ExprSites(modifiers, inside)
    case SetOperation(ctes, children, modifiers) =>
      var inside := visible + NamesOf(ctes);
      CteSites(ctes, visible) + QuerySites(children, inside) + ExprSites(modifiers, inside)
    case RecursiveCte(ctes, name, left, right, keys, modifiers) =>
      var inside := visible + NamesOf(ctes);
      CteSites(ctes, visible) + SitesOf(left, inside) + SitesOf(right, inside + {name}) + ExprSites(keys, {}) +
      ExprSites(modifiers, inside)
  }

  function QuerySites(qs: seq<Query>, visible: set<string>): seq<Site>
    decreases qs
  {
    if qs == [] then [] else SitesOf(qs[0], visible) + QuerySites(qs[1..], visible)
  }

  function CteSites(ctes: seq<Cte>, visible: set<string>): seq<Site>
    decreases ctes
  {
    if ctes == [] then []
    else SitesOf(ctes[0].query, visible) + ExprSites(ctes[0].keys, {}) + CteSites(ctes[1..], visible + {ctes[0].name})
  }

  function RefSites(t: TableRef, visible: set<string>): seq<Site>
    decreases t
  {
    match t
    case BaseTable(name) => [TableSite(name, visible)]
    case Join(left, right, exprs) => RefSites(left, visible) + RefSites(right, visible) + ExprSites(exprs, visible)
    case Subquery(q) => SitesOf(q, visible)
    case Pivot(source, exprs) => RefSites(source, visible) + ExprSites(exprs, visible)
    case ExpressionList(exprs) => ExprSites(exprs, visible)
    case _ => []
  }

  function ExprSites(es: seq<Expr>, visible: set<string>): seq<Site>
    decreases es
  {
    if es == [] then []
    else
      (match es[0]
       case SubqueryExpr(q, children) => SitesOf(q, visible) + ExprSites(children, visible)
       case Operator(children) => ExprSites(children, visible)
       case ColumnRef(names) => if |names| > 1 then [ColumnSite({names[0]})] else []
       case Star(qualifiers) => [ColumnSite(set c | c in qualifiers)]) + ExprSites(es[1..], visible)
  }

  predicate Accepted(sites: seq<Site>, f: Rewriting) {
    forall k | 0 <= k < |sites| && sites[k].TableSite? :: f(sites[k].name, sites[k].visible).Some?
  }

  lemma AcceptedBoth(a: seq<Site>, b: seq<Site>, f: Rewriting)
    ensures Accepted(a + b, f) <==> Accepted(a, f) && Accepted(b, f)
  {
    var both := a + b;
    assert forall k | 0 <= k < |a| :: both[k] == a[k];
    assert forall k | 0 <= k < |b| :: both[|a| + k] == b[k];
  }

  // The shapes a Glue view can store.

  /** What is asked of the queries, the FROM clauses and the expressions of a body, one by one. */
  datatype Asked = Asked(ofQuery: Query -> bool, ofRef: TableRef -> bool, ofExpr: Expr -> bool)

  /** Holds of everything in a query: in its CTEs and their keys, in joins, pivots, set operations and subqueries. */
  predicate Everywhere(q: Query, asked: Asked)
    decreases q
  {
    asked.ofQuery(q) &&
    match q
    case OtherQuery => true
    case Select(ctes, from, exprs, modifiers) =>
      && (forall c | c in ctes :: EverywhereInCte(c, asked)) && EverywhereInRef(from, asked)
      && (forall e | e in exprs :: EverywhereInExpr(e, asked)) && (forall e | e in modifiers :: EverywhereInExpr(e, asked))
    case SetOperation(ctes, children, modifiers) =>
      && (forall c | c in ctes :: EverywhereInCte(c, asked)) && (forall child | child in children :: Everywhere(child, asked))
      && (forall e | e in modifiers :: EverywhereInExpr(e, asked))
    case RecursiveCte(ctes, _, left, right, keys, modifiers) =>
      && (forall c | c in ctes :: EverywhereInCte(c, asked)) && Everywhere(left, asked) && Everywhere(right, asked)
      && (forall e | e in keys :: EverywhereInExpr(e, asked)) && (forall e | e in modifiers :: EverywhereInExpr(e, asked))
  }

  predicate EverywhereInCte(c: Cte, asked: Asked)
    decreases c
  {
    Everywhere(c.query, asked) && forall e | e in c.keys :: EverywhereInExpr(e, asked)
  }

  predicate EverywhereInRef(t: TableRef, asked: Asked)
    decreases t
  {
    asked.ofRef(t) &&
    match t
    case Join(left, right, exprs) =>
      EverywhereInRef(left, asked) && EverywhereInRef(right, asked) && forall e | e in exprs :: EverywhereInExpr(e, asked)
    case Subquery(q) => Everywhere(q, asked)
    case Pivot(source, exprs) => EverywhereInRef(source, asked) && forall e | e in exprs :: EverywhereInExpr(e, asked)
    case ExpressionList(exprs) => forall e | e in exprs :: EverywhereInExpr(e, asked)
    case _ => true
  }

  predicate EverywhereInExpr(e: Expr, asked: Asked)
    decreases e
  {
    asked.ofExpr(e) &&
    match e
    case SubqueryExpr(q, children) => Everywhere(q, asked) && forall c | c in children :: EverywhereInExpr(c, asked)
    case Operator(children) => forall c | c in children :: EverywhereInExpr(c, asked)
    case _ => true
  }

  /** No query but SELECT, set operations and recursive CTEs, and no table function or other source in a FROM. */
  function Storable(): Asked {
    Asked((q: Query) => !q.OtherQuery?, (t: TableRef) => !t.TableFunction? && !t.OtherRef?, (e: Expr) => true)
  }

  // Sequences one element at a time.

  lemma EveryQuery(qs: seq<Query>, asked: Asked)
    requires qs != []
    ensures (forall q | q in qs :: Everywhere(q, asked)) <==>
            Everywhere(qs[0], asked) && forall q | q in qs[1..] :: Everywhere(q, asked)
  {
    hide Everywhere;
    assert qs == [qs[0]] + qs[1..];
  }

  lemma EveryCte(ctes: seq<Cte>, asked: Asked)
    requires ctes != []
    ensures (forall c | c in ctes :: EverywhereInCte(c, asked)) <==>
            EverywhereInCte(ctes[0], asked) && forall c | c in ctes[1..] :: EverywhereInCte(c, asked)
  {
    hide EverywhereInCte;
    assert ctes == [ctes[0]] + ctes[1..];
  }

  lemma EveryExpr(es: seq<Expr>, asked: Asked)
    requires es != []
    ensures (forall e | e in es :: EverywhereInExpr(e, asked)) <==>
            EverywhereInExpr(es[0], asked) && forall e | e in es[1..] :: EverywhereInExpr(e, asked)
  {
    hide EverywhereInExpr;
    assert es == [es[0]] + es[1..];
  }

  lemma {:induction false} QueryDecided(q: Query, visible: set<string>, f: Rewriting)
    ensures WalkQuery(q, visible, f).Some? <==> Everywhere(q, Storable()) && Accepted(SitesOf(q, visible), f)
    decreases q
  {
    hide Accepted;
    if !q.OtherQuery? {
      var inside := visible + NamesOf(q.ctes);
      var c := CteSites(q.ctes, visible);
      CtesDecided(q.ctes, visible, f);
      ExprsDecided(q.modifiers, inside, f);
      match q
      case Select(_, from, exprs, modifiers) =>
        RefDecided(from, inside, f);
        ExprsDecided(exprs, inside, f);
        AcceptedBoth(c, RefSites(from, inside), f);
        AcceptedBoth(c + RefSites(from, inside), ExprSites(exprs, inside), f);
        AcceptedBoth(c + RefSites(from, inside) + ExprSites(exprs, inside), ExprSites(modifiers, inside), f);
      case SetOperation(_, children, modifiers) =>
        QueriesDecided(children, inside, f);
        AcceptedBoth(c, QuerySites(children, inside), f);
        AcceptedBoth(c + QuerySites(children, inside), ExprSites(modifiers, inside), f);
      case RecursiveCte(_, name, left, right, keys, modifiers) =>
        QueryDecided(left, inside, f);
        QueryDecided(right, inside + {name}, f);
        ExprsDecided(keys, {}, f);
        var l, r := SitesOf(left, inside), SitesOf(right, inside + {name});
        AcceptedBoth(c, l, f);
        AcceptedBoth(c + l, r, f);
        AcceptedBoth(c + l + r, ExprSites(keys, {}), f);
        AcceptedBoth(c + l + r + ExprSites(keys, {}), ExprSites(modifiers, inside), f);
    }
  }

  lemma {:induction false} QueriesDecided(qs: seq<Query>, visible: set<string>, f: Rewriting)
    ensures WalkQueries(qs, visible, f).Some? <==>
            (forall q | q in qs :: Everywhere(q, Storable())) && Accepted(QuerySites(qs, visible), f)
    decreases qs
  {
    if qs != [] {
      QueryDecided(qs[0], visible, f);
      QueriesDecided(qs[1..], visible, f);
      EveryQuery(qs, Storable());
      AcceptedBoth(SitesOf(qs[0], visible), QuerySites(qs[1..], visible), f);
    }
  }

  lemma {:induction false} CtesDecided(ctes: seq<Cte>, visible: set<string>, f: Rewriting)
    ensures WalkCtes(ctes, visible, f).Some? <==>
            (forall c | c in ctes :: EverywhereInCte(c, Storable())) && Accepted(CteSites(ctes, visible), f)
    decreases ctes
  {
    if ctes != [] {
      var a, b := SitesOf(ctes[0].query, visible), ExprSites(ctes[0].keys, {});
      QueryDecided(ctes[0].query, visible, f);
      ExprsDecided(ctes[0].keys, {}, f);
      CtesDecided(ctes[1..], visible + {ctes[0].name}, f);
      EveryCte(ctes, Storable());
      AcceptedBoth(a, b, f);
      AcceptedBoth(a + b, CteSites(ctes[1..], visible + {ctes[0].name}), f);
    }
  }

  lemma {:induction false} RefDecided(t: TableRef, visible: set<string>, f: Rewriting)
    ensures WalkRef(t, visible, f).Some? <==> EverywhereInRef(t, Storable()) && Accepted(RefSites(t, visible), f)
    decreases t
  {
    match t
    case BaseTable(name) =>
      var site := [TableSite(name, visible)];
      assert Accepted(site, f) <==> f(site[0].name, visible).Some?;
    case Join(left, right, exprs) =>
      RefDecided(left, visible, f);
      RefDecided(right, visible, f);
      ExprsDecided(exprs, visible, f);
      AcceptedBoth(RefSites(left, visible), RefSites(right, visible), f);
      AcceptedBoth(RefSites(left, visible) + RefSites(right, visible), ExprSites(exprs, visible), f);
    case Subquery(q) => QueryDecided(q, visible, f);
    case Pivot(source, exprs) =>
      RefDecided(source, visible, f);
      ExprsDecided(exprs, visible, f);
      AcceptedBoth(RefSites(source, visible), ExprSites(exprs, visible), f);
    case ExpressionList(exprs) => ExprsDecided(exprs, visible, f);
    case _ =>
  }

  lemma {:induction false} ExprsDecided(es: seq<Expr>, visible: set<string>, f: Rewriting)
    ensures WalkExprs(es, visible, f).Some? <==>
            (forall e | e in es :: EverywhereInExpr(e, Storable())) && Accepted(ExprSites(es, visible), f)
    decreases es
  {
    if es != [] {
      ExprsDecided(es[1..], visible, f);
      EveryExpr(es, Storable());
      var rest := ExprSites(es[1..], visible);
      match es[0]
      case SubqueryExpr(q, children) =>
        QueryDecided(q, visible, f);
        ExprsDecided(children, visible, f);
        AcceptedBoth(SitesOf(q, visible), ExprSites(children, visible), f);
        AcceptedBoth(SitesOf(q, visible) + ExprSites(children, visible), rest, f);
      case Operator(children) =>
        ExprsDecided(children, visible, f);
        AcceptedBoth(ExprSites(children, visible), rest, f);
      case ColumnRef(names) => AcceptedBoth(if |names| > 1 then [ColumnSite({names[0]})] else [], rest, f);
      case Star(qualifiers) => AcceptedBoth([ColumnSite(set c | c in qualifiers)], rest, f);
    }
  }

  // The tables and columns a body stands on, wherever they stand.

  predicate All(sites: seq<Site>, p: Site -> bool) {
    forall k | 0 <= k < |sites| :: p(sites[k])
  }

  lemma AllBoth(a: seq<Site>, b: seq<Site>, p: Site -> bool)
    ensures All(a + b, p) <==> All(a, p) && All(b, p)
  {
    var both := a + b;
    assert forall k | 0 <= k < |a| :: both[k] == a[k];
    assert forall k | 0 <= k < |b| :: both[|a| + k] == b[k];
  }

  /** The question about sites is one about the tables and the columns of the body, not about the names in scope. */
  ghost predicate AsksOfSites(asked: Asked, p: Site -> bool) {
    && (forall q: Query :: asked.ofQuery(q))
    && (forall t: TableRef :: !t.BaseTable? ==> asked.ofRef(t))
    && (forall n: Name, visible: set<string> :: p(TableSite(n, visible)) <==> asked.ofRef(BaseTable(n)))
    && (forall names: seq<string> ::
          asked.ofExpr(ColumnRef(names)) <==> (|names| > 1 ==> p(ColumnSite({names[0]}))))
    && (forall qualifiers: seq<string> ::
          asked.ofExpr(Star(qualifiers)) <==> p(ColumnSite(set c | c in qualifiers)))
    && (forall e: Expr :: e.SubqueryExpr? || e.Operator? ==> asked.ofExpr(e))
  }

  lemma {:induction false} SitesAreEverywhere(q: Query, visible: set<string>, asked: Asked, p: Site -> bool)
    requires AsksOfSites(asked, p)
    ensures All(SitesOf(q, visible), p) <==> Everywhere(q, asked)
    decreases q
  {
    assert asked.ofQuery(q);
    if !q.OtherQuery? {
      hide All, AsksOfSites;
      var inside := visible + NamesOf(q.ctes);
      var c := CteSites(q.ctes, visible);
      CteSitesAreEverywhere(q.ctes, visible, asked, p);
      ExprSitesAreEverywhere(q.modifiers, inside, asked, p);
      match q
      case Select(_, from, exprs, modifiers) =>
        RefSitesAreEverywhere(from, inside, asked, p);
        ExprSitesAreEverywhere(exprs, inside, asked, p);
        AllBoth(c, RefSites(from, inside), p);
        AllBoth(c + RefSites(from, inside), ExprSites(exprs, inside), p);
        AllBoth(c + RefSites(from, inside) + ExprSites(exprs, inside), ExprSites(modifiers, inside), p);
      case SetOperation(_, children, modifiers) =>
        QuerySitesAreEverywhere(children, inside, asked, p);
        AllBoth(c, QuerySites(children, inside), p);
        AllBoth(c + QuerySites(children, inside), ExprSites(modifiers, inside), p);
      case RecursiveCte(_, name, left, right, keys, modifiers) =>
        SitesAreEverywhere(left, inside, asked, p);
        SitesAreEverywhere(right, inside + {name}, asked, p);
        ExprSitesAreEverywhere(keys, {}, asked, p);
        var l, r := SitesOf(left, inside), SitesOf(right, inside + {name});
        AllBoth(c, l, p);
        AllBoth(c + l, r, p);
        AllBoth(c + l + r, ExprSites(keys, {}), p);
        AllBoth(c + l + r + ExprSites(keys, {}), ExprSites(modifiers, inside), p);
    }
  }

  lemma {:induction false} QuerySitesAreEverywhere(qs: seq<Query>, visible: set<string>, asked: Asked, p: Site -> bool)
    requires AsksOfSites(asked, p)
    ensures All(QuerySites(qs, visible), p) <==> forall q | q in qs :: Everywhere(q, asked)
    decreases qs
  {
    hide AsksOfSites;
    if qs != [] {
      SitesAreEverywhere(qs[0], visible, asked, p);
      QuerySitesAreEverywhere(qs[1..], visible, asked, p);
      EveryQuery(qs, asked);
      AllBoth(SitesOf(qs[0], visible), QuerySites(qs[1..], visible), p);
    }
  }

  lemma {:induction false} CteSitesAreEverywhere(ctes: seq<Cte>, visible: set<string>, asked: Asked, p: Site -> bool)
    requires AsksOfSites(asked, p)
    ensures All(CteSites(ctes, visible), p) <==> forall c | c in ctes :: EverywhereInCte(c, asked)
    decreases ctes
  {
    hide AsksOfSites;
    if ctes != [] {
      var a, b := SitesOf(ctes[0].query, visible), ExprSites(ctes[0].keys, {});
      SitesAreEverywhere(ctes[0].query, visible, asked, p);
      ExprSitesAreEverywhere(ctes[0].keys, {}, asked, p);
      CteSitesAreEverywhere(ctes[1..], visible + {ctes[0].name}, asked, p);
      EveryCte(ctes, asked);
      AllBoth(a, b, p);
      AllBoth(a + b, CteSites(ctes[1..], visible + {ctes[0].name}), p);
    }
  }

  lemma {:induction false} RefSitesAreEverywhere(t: TableRef, visible: set<string>, asked: Asked, p: Site -> bool)
    requires AsksOfSites(asked, p)
    ensures All(RefSites(t, visible), p) <==> EverywhereInRef(t, asked)
    decreases t
  {
    match t
    case BaseTable(name) =>
      var site := [TableSite(name, visible)];
      assert All(site, p) <==> p(site[0]);
    case Join(left, right, exprs) =>
      RefSitesAreEverywhere(left, visible, asked, p);
      RefSitesAreEverywhere(right, visible, asked, p);
      ExprSitesAreEverywhere(exprs, visible, asked, p);
      AllBoth(RefSites(left, visible), RefSites(right, visible), p);
      AllBoth(RefSites(left, visible) + RefSites(right, visible), ExprSites(exprs, visible), p);
    case Subquery(q) => SitesAreEverywhere(q, visible, asked, p);
    case Pivot(source, exprs) =>
      RefSitesAreEverywhere(source, visible, asked, p);
      ExprSitesAreEverywhere(exprs, visible, asked, p);
      AllBoth(RefSites(source, visible), ExprSites(exprs, visible), p);
    case ExpressionList(exprs) => ExprSitesAreEverywhere(exprs, visible, asked, p);
    case _ =>
  }

  lemma {:induction false} ExprSitesAreEverywhere(es: seq<Expr>, visible: set<string>, asked: Asked, p: Site -> bool)
    requires AsksOfSites(asked, p)
    ensures All(ExprSites(es, visible), p) <==> forall e | e in es :: EverywhereInExpr(e, asked)
    decreases es
  {
    if es != [] {
      ExprSitesAreEverywhere(es[1..], visible, asked, p);
      EveryExpr(es, asked);
      var rest := ExprSites(es[1..], visible);
      match es[0]
      case SubqueryExpr(q, children) =>
        SitesAreEverywhere(q, visible, asked, p);
        ExprSitesAreEverywhere(children, visible, asked, p);
        AllBoth(SitesOf(q, visible), ExprSites(children, visible), p);
        AllBoth(SitesOf(q, visible) + ExprSites(children, visible), rest, p);
      case Operator(children) =>
        ExprSitesAreEverywhere(children, visible, asked, p);
        AllBoth(ExprSites(children, visible), rest, p);
      case ColumnRef(names) =>
        var site := if |names| > 1 then [ColumnSite({names[0]})] else [];
        assert All(site, p) <==> (|names| > 1 ==> p(site[0]));
        AllBoth(site, rest, p);
      case Star(qualifiers) =>
        var site := [ColumnSite(set c | c in qualifiers)];
        assert All(site, p) <==> p(site[0]);
        AllBoth(site, rest, p);
    }
  }

  // What a body means is what each of its tables means where it stands, each counted once and in order.

  function TableSites(sites: seq<Site>): seq<Site> {
    if sites == [] then [] else (if sites[0].TableSite? then [sites[0]] else []) + TableSites(sites[1..])
  }

  /** A CTE name in scope means a CTE, and any other name what the catalogs make of it. */
  predicate MeantAt(m: Meaning, site: Site, tables: Name -> Meaning)
    requires site.TableSite?
  {
    if site.name.Bare? && site.name.table in site.visible then m.CteOf? else m == tables(site.name)
  }

  predicate MeantInOrder(meanings: seq<Meaning>, sites: seq<Site>, tables: Name -> Meaning) {
    var at := TableSites(sites);
    |meanings| == |at| && forall k | 0 <= k < |at| :: at[k].TableSite? && MeantAt(meanings[k], at[k], tables)
  }

  lemma {:induction false} TableSitesBoth(a: seq<Site>, b: seq<Site>)
    ensures TableSites(a + b) == TableSites(a) + TableSites(b)
  {
    if a == [] {
      assert a + b == b;
    } else {
      TableSitesBoth(a[1..], b);
      assert (a + b)[1..] == a[1..] + b;
    }
  }

  lemma MeantBoth(m: seq<Meaning>, a: seq<Site>, n: seq<Meaning>, b: seq<Site>, tables: Name -> Meaning)
    requires MeantInOrder(m, a, tables) && MeantInOrder(n, b, tables)
    ensures MeantInOrder(m + n, a + b, tables)
  {
    TableSitesBoth(a, b);
  }

  lemma {:induction false} QueryMeant(q: Query, at: seq<nat>, scope: Scope, tables: Name -> Meaning)
    ensures MeantInOrder(BindQuery(q, at, scope, tables), SitesOf(q, scope.Keys), tables)
    decreases q
  {
    if !q.OtherQuery? {
      hide MeantInOrder, Declare;
      var inside := Declare(q.ctes, at + [0], 0, scope);
      DeclaredNames(q.ctes, at + [0], 0, scope);
      var c, cs := BindCtes(q.ctes, at + [0], 0, scope, tables), CteSites(q.ctes, scope.Keys);
      CtesMeant(q.ctes, at + [0], 0, scope, tables);
      EmptyScope();
      match q
      case Select(ctes, from, exprs, modifiers) =>
        RefMeant(from, at + [1], inside, tables);
        ExprsMeant(exprs, at + [2], inside, tables);
        ExprsMeant(modifiers, at + [3], inside, tables);
        var t, ts := BindRef(from, at + [1], inside, tables), RefSites(from, inside.Keys);
        var e, es := BindExprs(exprs, at + [2], inside, tables), ExprSites(exprs, inside.Keys);
        MeantBoth(c, cs, t, ts, tables);
        MeantBoth(c + t, cs + ts, e, es, tables);
        MeantBoth(c + t + e, cs + ts + es, BindExprs(modifiers, at + [3], inside, tables), ExprSites(modifiers, inside.Keys), tables);
      case SetOperation(ctes, children, modifiers) =>
        QueriesMeant(children, at + [1], inside, tables);
        ExprsMeant(modifiers, at + [2], inside, tables);
        var b, bs := BindQueries(children, at + [1], inside, tables), QuerySites(children, inside.Keys);
        MeantBoth(c, cs, b, bs, tables);
        MeantBoth(c + b, cs + bs, BindExprs(modifiers, at + [2], inside, tables), ExprSites(modifiers, inside.Keys), tables);
      case RecursiveCte(ctes, name, left, right, keys, modifiers) =>
        var there := inside[name := at + [5]];
        assert there.Keys == inside.Keys + {name};
        QueryMeant(left, at + [1], inside, tables);
        QueryMeant(right, at + [2], there, tables);
        ExprsMeant(keys, at + [3], map[], tables);
        ExprsMeant(modifiers, at + [4], inside, tables);
        var l, ls := BindQuery(left, at + [1], inside, tables), SitesOf(left, inside.Keys);
        var r, rs := BindQuery(right, at + [2], there, tables), SitesOf(right, there.Keys);
        var k, ks := BindExprs(keys, at + [3], map[], tables), ExprSites(keys, {});
        MeantBoth(c, cs, l, ls, tables);
        MeantBoth(c + l, cs + ls, r, rs, tables);
        MeantBoth(c + l + r, cs + ls + rs, k, ks, tables);
        MeantBoth(c + l + r + k, cs + ls + rs + ks, BindExprs(modifiers, at + [4], inside, tables),
                  ExprSites(modifiers, inside.Keys), tables);
    }
  }

  lemma {:induction false} QueriesMeant(qs: seq<Query>, at: seq<nat>, scope: Scope, tables: Name -> Meaning)
    ensures MeantInOrder(BindQueries(qs, at, scope, tables), QuerySites(qs, scope.Keys), tables)
    decreases qs
  {
    if qs != [] {
      var here := at + [|qs|, 0];
      QueryMeant(qs[0], here, scope, tables);
      QueriesMeant(qs[1..], at, scope, tables);
      MeantBoth(BindQuery(qs[0], here, scope, tables), SitesOf(qs[0], scope.Keys),
                BindQueries(qs[1..], at, scope, tables), QuerySites(qs[1..], scope.Keys), tables);
    }
  }

  lemma {:induction false} CtesMeant(ctes: seq<Cte>, at: seq<nat>, k: nat, scope: Scope, tables: Name -> Meaning)
    ensures MeantInOrder(BindCtes(ctes, at, k, scope, tables), CteSites(ctes, scope.Keys), tables)
    decreases ctes
  {
    if ctes != [] {
      var cte := ctes[0];
      var next := scope[cte.name := at + [k, 0]];
      assert next.Keys == scope.Keys + {cte.name};
      EmptyScope();
      QueryMeant(cte.query, at + [k, 1], scope, tables);
      ExprsMeant(cte.keys, at + [k, 2], map[], tables);
      CtesMeant(ctes[1..], at, k + 1, next, tables);
      var q, qs := BindQuery(cte.query, at + [k, 1], scope, tables), SitesOf(cte.query, scope.Keys);
      var e, es := BindExprs(cte.keys, at + [k, 2], map[], tables), ExprSites(cte.keys, {});
      MeantBoth(q, qs, e, es, tables);
      MeantBoth(q + e, qs + es, BindCtes(ctes[1..], at, k + 1, next, tables), CteSites(ctes[1..], next.Keys), tables);
    }
  }

  lemma {:induction false} RefMeant(t: TableRef, at: seq<nat>, scope: Scope, tables: Name -> Meaning)
    ensures MeantInOrder(BindRef(t, at, scope, tables), RefSites(t, scope.Keys), tables)
    decreases t
  {
    match t
    case BaseTable(name) => assert TableSites(RefSites(t, scope.Keys)) == [TableSite(name, scope.Keys)];
    case Join(left, right, exprs) =>
      RefMeant(left, at + [0], scope, tables);
      RefMeant(right, at + [1], scope, tables);
      ExprsMeant(exprs, at + [2], scope, tables);
      var l, ls := BindRef(left, at + [0], scope, tables), RefSites(left, scope.Keys);
      var r, rs := BindRef(right, at + [1], scope, tables), RefSites(right, scope.Keys);
      MeantBoth(l, ls, r, rs, tables);
      MeantBoth(l + r, ls + rs, BindExprs(exprs, at + [2], scope, tables), ExprSites(exprs, scope.Keys), tables);
    case Subquery(q) => QueryMeant(q, at + [0], scope, tables);
    case Pivot(source, exprs) =>
      RefMeant(source, at + [0], scope, tables);
      ExprsMeant(exprs, at + [1], scope, tables);
      MeantBoth(BindRef(source, at + [0], scope, tables), RefSites(source, scope.Keys),
                BindExprs(exprs, at + [1], scope, tables), ExprSites(exprs, scope.Keys), tables);
    case ExpressionList(exprs) => ExprsMeant(exprs, at, scope, tables);
    case _ =>
  }

  lemma {:induction false} ExprsMeant(es: seq<Expr>, at: seq<nat>, scope: Scope, tables: Name -> Meaning)
    ensures MeantInOrder(BindExprs(es, at, scope, tables), ExprSites(es, scope.Keys), tables)
    decreases es
  {
    if es != [] {
      var here := at + [|es|, 0];
      ExprsMeant(es[1..], at, scope, tables);
      var rest, sites := BindExprs(es[1..], at, scope, tables), ExprSites(es[1..], scope.Keys);
      match es[0]
      case SubqueryExpr(q, children) =>
        QueryMeant(q, here + [0], scope, tables);
        ExprsMeant(children, here + [1], scope, tables);
        var b, bs := BindQuery(q, here + [0], scope, tables), SitesOf(q, scope.Keys);
        var c, cs := BindExprs(children, here + [1], scope, tables), ExprSites(children, scope.Keys);
        MeantBoth(b, bs, c, cs, tables);
        MeantBoth(b + c, bs + cs, rest, sites, tables);
      case Operator(children) =>
        ExprsMeant(children, here + [0], scope, tables);
        MeantBoth(BindExprs(children, here + [0], scope, tables), ExprSites(children, scope.Keys), rest, sites, tables);
      case ColumnRef(names) =>
        var site := if |names| > 1 then [ColumnSite({names[0]})] else [];
        assert MeantInOrder([], site, tables);
        MeantBoth([], site, rest, sites, tables);
      case Star(qualifiers) =>
        var site := [ColumnSite(set c | c in qualifiers)];
        assert MeantInOrder([], site, tables);
        MeantBoth([], site, rest, sites, tables);
    }
  }
}
