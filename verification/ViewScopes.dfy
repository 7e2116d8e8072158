/** Where the CTEs of a query are declared: every declaration has a place of its own, and every CTE reference means one. */
module ViewScopes {
  import opened Outcomes
  import opened ViewWalker

  // The places, one for each declaration.

  function QueryPlaces(q: Query, at: seq<nat>): seq<seq<nat>>
    decreases q
  {
    match q
    case OtherQuery => []
    case Select(ctes, from, exprs, modifiers) =>
      CtePlaces(ctes, at + [0], 0) + RefPlaces(from, at + [1]) + ExprPlaces(exprs, at + [2]) + ExprPlaces(modifiers, at + [3])
    case SetOperation(ctes, children, modifiers) =>
      CtePlaces(ctes, at + [0], 0) + QueriesPlaces(children, at + [1]) + ExprPlaces(modifiers, at + [2])
    case RecursiveCte(ctes, name, left, right, keys, modifiers) =>
      CtePlaces(ctes, at + [0], 0) + QueryPlaces(left, at + [1]) + QueryPlaces(right, at + [2]) + ExprPlaces(keys, at + [3]) +
      ExprPlaces(modifiers, at + [4]) + [at + [5]]
  }

  function CtePlaces(ctes: seq<Cte>, at: seq<nat>, k: nat): seq<seq<nat>>
    decreases ctes
  {
    if ctes == [] then [] else OneCtePlaces(ctes[0], at, k) + CtePlaces(ctes[1..], at, k + 1)
  }

  function OneCtePlaces(cte: Cte, at: seq<nat>, k: nat): seq<seq<nat>>
    decreases cte
  {
    [at + [k, 0]] + QueryPlaces(cte.query, at + [k, 1]) + ExprPlaces(cte.keys, at + [k, 2])
  }

  function QueriesPlaces(qs: seq<Query>, at: seq<nat>): seq<seq<nat>>
    decreases qs
  {
    if qs == [] then [] else QueryPlaces(qs[0], at + [|qs|, 0]) + QueriesPlaces(qs[1..], at)
  }

  function RefPlaces(t: TableRef, at: seq<nat>): seq<seq<nat>>
    decreases t
  {
    match t
    case Join(left, right, exprs) => RefPlaces(left, at + [0]) + RefPlaces(right, at + [1]) + ExprPlaces(exprs, at + [2])
    case Subquery(q) => QueryPlaces(q, at + [0])
    case Pivot(source, exprs) => RefPlaces(source, at + [0]) + ExprPlaces(exprs, at + [1])
    case ExpressionList(exprs) => ExprPlaces(exprs, at)
    case _ => []
  }

  function ExprPlaces(es: seq<Expr>, at: seq<nat>): seq<seq<nat>>
    decreases es
  {
    if es == [] then [] else OneExprPlaces(es[0], at + [|es|, 0]) + ExprPlaces(es[1..], at)
  }

  function OneExprPlaces(e: Expr, at: seq<nat>): seq<seq<nat>>
    decreases e
  {
    match e
    case SubqueryExpr(q, children) => QueryPlaces(q, at + [0]) + ExprPlaces(children, at + [1])
    case Operator(children) => ExprPlaces(children, at + [0])
    case _ => []
  }

  // No two are the same.

  predicate Distinct(places: seq<seq<nat>>) {
    forall i, j | 0 <= i < j < |places| :: places[i] != places[j]
  }

  predicate Tagged(d: seq<nat>, at: seq<nat>, low: nat, high: nat) {
    |at| < |d| && d[..|at|] == at && low <= d[|at|] < high
  }

  /** Different places, all below the given one, on branches from low up to high. */
  predicate Apart(places: seq<seq<nat>>, at: seq<nat>, low: nat, high: nat) {
    Distinct(places) && forall i | 0 <= i < |places| :: Tagged(places[i], at, low, high)
  }

  lemma NoPlaces(at: seq<nat>, low: nat, high: nat)
    ensures Apart([], at, low, high)
  {
  }

  lemma Joined(a: seq<seq<nat>>, b: seq<seq<nat>>, at: seq<nat>, low: nat, middle: nat, high: nat)
    requires low <= middle <= high
    requires (Apart(a, at, low, middle) && Apart(b, at, middle, high)) || (Apart(a, at, middle, high) && Apart(b, at, low, middle))
    ensures Apart(a + b, at, low, high)
  {
    var all := a + b;
    forall i, j | 0 <= i < j < |all|
      ensures all[i] != all[j]
    {
      if i < |a| <= j {
        assert all[j] == b[j - |a|];
      }
    }
  }

  /** Places below a branch are on that branch. */
  lemma OnBranch(places: seq<seq<nat>>, at: seq<nat>, branch: nat, low: nat, high: nat)
    requires Apart(places, at + [branch], low, high)
    ensures Apart(places, at, branch, branch + 1)
  {
    forall i | 0 <= i < |places|
      ensures Tagged(places[i], at, branch, branch + 1)
    {
      assert Tagged(places[i], at + [branch], low, high);
      var front := places[i][..|at| + 1];
      assert front[..|at|] == places[i][..|at|] && (at + [branch])[..|at|] == at && front[|at|] == branch;
    }
  }

  lemma Wider(places: seq<seq<nat>>, at: seq<nat>, low: nat, high: nat, wider: nat)
    requires Apart(places, at, low, high) && high <= wider
    ensures Apart(places, at, 0, wider)
  {
    forall i | 0 <= i < |places|
      ensures Tagged(places[i], at, 0, wider)
    {
      assert Tagged(places[i], at, low, high);
    }
  }

  lemma {:induction false} QueryApart(q: Query, at: seq<nat>)
    ensures Apart(QueryPlaces(q, at), at, 0, 6)
    decreases q
  {
    hide Apart, CtePlaces, RefPlaces, ExprPlaces, QueriesPlaces;
    match q
    case OtherQuery => NoPlaces(at, 0, 6);
    case Select(ctes, from, exprs, modifiers) =>
      CtesApart(ctes, at + [0], 0);
      OnBranch(CtePlaces(ctes, at + [0], 0), at, 0, 0, |ctes|);
      var n := RefApart(from, at + [1]);
      OnBranch(RefPlaces(from, at + [1]), at, 1, 0, n);
      Joined(CtePlaces(ctes, at + [0], 0), RefPlaces(from, at + [1]), at, 0, 1, 2);
      ExprsOn(exprs, at, 2);
      ExprsOn(modifiers, at, 3);
      var both := CtePlaces(ctes, at + [0], 0) + RefPlaces(from, at + [1]);
      Joined(both, ExprPlaces(exprs, at + [2]), at, 0, 2, 3);
      Joined(both + ExprPlaces(exprs, at + [2]), ExprPlaces(modifiers, at + [3]), at, 0, 3, 4);
      Wider(QueryPlaces(q, at), at, 0, 4, 6);
    case SetOperation(ctes, children, modifiers) =>
      CtesApart(ctes, at + [0], 0);
      OnBranch(CtePlaces(ctes, at + [0], 0), at, 0, 0, |ctes|);
      QueriesApart(children, at + [1]);
      OnBranch(QueriesPlaces(children, at + [1]), at, 1, 0, |children| + 1);
      Joined(CtePlaces(ctes, at + [0], 0), QueriesPlaces(children, at + [1]), at, 0, 1, 2);
      ExprsOn(modifiers, at, 2);
      Joined(CtePlaces(ctes, at + [0], 0) + QueriesPlaces(children, at + [1]), ExprPlaces(modifiers, at + [2]), at, 0, 2, 3);
      Wider(QueryPlaces(q, at), at, 0, 3, 6);
    case RecursiveCte(ctes, name, left, right, keys, modifiers) =>
      RecursiveApart(q, at);
  }

  lemma {:induction false} RecursiveApart(q: Query, at: seq<nat>)
    requires q.RecursiveCte?
    ensures Apart(QueryPlaces(q, at), at, 0, 6)
    decreases q, 0
  {
    hide Apart, CtePlaces, ExprPlaces;
    var c := CtePlaces(q.ctes, at + [0], 0);
    CtesApart(q.ctes, at + [0], 0);
    OnBranch(c, at, 0, 0, |q.ctes|);
    var l, r := QueryPlaces(q.left, at + [1]), QueryPlaces(q.right, at + [2]);
    QueryApart(q.left, at + [1]);
    OnBranch(l, at, 1, 0, 6);
    QueryApart(q.right, at + [2]);
    OnBranch(r, at, 2, 0, 6);
    var k, m := ExprPlaces(q.keys, at + [3]), ExprPlaces(q.modifiers, at + [4]);
    ExprsOn(q.keys, at, 3);
    ExprsOn(q.modifiers, at, 4);
    Joined(c, l, at, 0, 1, 2);
    Joined(c + l, r, at, 0, 2, 3);
    Joined(c + l + r, k, at, 0, 3, 4);
    Joined(c + l + r + k, m, at, 0, 4, 5);
    OnePlace(at, 5);
    Joined(c + l + r + k + m, [at + [5]], at, 0, 5, 6);
  }

  lemma OnePlace(at: seq<nat>, branch: nat)
    ensures Apart([at + [branch]], at, branch, branch + 1)
  {
  }

  lemma {:induction false} ExprsOn(es: seq<Expr>, at: seq<nat>, branch: nat)
    ensures Apart(ExprPlaces(es, at + [branch]), at, branch, branch + 1)
    decreases es, 1
  {
    hide Apart, ExprPlaces;
    ExprsApart(es, at + [branch]);
    OnBranch(ExprPlaces(es, at + [branch]), at, branch, 0, |es| + 1);
  }

  lemma {:induction false} CtesApart(ctes: seq<Cte>, at: seq<nat>, k: nat)
    ensures Apart(CtePlaces(ctes, at, k), at, k, k + |ctes|)
    decreases ctes
  {
    hide Apart, OneCtePlaces;
    if ctes == [] {
      NoPlaces(at, k, k);
    } else {
      OneCteApart(ctes[0], at, k);
      CtesApart(ctes[1..], at, k + 1);
      Joined(OneCtePlaces(ctes[0], at, k), CtePlaces(ctes[1..], at, k + 1), at, k, k + 1, k + |ctes|);
    }
  }

  lemma {:induction false} OneCteApart(cte: Cte, at: seq<nat>, k: nat)
    ensures Apart(OneCtePlaces(cte, at, k), at, k, k + 1)
    decreases cte
  {
    hide Apart, QueryPlaces, ExprPlaces;
    var here := at + [k];
    assert at + [k, 0] == here + [0] && at + [k, 1] == here + [1] && at + [k, 2] == here + [2];
    var q, e := QueryPlaces(cte.query, here + [1]), ExprPlaces(cte.keys, here + [2]);
    OnePlace(here, 0);
    QueryApart(cte.query, here + [1]);
    OnBranch(q, here, 1, 0, 6);
    ExprsOn(cte.keys, here, 2);
    Joined([here + [0]], q, here, 0, 1, 2);
    Joined([here + [0]] + q, e, here, 0, 2, 3);
    OnBranch([here + [0]] + q + e, at, k, 0, 3);
  }

  lemma {:induction false} QueriesApart(qs: seq<Query>, at: seq<nat>)
    ensures Apart(QueriesPlaces(qs, at), at, 0, |qs| + 1)
    decreases qs
  {
    hide Apart, QueryPlaces;
    if qs == [] {
      NoPlaces(at, 0, 1);
    } else {
      var n := |qs|;
      var here := at + [n];
      assert at + [n, 0] == here + [0];
      var first := QueryPlaces(qs[0], here + [0]);
      QueryApart(qs[0], here + [0]);
      OnBranch(first, here, 0, 0, 6);
      OnBranch(first, at, n, 0, 1);
      QueriesApart(qs[1..], at);
      Joined(first, QueriesPlaces(qs[1..], at), at, 0, n, n + 1);
    }
  }

  lemma {:induction false} RefApart(t: TableRef, at: seq<nat>) returns (high: nat)
    ensures Apart(RefPlaces(t, at), at, 0, high)
    decreases t
  {
    hide Apart, QueryPlaces, ExprPlaces;
    match t
    case Join(left, right, exprs) =>
      var l, r := RefPlaces(left, at + [0]), RefPlaces(right, at + [1]);
      var n := RefApart(left, at + [0]);
      OnBranch(l, at, 0, 0, n);
      var m := RefApart(right, at + [1]);
      OnBranch(r, at, 1, 0, m);
      ExprsOn(exprs, at, 2);
      Joined(l, r, at, 0, 1, 2);
      Joined(l + r, ExprPlaces(exprs, at + [2]), at, 0, 2, 3);
      high := 3;
    case Subquery(q) =>
      QueryApart(q, at + [0]);
      OnBranch(QueryPlaces(q, at + [0]), at, 0, 0, 6);
      high := 1;
    case Pivot(source, exprs) =>
      var n := RefApart(source, at + [0]);
      OnBranch(RefPlaces(source, at + [0]), at, 0, 0, n);
      ExprsOn(exprs, at, 1);
      Joined(RefPlaces(source, at + [0]), ExprPlaces(exprs, at + [1]), at, 0, 1, 2);
      high := 2;
    case ExpressionList(exprs) =>
      ExprsApart(exprs, at);
      high := |exprs| + 1;
    case _ =>
      NoPlaces(at, 0, 0);
      high := 0;
  }

  lemma {:induction false} ExprsApart(es: seq<Expr>, at: seq<nat>)
    ensures Apart(ExprPlaces(es, at), at, 0, |es| + 1)
    decreases es, 0
  {
    hide Apart, OneExprPlaces;
    if es == [] {
      NoPlaces(at, 0, 1);
    } else {
      var n := |es|;
      var here := at + [n];
      assert at + [n, 0] == here + [0];
      var first := OneExprPlaces(es[0], here + [0]);
      OneExprApart(es[0], here + [0]);
      OnBranch(first, here, 0, 0, 2);
      OnBranch(first, at, n, 0, 1);
      ExprsApart(es[1..], at);
      Joined(first, ExprPlaces(es[1..], at), at, 0, n, n + 1);
    }
  }

  lemma {:induction false} OneExprApart(e: Expr, at: seq<nat>)
    ensures Apart(OneExprPlaces(e, at), at, 0, 2)
    decreases e
  {
    hide Apart, QueryPlaces, ExprPlaces;
    match e
    case SubqueryExpr(q, children) =>
      QueryApart(q, at + [0]);
      OnBranch(QueryPlaces(q, at + [0]), at, 0, 0, 6);
      ExprsOn(children, at, 1);
      Joined(QueryPlaces(q, at + [0]), ExprPlaces(children, at + [1]), at, 0, 1, 2);
    case Operator(children) =>
      ExprsOn(children, at, 0);
      Wider(ExprPlaces(children, at + [0]), at, 0, 1, 2);
    case _ => NoPlaces(at, 0, 2);
  }

  // Each reference to a CTE means one of them.

  ghost predicate MeansIn(meanings: seq<Meaning>, scope: Scope, places: seq<seq<nat>>) {
    forall m | m in meanings && m.CteOf? :: m.declaration in scope.Values || m.declaration in places
  }

  ghost predicate ScopeIn(inner: Scope, outer: Scope, places: seq<seq<nat>>) {
    forall d | d in inner.Values :: d in outer.Values || d in places
  }

  ghost predicate NoCtes(tables: Name -> Meaning) {
    forall n: Name :: !tables(n).CteOf?
  }

  lemma Part(meanings: seq<Meaning>, inner: Scope, mine: seq<seq<nat>>, outer: Scope, all: seq<seq<nat>>)
    requires MeansIn(meanings, inner, mine) && ScopeIn(inner, outer, all) && forall d | d in mine :: d in all
    ensures MeansIn(meanings, outer, all)
  {
  }

  lemma Both(a: seq<Meaning>, b: seq<Meaning>, scope: Scope, places: seq<seq<nat>>)
    requires MeansIn(a, scope, places) && MeansIn(b, scope, places)
    ensures MeansIn(a + b, scope, places)
  {
  }

  lemma SameScope(scope: Scope, places: seq<seq<nat>>)
    ensures ScopeIn(scope, scope, places) && ScopeIn(map[], scope, places)
  {
  }

  lemma Declared(inner: Scope, name: string, place: seq<nat>, outer: Scope, places: seq<seq<nat>>)
    requires ScopeIn(inner, outer, places) && place in places
    ensures ScopeIn(inner[name := place], outer, places)
  {
  }

  lemma {:induction false} DeclaredIn(ctes: seq<Cte>, at: seq<nat>, k: nat, inner: Scope, outer: Scope, places: seq<seq<nat>>)
    requires ScopeIn(inner, outer, places) && forall d | d in CtePlaces(ctes, at, k) :: d in places
    ensures ScopeIn(Declare(ctes, at, k, inner), outer, places)
    decreases ctes
  {
    hide ScopeIn;
    if ctes != [] {
      var here := at + [k, 0];
      assert here in OneCtePlaces(ctes[0], at, k);
      Declared(inner, ctes[0].name, here, outer, places);
      DeclaredIn(ctes[1..], at, k + 1, inner[ctes[0].name := here], outer, places);
    }
  }

  lemma {:induction false} QueryMeans(q: Query, at: seq<nat>, scope: Scope, tables: Name -> Meaning)
    requires NoCtes(tables)
    ensures MeansIn(BindQuery(q, at, scope, tables), scope, QueryPlaces(q, at))
    decreases q
  {
    hide MeansIn, ScopeIn, Declare, NoCtes, CtePlaces, RefPlaces, ExprPlaces, QueriesPlaces, BindCtes, BindRef, BindExprs, BindQueries;
    var all := QueryPlaces(q, at);
    SameScope(scope, all);
    match q
    case OtherQuery => NoMeanings(scope, all);
    case Select(ctes, from, exprs, modifiers) =>
      var inside := Declare(ctes, at + [0], 0, scope);
      DeclaredIn(ctes, at + [0], 0, scope, scope, all);
      CtesMean(ctes, at + [0], 0, scope, tables);
      RefMeans(from, at + [1], inside, tables);
      ExprsMean(exprs, at + [2], inside, tables);
      ExprsMean(modifiers, at + [3], inside, tables);
      var c, r := BindCtes(ctes, at + [0], 0, scope, tables), BindRef(from, at + [1], inside, tables);
      var e, m := BindExprs(exprs, at + [2], inside, tables), BindExprs(modifiers, at + [3], inside, tables);
      Part(c, scope, CtePlaces(ctes, at + [0], 0), scope, all);
      Part(r, inside, RefPlaces(from, at + [1]), scope, all);
      Part(e, inside, ExprPlaces(exprs, at + [2]), scope, all);
      Part(m, inside, ExprPlaces(modifiers, at + [3]), scope, all);
      Both(c, r, scope, all);
      Both(c + r, e, scope, all);
      Both(c + r + e, m, scope, all);
    case SetOperation(ctes, children, modifiers) =>
      var inside := Declare(ctes, at + [0], 0, scope);
      DeclaredIn(ctes, at + [0], 0, scope, scope, all);
      CtesMean(ctes, at + [0], 0, scope, tables);
      QueriesMean(children, at + [1], inside, tables);
      ExprsMean(modifiers, at + [2], inside, tables);
      var c, r := BindCtes(ctes, at + [0], 0, scope, tables), BindQueries(children, at + [1], inside, tables);
      var m := BindExprs(modifiers, at + [2], inside, tables);
      Part(c, scope, CtePlaces(ctes, at + [0], 0), scope, all);
      Part(r, inside, QueriesPlaces(children, at + [1]), scope, all);
      Part(m, inside, ExprPlaces(modifiers, at + [2]), scope, all);
      Both(c, r, scope, all);
      Both(c + r, m, scope, all);
    case RecursiveCte(ctes, name, left, right, keys, modifiers) =>
      RecursiveMeans(q, at, scope, tables);
  }

  lemma NoMeanings(scope: Scope, places: seq<seq<nat>>)
    ensures MeansIn([], scope, places)
  {
  }

  lemma {:induction false} RecursiveMeans(q: Query, at: seq<nat>, scope: Scope, tables: Name -> Meaning)
    requires q.RecursiveCte? && NoCtes(tables)
    ensures MeansIn(BindQuery(q, at, scope, tables), scope, QueryPlaces(q, at))
    decreases q, 0
  {
    hide MeansIn, ScopeIn, Declare, NoCtes, CtePlaces, ExprPlaces, BindCtes, BindExprs;
    var all, there := QueryPlaces(q, at), at + [5];
    SameScope(scope, all);
    var inside := Declare(q.ctes, at + [0], 0, scope);
    DeclaredIn(q.ctes, at + [0], 0, scope, scope, all);
    assert there in [there];
    Declared(inside, q.name, there, scope, all);
    CtesMean(q.ctes, at + [0], 0, scope, tables);
    QueryMeans(q.left, at + [1], inside, tables);
    QueryMeans(q.right, at + [2], inside[q.name := there], tables);
    ExprsMean(q.keys, at + [3], map[], tables);
    ExprsMean(q.modifiers, at + [4], inside, tables);
    var c, l := BindCtes(q.ctes, at + [0], 0, scope, tables), BindQuery(q.left, at + [1], inside, tables);
    var r, k := BindQuery(q.right, at + [2], inside[q.name := there], tables), BindExprs(q.keys, at + [3], map[], tables);
    var m := BindExprs(q.modifiers, at + [4], inside, tables);
    Part(c, scope, CtePlaces(q.ctes, at + [0], 0), scope, all);
    Part(l, inside, QueryPlaces(q.left, at + [1]), scope, all);
    Part(r, inside[q.name := there], QueryPlaces(q.right, at + [2]), scope, all);
    Part(k, map[], ExprPlaces(q.keys, at + [3]), scope, all);
    Part(m, inside, ExprPlaces(q.modifiers, at + [4]), scope, all);
    Both(c, l, scope, all);
    Both(c + l, r, scope, all);
    Both(c + l + r, k, scope, all);
    Both(c + l + r + k, m, scope, all);
  }

  lemma {:induction false} CtesMean(ctes: seq<Cte>, at: seq<nat>, k: nat, scope: Scope, tables: Name -> Meaning)
    requires NoCtes(tables)
    ensures MeansIn(BindCtes(ctes, at, k, scope, tables), scope, CtePlaces(ctes, at, k))
    decreases ctes
  {
    hide MeansIn, ScopeIn, NoCtes, QueryPlaces, ExprPlaces, BindQuery, BindExprs;
    var all := CtePlaces(ctes, at, k);
    SameScope(scope, all);
    if ctes == [] {
      NoMeanings(scope, all);
    } else {
      var cte, here := ctes[0], at + [k, 0];
      assert here in OneCtePlaces(cte, at, k);
      var next := scope[cte.name := here];
      Declared(scope, cte.name, here, scope, all);
      QueryMeans(cte.query, at + [k, 1], scope, tables);
      ExprsMean(cte.keys, at + [k, 2], map[], tables);
      CtesMean(ctes[1..], at, k + 1, next, tables);
      var q, e := BindQuery(cte.query, at + [k, 1], scope, tables), BindExprs(cte.keys, at + [k, 2], map[], tables);
      var rest := BindCtes(ctes[1..], at, k + 1, next, tables);
      Part(q, scope, QueryPlaces(cte.query, at + [k, 1]), scope, all);
      Part(e, map[], ExprPlaces(cte.keys, at + [k, 2]), scope, all);
      Part(rest, next, CtePlaces(ctes[1..], at, k + 1), scope, all);
      Both(q, e, scope, all);
      Both(q + e, rest, scope, all);
    }
  }

  lemma {:induction false} QueriesMean(qs: seq<Query>, at: seq<nat>, scope: Scope, tables: Name -> Meaning)
    requires NoCtes(tables)
    ensures MeansIn(BindQueries(qs, at, scope, tables), scope, QueriesPlaces(qs, at))
    decreases qs
  {
    hide MeansIn, ScopeIn, NoCtes, QueryPlaces, BindQuery;
    var all := QueriesPlaces(qs, at);
    SameScope(scope, all);
    if qs == [] {
      NoMeanings(scope, all);
    } else {
      var n := |qs|;
      var first, rest := BindQuery(qs[0], at + [n, 0], scope, tables), BindQueries(qs[1..], at, scope, tables);
      QueryMeans(qs[0], at + [n, 0], scope, tables);
      QueriesMean(qs[1..], at, scope, tables);
      Part(first, scope, QueryPlaces(qs[0], at + [n, 0]), scope, all);
      Part(rest, scope, QueriesPlaces(qs[1..], at), scope, all);
      Both(first, rest, scope, all);
    }
  }

  lemma NameMeans(n: Name, scope: Scope, tables: Name -> Meaning, places: seq<seq<nat>>)
    requires NoCtes(tables)
    ensures MeansIn([BindName(n, scope, tables)], scope, places)
  {
  }

  lemma {:induction false} RefMeans(t: TableRef, at: seq<nat>, scope: Scope, tables: Name -> Meaning)
    requires NoCtes(tables)
    ensures MeansIn(BindRef(t, at, scope, tables), scope, RefPlaces(t, at))
    decreases t
  {
    hide MeansIn, ScopeIn, NoCtes, BindName, QueryPlaces, ExprPlaces, BindQuery, BindExprs;
    var all := RefPlaces(t, at);
    SameScope(scope, all);
    match t
    case BaseTable(name) => NameMeans(name, scope, tables, all);
    case Join(left, right, exprs) =>
      var l, r, e := BindRef(left, at + [0], scope, tables), BindRef(right, at + [1], scope, tables), BindExprs(exprs, at + [2], scope, tables);
      RefMeans(left, at + [0], scope, tables);
      RefMeans(right, at + [1], scope, tables);
      ExprsMean(exprs, at + [2], scope, tables);
      Part(l, scope, RefPlaces(left, at + [0]), scope, all);
      Part(r, scope, RefPlaces(right, at + [1]), scope, all);
      Part(e, scope, ExprPlaces(exprs, at + [2]), scope, all);
      Both(l, r, scope, all);
      Both(l + r, e, scope, all);
    case Subquery(q) => QueryMeans(q, at + [0], scope, tables);
    case Pivot(source, exprs) =>
      var r, e := BindRef(source, at + [0], scope, tables), BindExprs(exprs, at + [1], scope, tables);
      RefMeans(source, at + [0], scope, tables);
      ExprsMean(exprs, at + [1], scope, tables);
      Part(r, scope, RefPlaces(source, at + [0]), scope, all);
      Part(e, scope, ExprPlaces(exprs, at + [1]), scope, all);
      Both(r, e, scope, all);
    case ExpressionList(exprs) => ExprsMean(exprs, at, scope, tables);
    case _ => NoMeanings(scope, all);
  }

  lemma {:induction false} ExprMeans(e: Expr, at: seq<nat>, scope: Scope, tables: Name -> Meaning)
    requires NoCtes(tables)
    ensures MeansIn(BindExpr(e, at, scope, tables), scope, OneExprPlaces(e, at))
    decreases e
  {
    hide MeansIn, ScopeIn, NoCtes, QueryPlaces, ExprPlaces, BindQuery, BindExprs;
    var all := OneExprPlaces(e, at);
    SameScope(scope, all);
    match e
    case SubqueryExpr(q, children) =>
      var a, b := BindQuery(q, at + [0], scope, tables), BindExprs(children, at + [1], scope, tables);
      QueryMeans(q, at + [0], scope, tables);
      ExprsMean(children, at + [1], scope, tables);
      Part(a, scope, QueryPlaces(q, at + [0]), scope, all);
      Part(b, scope, ExprPlaces(children, at + [1]), scope, all);
      Both(a, b, scope, all);
    case Operator(children) => ExprsMean(children, at + [0], scope, tables);
    case _ => NoMeanings(scope, all);
  }

  lemma {:induction false} ExprsMean(es: seq<Expr>, at: seq<nat>, scope: Scope, tables: Name -> Meaning)
    requires NoCtes(tables)
    ensures MeansIn(BindExprs(es, at, scope, tables), scope, ExprPlaces(es, at))
    decreases es
  {
    hide MeansIn, ScopeIn, NoCtes, OneExprPlaces, BindExpr;
    var all := ExprPlaces(es, at);
    SameScope(scope, all);
    if es == [] {
      NoMeanings(scope, all);
    } else {
      var n := |es|;
      var first, rest := BindExpr(es[0], at + [n, 0], scope, tables), BindExprs(es[1..], at, scope, tables);
      ExprMeans(es[0], at + [n, 0], scope, tables);
      ExprsMean(es[1..], at, scope, tables);
      Part(first, scope, OneExprPlaces(es[0], at + [n, 0]), scope, all);
      Part(rest, scope, ExprPlaces(es[1..], at), scope, all);
      Both(first, rest, scope, all);
    }
  }

  // A pass leaves every declaration where it is.

  lemma {:induction false} QueryPlacesStay(q: Query, at: seq<nat>, visible: set<string>, f: Rewriting)
    requires WalkQuery(q, visible, f).Some?
    ensures QueryPlaces(WalkQuery(q, visible, f).value, at) == QueryPlaces(q, at)
    decreases q
  {
    if !q.OtherQuery? {
      var inside := visible + NamesOf(q.ctes);
      CtePlacesStay(q.ctes, at + [0], 0, visible, f);
      match q
      case Select(ctes, from, exprs, modifiers) =>
        RefPlacesStay(from, at + [1], inside, f);
        ExprPlacesStay(exprs, at + [2], inside, f);
        ExprPlacesStay(modifiers, at + [3], inside, f);
      case SetOperation(ctes, children, modifiers) =>
        QueriesPlacesStay(children, at + [1], inside, f);
        ExprPlacesStay(modifiers, at + [2], inside, f);
      case RecursiveCte(ctes, name, left, right, keys, modifiers) =>
        QueryPlacesStay(left, at + [1], inside, f);
        QueryPlacesStay(right, at + [2], inside + {name}, f);
        ExprPlacesStay(keys, at + [3], {}, f);
        ExprPlacesStay(modifiers, at + [4], inside, f);
    }
  }

  lemma {:induction false} CtePlacesStay(ctes: seq<Cte>, at: seq<nat>, k: nat, visible: set<string>, f: Rewriting)
    requires WalkCtes(ctes, visible, f).Some?
    ensures CtePlaces(WalkCtes(ctes, visible, f).value, at, k) == CtePlaces(ctes, at, k)
    decreases ctes
  {
    hide QueryPlaces, ExprPlaces, WalkQuery, WalkExprs;
    if ctes != [] {
      var cte := ctes[0];
      QueryPlacesStay(cte.query, at + [k, 1], visible, f);
      ExprPlacesStay(cte.keys, at + [k, 2], {}, f);
      CtePlacesStay(ctes[1..], at, k + 1, visible + {cte.name}, f);
      var walked := WalkCtes(ctes, visible, f).value;
      assert walked[1..] == WalkCtes(ctes[1..], visible + {cte.name}, f).value;
    }
  }

  lemma {:induction false} QueriesPlacesStay(qs: seq<Query>, at: seq<nat>, visible: set<string>, f: Rewriting)
    requires WalkQueries(qs, visible, f).Some?
    ensures |WalkQueries(qs, visible, f).value| == |qs|
    ensures QueriesPlaces(WalkQueries(qs, visible, f).value, at) == QueriesPlaces(qs, at)
    decreases qs
  {
    hide QueryPlaces, WalkQuery;
    if qs != [] {
      QueryPlacesStay(qs[0], at + [|qs|, 0], visible, f);
      QueriesPlacesStay(qs[1..], at, visible, f);
      var walked := WalkQueries(qs, visible, f).value;
      assert walked[1..] == WalkQueries(qs[1..], visible, f).value;
    }
  }

  lemma {:induction false} RefPlacesStay(t: TableRef, at: seq<nat>, visible: set<string>, f: Rewriting)
    requires WalkRef(t, visible, f).Some?
    ensures RefPlaces(WalkRef(t, visible, f).value, at) == RefPlaces(t, at)
    decreases t
  {
    hide QueryPlaces, ExprPlaces, WalkQuery, WalkExprs;
    match t
    case Join(left, right, exprs) =>
      RefPlacesStay(left, at + [0], visible, f);
      RefPlacesStay(right, at + [1], visible, f);
      ExprPlacesStay(exprs, at + [2], visible, f);
    case Subquery(q) => QueryPlacesStay(q, at + [0], visible, f);
    case Pivot(source, exprs) =>
      RefPlacesStay(source, at + [0], visible, f);
      ExprPlacesStay(exprs, at + [1], visible, f);
    case ExpressionList(exprs) => ExprPlacesStay(exprs, at, visible, f);
    case _ =>
  }

  lemma {:induction false} OneExprPlacesStay(e: Expr, at: seq<nat>, visible: set<string>, f: Rewriting)
    requires WalkExpr(e, visible, f).Some?
    ensures OneExprPlaces(WalkExpr(e, visible, f).value, at) == OneExprPlaces(e, at)
    decreases e
  {
    hide QueryPlaces, ExprPlaces, WalkQuery, WalkExprs;
    match e
    case SubqueryExpr(q, children) =>
      QueryPlacesStay(q, at + [0], visible, f);
      ExprPlacesStay(children, at + [1], visible, f);
    case Operator(children) => ExprPlacesStay(children, at + [0], visible, f);
    case _ =>
  }

  lemma {:induction false} ExprPlacesStay(es: seq<Expr>, at: seq<nat>, visible: set<string>, f: Rewriting)
    requires WalkExprs(es, visible, f).Some?
    ensures |WalkExprs(es, visible, f).value| == |es|
    ensures ExprPlaces(WalkExprs(es, visible, f).value, at) == ExprPlaces(es, at)
    decreases es
  {
    hide OneExprPlaces, WalkExpr;
    if es != [] {
      OneExprPlacesStay(es[0], at + [|es|, 0], visible, f);
      ExprPlacesStay(es[1..], at, visible, f);
      var walked := WalkExprs(es, visible, f).value;
      assert walked[1..] == WalkExprs(es[1..], visible, f).value;
    }
  }

  /** The main result: every declaration has a place of its own, each CTE reference means one of them, and a pass leaves
      them where they are: so a CTE that keeps its place is the same CTE. */
  lemma CtesAreToldApart(q: Query, tables: Name -> Meaning, f: Rewriting)
    requires NoCtes(tables)
    ensures Distinct(QueryPlaces(q, []))
    ensures forall m | m in BindQuery(q, [], map[], tables) && m.CteOf? :: m.declaration in QueryPlaces(q, [])
    ensures WalkQuery(q, {}, f).Some? ==> QueryPlaces(WalkQuery(q, {}, f).value, []) == QueryPlaces(q, [])
  {
    hide QueryPlaces, BindQuery, WalkQuery;
    QueryApart(q, []);
    QueryMeans(q, [], map[], tables);
    if WalkQuery(q, {}, f).Some? {
      QueryPlacesStay(q, [], {}, f);
    }
  }
}
