/** Table names of a Glue view: stored by what their catalog is, and read through whatever it is attached as. */
module ViewNames {
  import opened Outcomes
  import opened Text
  import opened Locations
  import opened ViewWalker
  import opened ViewScopes
  import opened ViewShapes

  /** An attached catalog. Glue knows it by its id; a session does once Glue reported it (it can when the catalog has a
      database of its own) or when it was attached by its account id. Another kind is usable when other sessions can
      read it: not in memory, system or hidden. */
  datatype Catalog =
    | GlueCatalog(region: string, endpoint: string, id: string, reports: bool, byAccount: bool, fetched: bool,
                  defaultSchema: string)
    | OtherCatalog(kind: string, usable: bool, defaultSchema: string)

  /** A session: its attached catalogs by alias, the tables it finds, and its search path. */
  datatype Session = Session(catalogs: map<string, Catalog>, tables: set<(string, string, string)>,
                             searchPath: seq<(string, string)>, ambiguous: set<string>, allowedKinds: set<string>) {
    ghost predicate Valid() {
      && (forall a | a in catalogs :: a != "" && catalogs[a].defaultSchema != "" &&
            match catalogs[a]
            case GlueCatalog(_, _, id, _, _, _, _) => id != "" && IsDigit(id[0])
            case OtherCatalog(kind, _, _) => ':' !in kind)
      && (forall t | t in tables :: t.1 != "")
    }

    function IdentityOf(alias: string): Identity
      requires alias in catalogs
    {
      match catalogs[alias]
      case GlueCatalog(region, endpoint, id, _, _, _, _) => GlueId(region, endpoint, id)
      case OtherCatalog(kind, _, _) => ExternalId(kind, alias)
    }

    /** The id a session can tell without, or with, asking Glue. */
    function KnownCatalogId(alias: string): string
      requires alias in catalogs && catalogs[alias].GlueCatalog?
    {
      var c := catalogs[alias];
      if (c.fetched && c.reports) || c.byAccount then c.id else ""
    }

    function CatalogIdOf(alias: string): string
      requires alias in catalogs && catalogs[alias].GlueCatalog?
    {
      if catalogs[alias].reports then catalogs[alias].id else KnownCatalogId(alias)
    }

    predicate SameGlueService(a: string, b: string)
      requires a in catalogs && b in catalogs && catalogs[a].GlueCatalog? && catalogs[b].GlueCatalog?
    {
      catalogs[a].region == catalogs[b].region && catalogs[a].endpoint == catalogs[b].endpoint
    }

    /** Finds a table, in the catalog's own schema when none is given. */
    function LookupTable(catalog: string, schema: string, table: string): Option<(string, string, string)> {
      if catalog !in catalogs then None
      else
        var entry := (catalog, if schema == "" then catalogs[catalog].defaultSchema else schema, table);
        if entry in tables then Some(entry) else None
    }

    function OnPath(path: seq<(string, string)>, table: string): Option<(string, string, string)> {
      if path == [] then None
      else if (path[0].0, path[0].1, table) in tables then Some((path[0].0, path[0].1, table))
      else OnPath(path[1..], table)
    }

    /** How a bare table name binds: a temporary table first, then the view's own schema, then the search path. */
    function LookupBare(view: string, schema: string, table: string): Option<(string, string, string)> {
      if ("temp", "main", table) in tables then Some(("temp", "main", table))
      else if (view, schema, table) in tables then Some((view, schema, table))
      else OnPath(searchPath, table)
    }

    /** What a table name means in this session, in a view of the given schema: x.t is in catalog x when one is attached
        under that name, and else in the view's own catalog. */
    function Denotes(view: string, schema: string, n: Name): Meaning {
      match n
      case InCatalog(c, s, t) => TableIn(c, s, t)
      case InSchema(x, t) =>
        if x in catalogs then TableIn(x, catalogs[x].defaultSchema, t) else TableIn(view, x, t)
      case Bare(t) =>
        match LookupBare(view, schema, t)
        case None => Unbound
        case Some(e) => TableIn(e.0, e.1, e.2)
    }

    function TableIn(catalog: string, schema: string, table: string): Meaning {
      if catalog in catalogs then TableOf(IdentityOf(catalog), schema, table) else Unbound
    }
  }

  const EXTERNAL_PREFIX := "external:"

  function ExternalIdentity(kind: string, alias: string): string {
    EXTERNAL_PREFIX + kind + ":" + alias
  }

  predicate IsExternal(id: string) {
    StartsWith(id, EXTERNAL_PREFIX)
  }

  /** What a stored table name means, of a view in the given schema of the Glue catalog with the given identity. */
  function StoredMeaning(own: Identity, schema: string, n: Name): Meaning
    requires own.GlueId?
  {
    match n
    case Bare(t) => TableOf(own, schema, t)
    case InSchema(s, t) => TableOf(own, s, t)
    case InCatalog(id, s, t) =>
      if !IsExternal(id) then TableOf(GlueId(own.region, own.endpoint, id), s, t)
      else
        var rest := id[|EXTERNAL_PREFIX|..];
        var colon := IndexOf(rest, ':');
        if colon < 0 then Unbound else TableOf(ExternalId(rest[..colon], rest[colon + 1..]), s, t)
  }

  // CREATE VIEW.

  /** The catalog and schema a name really has, if it names a catalog: x.t does when one is attached under that name. The
      schema is left out then, and None is an ambiguous x. */
  function NamedCatalog(s: Session, n: Name): Option<Option<(string, string)>> {
    match n
    case InCatalog(c, schema, _) => Some(Some((c, schema)))
    case InSchema(x, _) =>
      if x !in s.catalogs then Some(None)
      else if x in s.ambiguous then None
      else Some(Some((x, "")))
    case Bare(_) => Some(None)
  }

  function QualifyName(s: Session, view: string, schema: string, n: Name, visible: set<string>): Option<Name>
    requires s.Valid() && view in s.catalogs && s.catalogs[view].GlueCatalog?
  {
    match NamedCatalog(s, n)
    case None => None
    case Some(Some((catalog, inSchema))) =>
      (match s.LookupTable(catalog, inSchema, n.table)
       case None => None
       case Some(e) => QualifyEntry(s, view, e.0, e.1, e.2))
    case Some(None) =>
      if n.InSchema? || n.table in visible then Some(n)
      else
        match s.LookupBare(view, schema, n.table)
        case None => None
        case Some(e) =>
          BareIsFound(s, view, schema, n.table);
          if e.0 == view then Some(InSchema(e.1, e.2)) else None
  }

  function QualifyEntry(s: Session, view: string, catalog: string, schema: string, table: string): Option<Name>
    requires catalog in s.catalogs && view in s.catalogs && s.catalogs[view].GlueCatalog? && schema != ""
  {
    match s.catalogs[catalog]
    case OtherCatalog(kind, usable, _) =>
      if kind in s.allowedKinds && usable then Some(InCatalog(ExternalIdentity(kind, catalog), schema, table)) else None
    case GlueCatalog(_, _, _, _, _, _, _) =>
      if !s.SameGlueService(catalog, view) then None
      else
        var id := s.CatalogIdOf(catalog);
        if id == "" then None
        else if id == s.CatalogIdOf(view) then Some(InSchema(schema, table))
        else Some(InCatalog(id, schema, table))
  }

  // Reading a view.

  function ResolveName(aliases: map<string, string>, n: Name): Option<Name>
    requires forall id | id in aliases :: aliases[id] != ""
  {
    match n
    case InCatalog(id, schema, table) => if id in aliases then Some(InCatalog(aliases[id], schema, table)) else None
    case _ => Some(n)
  }

  function PinName(catalog: string, schema: string, n: Name, visible: set<string>): Option<Name>
    requires catalog != "" && schema != ""
  {
    match n
    case InCatalog(_, _, _) => Some(n)
    case InSchema(inSchema, table) => Some(InCatalog(catalog, inSchema, table))
    case Bare(table) => if table in visible then Some(n) else Some(InCatalog(catalog, schema, table))
  }

  /** The attached catalog stands for a stored catalog part. */
  predicate StandsFor(s: Session, view: string, alias: string, id: string)
    requires view in s.catalogs && s.catalogs[view].GlueCatalog?
  {
    alias in s.catalogs &&
    match s.catalogs[alias]
    case OtherCatalog(kind, usable, _) => usable && id == ExternalIdentity(kind, alias)
    case GlueCatalog(_, _, _, _, _, _, _) => id == s.KnownCatalogId(alias) && s.SameGlueService(alias, view)
  }

  /** Each id that a catalog attached stands for, and the alphabetically first alias that does. */
  ghost predicate NamesIds(s: Session, view: string, ids: set<string>, databases: set<string>, aliases: map<string, string>)
    requires view in s.catalogs && s.catalogs[view].GlueCatalog?
  {
    && (forall id | id in aliases :: id in ids && aliases[id] in databases && StandsFor(s, view, aliases[id], id))
    && (forall id, a | id in ids && a in databases && StandsFor(s, view, a, id) :: id in aliases && AtMost(aliases[id], a))
  }

  lemma ExternalReads(kind: string, alias: string)
    requires ':' !in kind
    ensures IsExternal(ExternalIdentity(kind, alias))
    ensures IndexOf(ExternalIdentity(kind, alias)[|EXTERNAL_PREFIX|..], ':') == |kind|
    ensures ExternalIdentity(kind, alias)[|EXTERNAL_PREFIX|..] == kind + ":" + alias
  {
    var rest := kind + ":" + alias;
    IndexOfFirst(kind, ':', alias);
    assert ExternalIdentity(kind, alias) == EXTERNAL_PREFIX + rest;
    assert kind + [':'] + alias == rest;
  }

  lemma ExternalIsInjective(kind: string, alias: string, otherKind: string, otherAlias: string)
    requires ':' !in kind && ':' !in otherKind && ExternalIdentity(kind, alias) == ExternalIdentity(otherKind, otherAlias)
    ensures kind == otherKind && alias == otherAlias
  {
    ExternalReads(kind, alias);
    ExternalReads(otherKind, otherAlias);
    var rest := kind + ":" + alias;
    assert rest[..|kind|] == kind && rest[|kind| + 1..] == alias;
    assert rest == otherKind + ":" + otherAlias;
    assert rest[..|otherKind|] == otherKind && rest[|otherKind| + 1..] == otherAlias;
  }

  /** No Glue catalog id looks like a stored name of another catalog. */
  lemma GlueIdIsNotExternal(id: string)
    requires id != "" && IsDigit(id[0])
    ensures !IsExternal(id)
  {
    assert |id| >= |EXTERNAL_PREFIX| ==> id[..|EXTERNAL_PREFIX|][0] == id[0];
    assert EXTERNAL_PREFIX[0] == 'e';
  }

  /** A stored name of another kind of catalog names one alias. */
  lemma ExternalNamesOne(s: Session, view: string, a: string, alias: string, id: string)
    requires s.Valid() && view in s.catalogs && s.catalogs[view].GlueCatalog? && StandsFor(s, view, a, id)
    requires alias in s.catalogs && s.catalogs[alias].OtherCatalog? && id == ExternalIdentity(s.catalogs[alias].kind, alias)
    requires id != ""
    ensures a == alias
  {
    ExternalReads(s.catalogs[alias].kind, alias);
    forall g | g in s.catalogs && s.catalogs[g].GlueCatalog?
      ensures !IsExternal(s.catalogs[g].id)
    {
      GlueIdIsNotExternal(s.catalogs[g].id);
    }
    if s.catalogs[a].OtherCatalog? {
      ExternalIsInjective(s.catalogs[a].kind, a, s.catalogs[alias].kind, alias);
    }
  }

  lemma AliasSeen(s: Session, view: string, ids: set<string>, seen: set<string>, before: map<string, string>, alias: string,
                  id: string, after: map<string, string>)
    requires view in s.catalogs && s.catalogs[view].GlueCatalog? && alias in s.catalogs
    requires NamesIds(s, view, ids, seen, before)
    requires forall x | x in ids && StandsFor(s, view, alias, x) :: x == id
    requires after == if id in ids && StandsFor(s, view, alias, id) &&
                         (id !in before || (alias != before[id] && AtMost(alias, before[id])))
                      then before[id := alias] else before
    ensures NamesIds(s, view, ids, seen + {alias}, after)
  {
    hide StandsFor, AtMost;
    AtMostTotal(alias, alias);
    if id in before {
      AtMostTotal(alias, before[id]);
    }
    forall x, a | x in ids && a in seen + {alias} && StandsFor(s, view, a, x)
      ensures x in after && AtMost(after[x], a)
    {
      if a != alias && x == id && after != before && id in before {
        AtMostTransitive(alias, before[id], a);
      }
    }
  }

  method AttachedAliases(s: Session, view: string, ids: set<string>, databases: seq<string>)
    returns (aliases: map<string, string>)
    requires s.Valid() && view in s.catalogs && s.catalogs[view].GlueCatalog?
    requires forall a :: a in databases <==> a in s.catalogs
    requires forall id | id in ids :: id != ""
    ensures NamesIds(s, view, ids, s.catalogs.Keys, aliases)
  {
    aliases := map[];
    ghost var seen: set<string> := {};
    for k := 0 to |databases|
      invariant forall a :: a in seen <==> a in databases[..k]
      invariant NamesIds(s, view, ids, seen, aliases)
    {
      var alias := databases[k];
      ghost var before := aliases;
      match s.catalogs[alias] {
      case OtherCatalog(kind, usable, _) =>
        var id := ExternalIdentity(kind, alias);
        if id in ids && usable {
          aliases := aliases[id := alias];
        }
        if id in before {
          ExternalNamesOne(s, view, before[id], alias, id);
        }
        assert aliases == before || aliases == before[id := alias];
        AliasSeen(s, view, ids, seen, before, alias, id, aliases);
      case GlueCatalog(_, _, _, _, _, _, _) =>
        var id := s.KnownCatalogId(alias);
        if id in ids && s.SameGlueService(alias, view) {
          if id !in aliases || (alias != aliases[id] && AtMost(alias, aliases[id])) {
            aliases := aliases[id := alias];
          }
        }
        AliasSeen(s, view, ids, seen, before, alias, id, aliases);
      }
      seen := seen + {alias};
      assert databases[..k + 1] == databases[..k] + [alias];
      assert forall a :: a in databases[..k + 1] <==> a in databases[..k] || a == alias;
    }
    assert databases[..|databases|] == databases;
    assert seen == s.catalogs.Keys;
  }

  // The passes keep what every name means.

  lemma BareIsFound(s: Session, view: string, schema: string, table: string)
    requires s.LookupBare(view, schema, table).Some?
    ensures s.LookupBare(view, schema, table).value in s.tables
    ensures s.LookupBare(view, schema, table).value.2 == table
  {
    PathIsFound(s, s.searchPath, table);
  }

  lemma {:induction false} PathIsFound(s: Session, path: seq<(string, string)>, table: string)
    ensures s.OnPath(path, table).Some? ==> s.OnPath(path, table).value in s.tables && s.OnPath(path, table).value.2 == table
  {
    if path != [] {
      PathIsFound(s, path[1..], table);
    }
  }

  lemma StoredExternal(own: Identity, viewSchema: string, kind: string, alias: string, schema: string, table: string)
    requires own.GlueId? && ':' !in kind && schema != ""
    ensures StoredMeaning(own, viewSchema, InCatalog(ExternalIdentity(kind, alias), schema, table))
            == TableOf(ExternalId(kind, alias), schema, table)
  {
    ExternalReads(kind, alias);
    var rest := kind + ":" + alias;
    assert rest[..|kind|] == kind && rest[|kind| + 1..] == alias;
  }

  lemma QualifiedEntryMeans(s: Session, view: string, viewSchema: string, catalog: string, schema: string, table: string)
    requires s.Valid() && catalog in s.catalogs && view in s.catalogs && s.catalogs[view].GlueCatalog? && schema != ""
    requires QualifyEntry(s, view, catalog, schema, table).Some?
    ensures StoredMeaning(s.IdentityOf(view), viewSchema, QualifyEntry(s, view, catalog, schema, table).value)
            == TableOf(s.IdentityOf(catalog), schema, table)
    ensures !QualifyEntry(s, view, catalog, schema, table).value.Bare?
  {
    match s.catalogs[catalog]
    case OtherCatalog(kind, _, _) => StoredExternal(s.IdentityOf(view), viewSchema, kind, catalog, schema, table);
    case GlueCatalog(_, _, id, _, _, _, _) => GlueIdIsNotExternal(id);
  }

  lemma QualifiedNameMeans(s: Session, view: string, schema: string, n: Name, scope: Scope)
    requires s.Valid() && view in s.catalogs && s.catalogs[view].GlueCatalog?
    requires QualifyName(s, view, schema, n, scope.Keys).Some?
    ensures BindName(QualifyName(s, view, schema, n, scope.Keys).value, scope, Stores(s.IdentityOf(view), schema))
            == BindName(n, scope, Binds(s, view, schema))
  {
    hide StoredMeaning, QualifyEntry;
    if NamedCatalog(s, n) == Some(None) {
      if n.InSchema? {
        InSchemaMeans(s.IdentityOf(view), schema, n);
      } else if n.table !in scope {
        BareIsFound(s, view, schema, n.table);
        InSchemaMeans(s.IdentityOf(view), schema, QualifyName(s, view, schema, n, scope.Keys).value);
      }
    } else {
      var named := NamedCatalog(s, n).value.value;
      var entry := s.LookupTable(named.0, named.1, n.table).value;
      QualifiedEntryMeans(s, view, schema, entry.0, entry.1, entry.2);
    }
  }

  lemma InSchemaMeans(own: Identity, schema: string, n: Name)
    requires own.GlueId? && n.InSchema?
    ensures StoredMeaning(own, schema, n) == TableOf(own, n.schema, n.table)
  {
  }

  /** A catalog that stands for a stored id is the catalog the id tells of. */
  lemma AliasMeans(s: Session, view: string, viewSchema: string, alias: string, n: Name)
    requires s.Valid() && view in s.catalogs && s.catalogs[view].GlueCatalog?
    requires n.InCatalog? && StandsFor(s, view, alias, n.catalog)
    ensures alias != "" && s.TableIn(alias, n.schema, n.table) == StoredMeaning(s.IdentityOf(view), viewSchema, n)
  {
    match s.catalogs[alias]
    case OtherCatalog(kind, _, _) => StoredExternal(s.IdentityOf(view), viewSchema, kind, alias, n.schema, n.table);
    case GlueCatalog(_, _, id, _, _, _, _) => GlueIdIsNotExternal(id);
  }

  /** What a name means once its catalog is an attached one. */
  function ResolvedMeaning(s: Session, view: string, schema: string, n: Name): Meaning
    requires view in s.catalogs
  {
    match n
    case InCatalog(c, inSchema, t) => s.TableIn(c, inSchema, t)
    case InSchema(inSchema, t) => TableOf(s.IdentityOf(view), inSchema, t)
    case Bare(t) => TableOf(s.IdentityOf(view), schema, t)
  }

  // The three passes over a whole body, and what its tables mean at each stage.

  function Qualify(s: Session, view: string, schema: string): Rewriting
    requires s.Valid() && view in s.catalogs && s.catalogs[view].GlueCatalog?
  {
    (n: Name, visible: set<string>) => QualifyName(s, view, schema, n, visible)
  }

  function Resolve(aliases: map<string, string>): Rewriting
    requires forall id | id in aliases :: aliases[id] != ""
  {
    (n: Name, visible: set<string>) => ResolveName(aliases, n)
  }

  function Pin(view: string, schema: string): Rewriting
    requires view != "" && schema != ""
  {
    (n: Name, visible: set<string>) => PinName(view, schema, n, visible)
  }

  function Binds(s: Session, view: string, schema: string): Name -> Meaning {
    (n: Name) => s.Denotes(view, schema, n)
  }

  function Stores(own: Identity, schema: string): Name -> Meaning
    requires own.GlueId?
  {
    (n: Name) => StoredMeaning(own, schema, n)
  }

  function Resolves(s: Session, view: string, schema: string): Name -> Meaning
    requires view in s.catalogs
  {
    (n: Name) => ResolvedMeaning(s, view, schema, n)
  }

  const NO_CTE: Scope := map[]

  /** What each table of a body means in a session, one by one. */
  function Means(s: Session, view: string, schema: string, body: Query): seq<Meaning> {
    BindQuery(body, [], NO_CTE, Binds(s, view, schema))
  }

  lemma StoringKeepsMeaning(s: Session, view: string, schema: string, body: Query)
    requires s.Valid() && view in s.catalogs && s.catalogs[view].GlueCatalog?
    requires WalkQuery(body, {}, Qualify(s, view, schema)).Some?
    ensures BindQuery(WalkQuery(body, {}, Qualify(s, view, schema)).value, [], NO_CTE, Stores(s.IdentityOf(view), schema))
            == Means(s, view, schema, body)
  {
    var f, before, after := Qualify(s, view, schema), Binds(s, view, schema), Stores(s.IdentityOf(view), schema);
    forall n: Name, scope: Scope | f(n, scope.Keys).Some?
      ensures BindName(f(n, scope.Keys).value, scope, after) == BindName(n, scope, before)
    {
      QualifiedNameMeans(s, view, schema, n, scope);
    }
    EmptyScope();
    QueryKept(body, [], NO_CTE, f, before, after);
  }

  lemma ResolvingKeepsMeaning(s: Session, view: string, schema: string, ids: set<string>, aliases: map<string, string>, stored: Query)
    requires s.Valid() && view in s.catalogs && s.catalogs[view].GlueCatalog?
    requires NamesIds(s, view, ids, s.catalogs.Keys, aliases)
    requires WalkQuery(stored, {}, Resolve(aliases)).Some?
    ensures BindQuery(WalkQuery(stored, {}, Resolve(aliases)).value, [], NO_CTE, Resolves(s, view, schema))
            == BindQuery(stored, [], NO_CTE, Stores(s.IdentityOf(view), schema))
  {
    var f, before, after := Resolve(aliases), Stores(s.IdentityOf(view), schema), Resolves(s, view, schema);
    forall n: Name, scope: Scope | f(n, scope.Keys).Some?
      ensures BindName(f(n, scope.Keys).value, scope, after) == BindName(n, scope, before)
    {
      if n.InCatalog? {
        assert n.catalog in aliases;
        AliasMeans(s, view, schema, aliases[n.catalog], n);
      }
    }
    EmptyScope();
    QueryKept(stored, [], NO_CTE, f, before, after);
  }

  /** Pinned names mean the same wherever the search path leads and whatever is attached under a schema's name. */
  lemma PinningKeepsMeaning(s: Session, view: string, schema: string, body: Query)
    requires view in s.catalogs && view != "" && schema != "" && WalkQuery(body, {}, Pin(view, schema)).Some?
    ensures Means(s, view, schema, WalkQuery(body, {}, Pin(view, schema)).value)
            == BindQuery(body, [], NO_CTE, Resolves(s, view, schema))
  {
    var f, before, after := Pin(view, schema), Resolves(s, view, schema), Binds(s, view, schema);
    EmptyScope();
    forall n: Name, scope: Scope
      ensures BindName(f(n, scope.Keys).value, scope, after) == BindName(n, scope, before)
    {
    }
    QueryKept(body, [], NO_CTE, f, before, after);
  }

  /** The catalogs a body names its tables by, and the view's own: the stored view does not keep these names. */
  function NamedCatalogs(s: Session, view: string, sites: seq<Site>): set<string> {
    {view} + set k | 0 <= k < |sites| && sites[k].TableSite? && NamedCatalog(s, sites[k].name).Some? &&
                     NamedCatalog(s, sites[k].name).value.Some? :: NamedCatalog(s, sites[k].name).value.value.0
  }

  /** No column reference may mean one of these catalogs. */
  predicate ColumnsAllowed(sites: seq<Site>, catalogs: set<string>) {
    forall k | 0 <= k < |sites| && sites[k].ColumnSite? :: sites[k].qualifiers !! catalogs
  }

  function QualifyForStorage(s: Session, view: string, schema: string, body: Query): Option<Query>
    requires s.Valid() && view in s.catalogs && s.catalogs[view].GlueCatalog?
  {
    match WalkQuery(body, {}, Qualify(s, view, schema))
    case None => None
    case Some(stored) =>
      if ColumnsAllowed(SitesOf(body, {}), NamedCatalogs(s, view, SitesOf(body, {}))) then Some(stored) else None
  }

  /** Where a bare table name is looked for, in this order. */
  function Places(s: Session, view: string, schema: string): seq<(string, string)> {
    [("temp", "main"), (view, schema)] + s.searchPath
  }

  ghost predicate FoundFirst(s: Session, places: seq<(string, string)>, k: nat, table: string) {
    && k < |places| && (places[k].0, places[k].1, table) in s.tables
    && forall j: nat | j < k :: (places[j].0, places[j].1, table) !in s.tables
  }

  lemma {:induction false} PathFindsFirst(s: Session, path: seq<(string, string)>, k: nat, table: string)
    requires FoundFirst(s, path, k, table)
    ensures s.OnPath(path, table) == Some((path[k].0, path[k].1, table))
  {
    if k > 0 {
      assert (path[0].0, path[0].1, table) !in s.tables;
      forall j: nat | j < k - 1
        ensures (path[1..][j].0, path[1..][j].1, table) !in s.tables
      {
        assert path[1..][j] == path[j + 1];
      }
      PathFindsFirst(s, path[1..], k - 1, table);
    }
  }

  /** A bare name means the table of the first place that has one ... */
  lemma BareMeansTheFirst(s: Session, view: string, schema: string, k: nat, table: string)
    requires FoundFirst(s, Places(s, view, schema), k, table)
    ensures var p := Places(s, view, schema)[k];
            && s.LookupBare(view, schema, table) == Some((p.0, p.1, table))
            && s.Denotes(view, schema, Bare(table)) == s.TableIn(p.0, p.1, table)
  {
    var places := Places(s, view, schema);
    assert places[0] == ("temp", "main") && places[1] == (view, schema);
    if k > 0 {
      assert (places[0].0, places[0].1, table) !in s.tables;
    }
    if k > 1 {
      assert (places[1].0, places[1].1, table) !in s.tables;
      forall j: nat | j < k - 2
        ensures (s.searchPath[j].0, s.searchPath[j].1, table) !in s.tables
      {
        assert places[j + 2] == s.searchPath[j];
      }
      assert places[k] == s.searchPath[k - 2];
      PathFindsFirst(s, s.searchPath, k - 2, table);
    }
  }

  lemma {:induction false} PathFindsOne(s: Session, path: seq<(string, string)>, table: string) returns (k: nat)
    requires s.OnPath(path, table).Some?
    ensures FoundFirst(s, path, k, table)
  {
    if (path[0].0, path[0].1, table) in s.tables {
      k := 0;
    } else {
      var rest := PathFindsOne(s, path[1..], table);
      k := rest + 1;
      forall j: nat | j < k
        ensures (path[j].0, path[j].1, table) !in s.tables
      {
        if j > 0 {
          assert path[1..][j - 1] == path[j];
        }
      }
    }
  }

  /** ... and nothing when none has. */
  lemma BareIsFoundFirst(s: Session, view: string, schema: string, table: string) returns (k: nat)
    requires s.LookupBare(view, schema, table).Some?
    ensures FoundFirst(s, Places(s, view, schema), k, table)
  {
    var places := Places(s, view, schema);
    assert places[0] == ("temp", "main") && places[1] == (view, schema);
    if ("temp", "main", table) in s.tables {
      k := 0;
    } else if (view, schema, table) in s.tables {
      k := 1;
    } else {
      var onPath := PathFindsOne(s, s.searchPath, table);
      k := onPath + 2;
      forall j: nat | j < k
        ensures (places[j].0, places[j].1, table) !in s.tables
      {
        if j > 1 {
          assert places[j] == s.searchPath[j - 2];
        }
      }
      assert places[k] == s.searchPath[onPath];
    }
  }

  /** A table a stored view can name by its catalog: one found there, the catalog being of an allowed kind and usable, or
      a Glue catalog of the view's own region and endpoint whose id Glue reports or was given. */
  predicate CanBeNamed(s: Session, view: string, catalog: string, schema: string, table: string)
    requires view in s.catalogs && s.catalogs[view].GlueCatalog?
  {
    catalog in s.catalogs && (catalog, schema, table) in s.tables &&
    match s.catalogs[catalog]
    case OtherCatalog(kind, usable, _) => kind in s.allowedKinds && usable
    case GlueCatalog(region, endpoint, _, reports, byAccount, _, _) =>
      region == s.catalogs[view].region && endpoint == s.catalogs[view].endpoint && (reports || byAccount)
  }

  /** What CREATE VIEW asks of a table where it stands: a name with a catalog, or with the alias of one, of a table that
      can be named by it; a schema of the view's own catalog; or a bare name of a CTE in scope, or first found in the
      view's own catalog. */
  ghost predicate CanBeStored(s: Session, view: string, schema: string, n: Name, visible: set<string>)
    requires view in s.catalogs && s.catalogs[view].GlueCatalog?
  {
    match n
    case InCatalog(catalog, inSchema, table) => CanBeNamed(s, view, catalog, inSchema, table)
    case InSchema(x, table) =>
      x in s.catalogs ==> x !in s.ambiguous && CanBeNamed(s, view, x, s.catalogs[x].defaultSchema, table)
    case Bare(table) =>
      || table in visible
      || exists k: nat :: FoundFirst(s, Places(s, view, schema), k, table) && Places(s, view, schema)[k].0 == view
  }

  lemma NamedExactlyWhen(s: Session, view: string, catalog: string, schema: string, table: string)
    requires s.Valid() && view in s.catalogs && s.catalogs[view].GlueCatalog?
    ensures CanBeNamed(s, view, catalog, if schema == "" && catalog in s.catalogs then s.catalogs[catalog].defaultSchema else schema, table)
            <==> match s.LookupTable(catalog, schema, table)
                 case None => false
                 case Some(e) => QualifyEntry(s, view, e.0, e.1, e.2).Some?
  {
  }

  lemma QualifiedExactlyWhen(s: Session, view: string, schema: string, n: Name, visible: set<string>)
    requires s.Valid() && view in s.catalogs && s.catalogs[view].GlueCatalog?
    ensures QualifyName(s, view, schema, n, visible).Some? <==> CanBeStored(s, view, schema, n, visible)
  {
    hide QualifyEntry, CanBeNamed;
    match n
    case InCatalog(catalog, inSchema, table) => NamedExactlyWhen(s, view, catalog, inSchema, table);
    case InSchema(x, table) => NamedExactlyWhen(s, view, x, "", table);
    case Bare(table) =>
      if table !in visible {
        if k: nat :| FoundFirst(s, Places(s, view, schema), k, table) && Places(s, view, schema)[k].0 == view {
          BareMeansTheFirst(s, view, schema, k, table);
          BareIsFound(s, view, schema, table);
        }
        if s.LookupBare(view, schema, table).Some? {
          var k := BareIsFoundFirst(s, view, schema, table);
          BareMeansTheFirst(s, view, schema, k, table);
          BareIsFound(s, view, schema, table);
        }
      }
  }

  /** A table name that names the catalog: c.s.t, or c.t when c is an attached catalog and nothing else. */
  predicate Names(s: Session, n: Name, catalog: string) {
    match n
    case InCatalog(c, _, _) => c == catalog
    case InSchema(x, _) => x == catalog && x in s.catalogs && x !in s.ambiguous
    case Bare(_) => false
  }

  function NoTableNames(s: Session, catalog: string): Asked {
    Asked((q: Query) => true, (t: TableRef) => t.BaseTable? ==> !Names(s, t.name, catalog), (e: Expr) => true)
  }

  /** No column written c.x or longer, and no star leaving out or renaming one. */
  function NoColumnOf(catalog: string): Asked {
    Asked((q: Query) => true, (t: TableRef) => true,
          (e: Expr) => match e
                       case ColumnRef(names) => |names| > 1 ==> names[0] != catalog
                       case Star(qualifiers) => catalog !in qualifiers
                       case _ => true)
  }

  lemma NamedExactlyIn(s: Session, view: string, body: Query, catalog: string)
    ensures catalog in NamedCatalogs(s, view, SitesOf(body, {})) <==> catalog == view || !Everywhere(body, NoTableNames(s, catalog))
  {
    hide Everywhere, SitesOf;
    var p := (site: Site) => site.TableSite? ==> !Names(s, site.name, catalog);
    assert AsksOfSites(NoTableNames(s, catalog), p);
    SitesAreEverywhere(body, {}, NoTableNames(s, catalog), p);
    var sites := SitesOf(body, {});
    if !All(sites, p) {
      var k :| 0 <= k < |sites| && !p(sites[k]);
      assert NamedCatalog(s, sites[k].name).value.value.0 == catalog;
    }
  }

  lemma AllowedExactlyWhen(body: Query, catalogs: set<string>)
    ensures ColumnsAllowed(SitesOf(body, {}), catalogs) <==> forall c | c in catalogs :: Everywhere(body, NoColumnOf(c))
  {
    hide Everywhere, SitesOf;
    var sites := SitesOf(body, {});
    forall c: string
      ensures Everywhere(body, NoColumnOf(c)) <==> forall k | 0 <= k < |sites| && sites[k].ColumnSite? :: c !in sites[k].qualifiers
    {
      var p := (site: Site) => site.ColumnSite? ==> c !in site.qualifiers;
      assert AsksOfSites(NoColumnOf(c), p);
      SitesAreEverywhere(body, {}, NoColumnOf(c), p);
      assert All(sites, p) <==> forall k | 0 <= k < |sites| :: p(sites[k]);
    }
  }

  /** CREATE VIEW accepts a body exactly when everything in it is of a kind a Glue view can store, each table can be
      stored where it stands, and no column is written with the name of the view's catalog or of one a table names:
      those names are not kept. */
  lemma StoredExactlyWhen(s: Session, view: string, schema: string, body: Query)
    requires s.Valid() && view in s.catalogs && s.catalogs[view].GlueCatalog?
    ensures QualifyForStorage(s, view, schema, body).Some? <==>
            && Everywhere(body, Storable())
            && (forall k | 0 <= k < |SitesOf(body, {})| && SitesOf(body, {})[k].TableSite? ::
                  CanBeStored(s, view, schema, SitesOf(body, {})[k].name, SitesOf(body, {})[k].visible))
            && (forall c | c == view || !Everywhere(body, NoTableNames(s, c)) :: Everywhere(body, NoColumnOf(c)))
  {
    hide Everywhere, SitesOf, WalkQuery, NamedCatalogs, ColumnsAllowed, QualifyName, CanBeStored;
    var sites := SitesOf(body, {});
    QueryDecided(body, {}, Qualify(s, view, schema));
    forall k | 0 <= k < |sites| && sites[k].TableSite?
      ensures Qualify(s, view, schema)(sites[k].name, sites[k].visible).Some?
              <==> CanBeStored(s, view, schema, sites[k].name, sites[k].visible)
    {
      QualifiedExactlyWhen(s, view, schema, sites[k].name, sites[k].visible);
    }
    AllowedExactlyWhen(body, NamedCatalogs(s, view, sites));
    forall c: string
      ensures c in NamedCatalogs(s, view, sites) <==> c == view || !Everywhere(body, NoTableNames(s, c))
    {
      NamedExactlyIn(s, view, body, c);
    }
  }

  /** The catalog parts a stored body names tables by. */
  function ReferencedCatalogIds(stored: Query): (ids: set<string>)
    ensures forall id | id in ids :: id != ""
  {
    var sites := SitesOf(stored, {});
    set k | 0 <= k < |sites| && sites[k].TableSite? && sites[k].name.InCatalog? :: sites[k].name.catalog
  }

  function NoTableStoredIn(id: string): Asked {
    Asked((q: Query) => true, (t: TableRef) => t.BaseTable? && t.name.InCatalog? ==> t.name.catalog != id, (e: Expr) => true)
  }

  /** The ids looked for are those the stored body names its tables by. */
  lemma ReferencedExactly(stored: Query, id: string)
    ensures id in ReferencedCatalogIds(stored) <==> !Everywhere(stored, NoTableStoredIn(id))
  {
    hide Everywhere, SitesOf;
    var p := (site: Site) => site.TableSite? && site.name.InCatalog? ==> site.name.catalog != id;
    assert AsksOfSites(NoTableStoredIn(id), p);
    SitesAreEverywhere(stored, {}, NoTableStoredIn(id), p);
    assert All(SitesOf(stored, {}), p) <==> forall k | 0 <= k < |SitesOf(stored, {})| :: p(SitesOf(stored, {})[k]);
  }

  /** An attached catalog can be read for a stored id: another kind when it is usable and the id spells its kind and its
      alias, a Glue catalog when it is of the view's region and endpoint and the session knows its id, reported by Glue
      and fetched or given as the account. */
  predicate ReadFor(s: Session, view: string, alias: string, id: string)
    requires view in s.catalogs && s.catalogs[view].GlueCatalog?
  {
    alias in s.catalogs &&
    match s.catalogs[alias]
    case OtherCatalog(kind, usable, _) => usable && id == "external:" + kind + ":" + alias
    case GlueCatalog(region, endpoint, own, reports, byAccount, fetched, _) =>
      && id == own && (byAccount || (reports && fetched))
      && region == s.catalogs[view].region && endpoint == s.catalogs[view].endpoint
  }

  /** A stored view can be read exactly when every catalog its tables name can be read for. */
  lemma ReadableExactlyWhen(s: Session, view: string, stored: Query, aliases: map<string, string>)
    requires s.Valid() && view in s.catalogs && s.catalogs[view].GlueCatalog? && Everywhere(stored, Storable())
    requires NamesIds(s, view, ReferencedCatalogIds(stored), s.catalogs.Keys, aliases)
    ensures WalkQuery(stored, {}, Resolve(aliases)).Some? <==>
            forall id | !Everywhere(stored, NoTableStoredIn(id)) :: exists a | a in s.catalogs :: ReadFor(s, view, a, id)
  {
    hide StandsFor, ReadFor, SitesOf, Everywhere, WalkQuery;
    var sites := SitesOf(stored, {});
    QueryDecided(stored, {}, Resolve(aliases));
    forall id: string
      ensures id in ReferencedCatalogIds(stored) <==> !Everywhere(stored, NoTableStoredIn(id))
      ensures forall a | a in s.catalogs && id != "" :: StandsFor(s, view, a, id) <==> ReadFor(s, view, a, id)
    {
      ReferencedExactly(stored, id);
      if id != "" {
        StandsInSession(s, view, id);
      }
    }
    if Accepted(sites, Resolve(aliases)) {
      forall id | id in ReferencedCatalogIds(stored)
        ensures exists a | a in s.catalogs :: ReadFor(s, view, a, id)
      {
        var k :| 0 <= k < |sites| && sites[k].TableSite? && sites[k].name.InCatalog? && sites[k].name.catalog == id;
        assert Resolve(aliases)(sites[k].name, sites[k].visible).Some?;
        assert StandsFor(s, view, aliases[id], id);
      }
    }
    if forall id | id in ReferencedCatalogIds(stored) :: exists a | a in s.catalogs :: ReadFor(s, view, a, id) {
      forall k | 0 <= k < |sites| && sites[k].TableSite? && sites[k].name.InCatalog?
        ensures sites[k].name.catalog in aliases
      {
        var id := sites[k].name.catalog;
        assert id in ReferencedCatalogIds(stored);
        var a :| a in s.catalogs && ReadFor(s, view, a, id);
      }
    }
  }

  lemma StandsInSession(s: Session, view: string, id: string)
    requires s.Valid() && view in s.catalogs && s.catalogs[view].GlueCatalog? && id != ""
    ensures forall a | a in s.catalogs :: StandsFor(s, view, a, id) <==> ReadFor(s, view, a, id)
  {
    assert EXTERNAL_PREFIX == "external:";
  }

  /** The aliases found do not depend on the order the databases are looked at. */
  lemma AliasesAreUnique(s: Session, view: string, ids: set<string>, a: map<string, string>, b: map<string, string>)
    requires view in s.catalogs && s.catalogs[view].GlueCatalog?
    requires NamesIds(s, view, ids, s.catalogs.Keys, a) && NamesIds(s, view, ids, s.catalogs.Keys, b)
    ensures a == b
  {
    forall id | id in a
      ensures id in b && b[id] == a[id]
    {
      AtMostTotal(a[id], b[id]);
    }
    forall id | id in b
      ensures id in a
    {
      assert StandsFor(s, view, b[id], id);
    }
  }

  /** The main result: a view stored in one session and read in another, where the Glue catalogs may be attached under
      other names and the search path may differ, reads the tables it was written over, each CTE name the CTE it was. */
  lemma ViewKeepsMeaning(creating: Session, view: string, reading: Session, viewThere: string, schema: string,
                         aliases: map<string, string>, ids: set<string>, body: Query)
    requires creating.Valid() && view in creating.catalogs && creating.catalogs[view].GlueCatalog?
    requires reading.Valid() && viewThere in reading.catalogs && reading.IdentityOf(viewThere) == creating.IdentityOf(view)
    requires schema != "" && QualifyForStorage(creating, view, schema, body).Some?
    requires NamesIds(reading, viewThere, ids, reading.catalogs.Keys, aliases)
    requires WalkQuery(QualifyForStorage(creating, view, schema, body).value, {}, Resolve(aliases)).Some?
    ensures var stored := QualifyForStorage(creating, view, schema, body).value;
            var resolved := WalkQuery(stored, {}, Resolve(aliases)).value;
            && WalkQuery(resolved, {}, Pin(viewThere, schema)).Some?
            && Means(reading, viewThere, schema, WalkQuery(resolved, {}, Pin(viewThere, schema)).value)
               == Means(creating, view, schema, body)
  {
    var stored := WalkQuery(body, {}, Qualify(creating, view, schema)).value;
    var resolved := WalkQuery(stored, {}, Resolve(aliases)).value;
    StoringKeepsMeaning(creating, view, schema, body);
    ResolvingKeepsMeaning(reading, viewThere, schema, ids, aliases, stored);
    QueryAccepted(stored, {}, Resolve(aliases), Pin(viewThere, schema));
    PinningKeepsMeaning(reading, viewThere, schema, resolved);
  }

  /** ... and that is the same CTE: the three passes leave each declaration at a place of its own, and a CTE reference of
      the body means one of them. */
  lemma ViewKeepsCtes(creating: Session, view: string, viewThere: string, schema: string, aliases: map<string, string>, body: Query)
    requires creating.Valid() && view in creating.catalogs && creating.catalogs[view].GlueCatalog?
    requires schema != "" && viewThere != "" && QualifyForStorage(creating, view, schema, body).Some?
    requires forall id | id in aliases :: aliases[id] != ""
    requires WalkQuery(QualifyForStorage(creating, view, schema, body).value, {}, Resolve(aliases)).Some?
    ensures var resolved := WalkQuery(QualifyForStorage(creating, view, schema, body).value, {}, Resolve(aliases)).value;
            && WalkQuery(resolved, {}, Pin(viewThere, schema)).Some?
            && QueryPlaces(WalkQuery(resolved, {}, Pin(viewThere, schema)).value, []) == QueryPlaces(body, [])
            && Distinct(QueryPlaces(body, []))
            && forall m | m in Means(creating, view, schema, body) && m.CteOf? :: m.declaration in QueryPlaces(body, [])
  {
    hide WalkQuery, QueryPlaces, BindQuery;
    var stored := WalkQuery(body, {}, Qualify(creating, view, schema)).value;
    var resolved := WalkQuery(stored, {}, Resolve(aliases)).value;
    CtesAreToldApart(body, Binds(creating, view, schema), Qualify(creating, view, schema));
    QueryPlacesStay(stored, [], {}, Resolve(aliases));
    QueryAccepted(stored, {}, Resolve(aliases), Pin(viewThere, schema));
    QueryPlacesStay(resolved, [], {}, Pin(viewThere, schema));
  }
}
