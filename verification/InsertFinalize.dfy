/** The INSERT's plan and its end: the CASE is built from the partitions Glue lists, and the directories written are
    registered together, or the files are removed again. */
module InsertFinalize {
  import opened Outcomes
  import opened Text
  import opened PartitionValues
  import opened Locations
  import opened LocationIndex
  import opened InsertRouting
  import opened InsertAgreement
  import opened GlueService
  import opened PartitionApi
  import opened ColumnTypes
  import AlterTable

  /** What planning leaves for the copy and for its end. */
  datatype Plan = Plan(cases: seq<Case>, customs: seq<Custom>, plannedLocations: map<Values, string>,
                       partitionDirectories: map<string, Values>)

  /** Later entries do not replace earlier ones. */
  ghost predicate Emplaced(directories: map<string, Values>, location: string, customs: seq<Custom>) {
    && (forall c | c in customs :: location + "/" + c.relative in directories)
    && (forall d | d in directories :: exists c | c in customs :: d == location + "/" + c.relative &&
                                         Target.ValuesAt(customs, c.relative) == Some(directories[d]))
  }

  /** The first location listed for each partition's values. */
  ghost predicate Located(planned: map<Values, string>, partitions: seq<Registered>) {
    && (forall k | 0 <= k < |partitions| :: partitions[k].values in planned)
    && (forall v | v in planned :: exists k | 0 <= k < |partitions| :: FirstOf(partitions, k, v) && partitions[k].location == planned[v])
  }

  predicate FirstOf(partitions: seq<Registered>, k: nat, v: Values)
    requires k < |partitions|
  {
    partitions[k].values == v && forall m | 0 <= m < k :: partitions[m].values != v
  }

  /** A partition as Glue lists it, with the columns it declares. */
  datatype Listed = Listed(values: Values, location: string, columns: seq<SchemaEvolution.Column>)

  /** The partitions as routing sees them, by whether they declare the table's columns. */
  function Compared(columns: seq<SchemaEvolution.Column>, byPosition: bool, listed: seq<Listed>): (r: seq<Registered>)
    ensures |r| == |listed|
    ensures forall k | 0 <= k < |r| :: r[k] == Registered(listed[k].values, listed[k].location, Mismatched(columns, listed[k].columns, byPosition))
  {
    seq(|listed|, k requires 0 <= k < |listed| =>
      Registered(listed[k].values, listed[k].location, Mismatched(columns, listed[k].columns, byPosition)))
  }

  lemma {:induction false} ValuesAtAppended(customs: seq<Custom>, c: Custom, relative: string)
    ensures Target.ValuesAt(customs + [c], relative) ==
            match Target.ValuesAt(customs, relative)
            case Some(values) => Some(values)
            case None => if c.relative == relative then Some(c.values) else None
  {
    if customs != [] {
      assert (customs + [c])[1..] == customs[1..] + [c];
      ValuesAtAppended(customs[1..], c, relative);
    }
  }

  lemma EmplacedNext(directories: map<string, Values>, location: string, customs: seq<Custom>, c: Custom)
    requires Emplaced(directories, location, customs)
    ensures var d := location + "/" + c.relative;
            Emplaced(if d in directories then directories else directories[d := c.values], location, customs + [c])
  {
    var d, all := location + "/" + c.relative, customs + [c];
    var after := if d in directories then directories else directories[d := c.values];
    forall e | e in after
      ensures exists x | x in all :: e == location + "/" + x.relative && Target.ValuesAt(all, x.relative) == Some(after[e])
    {
      if e in directories {
        var x :| x in customs && e == location + "/" + x.relative && Target.ValuesAt(customs, x.relative) == Some(directories[e]);
        ValuesAtAppended(customs, c, x.relative);
        assert x in all;
      } else {
        ValuesAtAppended(customs, c, c.relative);
        Target.ValuesAtIs(customs, c.relative);
        assert c in all;
      }
    }
  }

  /** Builds the plan partition by partition; None when a partition's values can not be read. */
  method CreatePartitionPath(target: Target, columns: seq<SchemaEvolution.Column>, byPosition: bool, listed: seq<Listed>)
    returns (plan: Option<Plan>)
    requires target.Valid()
    ensures plan.Some? <==> target.AllReadable(Compared(columns, byPosition, listed))
    ensures plan.Some? ==> plan.value.cases == target.Cases(Compared(columns, byPosition, listed))
    ensures plan.Some? ==> plan.value.customs == target.Customs(Compared(columns, byPosition, listed))
    ensures plan.Some? ==> Located(plan.value.plannedLocations, Compared(columns, byPosition, listed))
    ensures plan.Some? ==> Emplaced(plan.value.partitionDirectories, target.location, plan.value.customs)
  {
    hide Target.Typed, Target.CaseOf, Target.Cases, Target.Customs, Target.AllReadable, Emplaced, Located, Mismatched;
    ghost var partitions := Compared(columns, byPosition, listed);
    var cases: seq<Case>, customs: seq<Custom> := [], [];
    var planned: map<Values, string>, directories: map<string, Values> := map[], map[];
    NothingEmplaced(target, partitions);
    for k := 0 to |listed|
      invariant target.AllReadable(partitions[..k])
      invariant cases == target.Cases(partitions[..k]) && customs == target.Customs(partitions[..k])
      invariant Located(planned, partitions[..k]) && Emplaced(directories, target.location, customs)
    {
      var mismatch := FindColumnTypeMismatch(columns, listed[k].columns, byPosition);
      var p := Registered(listed[k].values, listed[k].location, mismatch.Some?);
      assert p == partitions[k];
      OnePartitionMore(target, partitions, k);
      if target.Typed(p.values).None? {
        return None;
      }
      planned := Plans(planned, p, partitions, k);
      match target.CaseOf(p)
      case None =>
      case Some(c) =>
        cases := cases + [c];
        if c.result.WriteTo? {
          var custom := Custom(c.result.relative, p.values);
          EmplacedNext(directories, target.location, customs, custom);
          customs := customs + [custom];
          var directory := target.location + "/" + c.result.relative;
          if directory !in directories {
            directories := directories[directory := p.values];
          }
        }
    }
    assert partitions[..|partitions|] == partitions;
    plan := Some(Plan(cases, customs, planned, directories));
  }

  lemma OnePartitionMore(target: Target, partitions: seq<Registered>, k: nat)
    requires target.Valid() && k < |partitions| && target.AllReadable(partitions[..k])
    ensures target.Typed(partitions[k].values).None? ==> !target.AllReadable(partitions)
    ensures target.Typed(partitions[k].values).Some? ==>
              && target.AllReadable(partitions[..k + 1])
              && target.Cases(partitions[..k + 1]) == target.Cases(partitions[..k]) +
                 (match target.CaseOf(partitions[k]) case None => [] case Some(c) => [c])
              && target.Customs(partitions[..k + 1]) == target.Customs(partitions[..k]) +
                 (match target.CaseOf(partitions[k]) case Some(Case(_, WriteTo(relative))) => [Custom(relative, partitions[k].values)] case _ => [])
  {
    hide Target.Typed, Target.CaseOf;
    assert partitions[..k + 1][..k] == partitions[..k];
    assert forall m | 0 <= m < k :: partitions[..k + 1][m] == partitions[..k][m];
  }

  lemma NothingEmplaced(target: Target, partitions: seq<Registered>)
    requires target.Valid()
    ensures Emplaced(map[], target.location, []) && Located(map[], partitions[..0])
    ensures target.AllReadable(partitions[..0]) && target.Cases(partitions[..0]) == [] && target.Customs(partitions[..0]) == []
  {
  }

  method Plans(planned: map<Values, string>, p: Registered, ghost partitions: seq<Registered>, ghost k: nat) returns (r: map<Values, string>)
    requires k < |partitions| && p == partitions[k] && Located(planned, partitions[..k])
    ensures Located(r, partitions[..k + 1])
  {
    r := if p.values in planned then planned else planned[p.values := p.location];
    ghost var before, after := partitions[..k], partitions[..k + 1];
    assert after[k] == p && forall m | 0 <= m < k :: after[m] == before[m];
    forall v | v in r
      ensures exists m | 0 <= m < |after| :: FirstOf(after, m, v) && after[m].location == r[v]
    {
      if v in planned {
        var m :| 0 <= m < |before| && FirstOf(before, m, v) && before[m].location == planned[v];
        assert FirstOf(after, m, v);
      } else {
        assert FirstOf(after, k, v);
      }
    }
  }

  // The end of the statement.

  function DirectoryOf(file: string): string {
    var slash := LastIndexOf(file, '/');
    if slash < 0 then file else file[..slash]
  }

  /** The file is the one of this name in the directory. */
  predicate FileAt(f: string, directory: string, name: string) {
    f == directory + "/" + name && '/' !in name
  }

  /** The directory of a file is what its path has before the name. */
  lemma DirectoryOfName(directory: string, name: string)
    requires '/' !in name
    ensures FileAt(directory + "/" + name, directory, name) && DirectoryOf(directory + "/" + name) == directory
  {
    LastSlash(directory, name);
    assert (directory + "/" + name)[..|directory|] == directory;
  }

  lemma DirectoryOfFile(f: string, directory: string, name: string)
    requires FileAt(f, directory, name)
    ensures DirectoryOf(f) == directory
  {
    hide DirectoryOf;
    DirectoryOfName(directory, name);
  }

  /** The partition a written directory is registered as. */
  function InputOf(target: Target, plan: Plan, directory: string): Option<PartitionInput> {
    if directory in plan.partitionDirectories then Some(PartitionInput(plan.partitionDirectories[directory], directory))
    else match target.DirectoryValues(Split(directory, '/'))
      case None => None
      case Some(values) => Some(PartitionInput(values, directory))
  }

  /** Each directory's partition, once. */
  ghost predicate Collected(target: Target, plan: Plan, files: seq<string>, inputs: seq<PartitionInput>) {
    && (forall f | f in files :: InputOf(target, plan, DirectoryOf(f)).Some? && InputOf(target, plan, DirectoryOf(f)).value in inputs)
    && (forall i | i in inputs :: exists f | f in files :: i.location == DirectoryOf(f) && InputOf(target, plan, i.location) == Some(i))
    && (forall a, b | 0 <= a < b < |inputs| :: inputs[a].location != inputs[b].location)
  }

  method CollectDirectories(target: Target, plan: Plan, files: seq<string>) returns (inputs: Option<seq<PartitionInput>>)
    ensures inputs.Some? <==> forall f | f in files :: InputOf(target, plan, DirectoryOf(f)).Some?
    ensures inputs.Some? ==> Collected(target, plan, files, inputs.value)
  {
    hide InputOf, DirectoryOf;
    var found: seq<PartitionInput>, seen: set<string> := [], {};
    for k := 0 to |files|
      invariant Collected(target, plan, files[..k], found)
      invariant forall i | i in found :: i.location in seen
      invariant forall d | d in seen :: exists i | i in found :: i.location == d
    {
      var directory := DirectoryOf(files[k]);
      var input := InputOf(target, plan, directory);
      assert files[..k + 1] == files[..k] + [files[k]];
      if input.None? {
        assert files[k] in files;
        return None;
      }
      InputIsThere(target, plan, directory);
      if directory !in seen {
        seen := seen + {directory};
        assert forall a | 0 <= a < |found| :: found[a] in found;
        found := found + [input.value];
      } else {
        var i :| i in found && i.location == directory;
        assert i == input.value;
      }
    }
    assert files[..|files|] == files;
    inputs := Some(found);
  }

  lemma InputIsThere(target: Target, plan: Plan, directory: string)
    requires InputOf(target, plan, directory).Some?
    ensures InputOf(target, plan, directory).value.location == directory
  {
  }

  /** A directory the copy was sent to is registered as routing said it would be. */
  lemma RoutedInput(target: Target, plan: Plan, partitions: seq<Registered>, relative: string)
    requires target.Valid() && target.AllReadable(partitions)
    requires Emplaced(plan.partitionDirectories, target.location, target.Customs(partitions))
    ensures InputOf(target, plan, target.location + "/" + relative) ==
            match target.Finalized(partitions, relative)
            case None => None
            case Some(values) => Some(PartitionInput(values, target.location + "/" + relative))
  {
    hide Target.Customs, Target.DirectoryValues;
    var d, customs := target.location + "/" + relative, target.Customs(partitions);
    Target.ValuesAtIs(customs, relative);
    if d in plan.partitionDirectories {
      var c :| c in customs && d == target.location + "/" + c.relative &&
               Target.ValuesAt(customs, c.relative) == Some(plan.partitionDirectories[d]);
      assert c.relative == d[|target.location| + 1..] == relative;
    }
  }

  /** Every file is in the directory of a row that was accepted. */
  ghost predicate AllRouted(target: Target, partitions: seq<Registered>, files: seq<string>) {
    forall f | f in files ::
      exists row, relative, values, name | Wrote(target, partitions, row, relative, values) ::
        FileAt(f, target.location + "/" + relative, name)
  }

  lemma RouteOfFile(target: Target, partitions: seq<Registered>, files: seq<string>, f: string)
    returns (row: seq<Value>, relative: string, values: seq<string>)
    requires AllRouted(target, partitions, files) && f in files
    ensures Wrote(target, partitions, row, relative, values) && DirectoryOf(f) == target.location + "/" + relative
  {
    hide Wrote, FileAt, DirectoryOf;
    var name;
    row, relative, values, name :| Wrote(target, partitions, row, relative, values) &&
      FileAt(f, target.location + "/" + relative, name);
    DirectoryOfFile(f, target.location + "/" + relative, name);
  }

  /** For the files of accepted rows every directory can be registered, each with values of its own. */
  lemma RoutedInputsAreDistinct(target: Target, plan: Plan, partitions: seq<Registered>, files: seq<string>,
                                inputs: seq<PartitionInput>)
    requires target.Valid() && target.AllReadable(partitions) && AllRouted(target, partitions, files)
    requires Emplaced(plan.partitionDirectories, target.location, target.Customs(partitions))
    requires forall i | i in inputs :: exists f | f in files :: i.location == DirectoryOf(f) && InputOf(target, plan, i.location) == Some(i)
    requires forall a, b | 0 <= a < b < |inputs| :: inputs[a].location != inputs[b].location
    ensures forall f | f in files :: InputOf(target, plan, DirectoryOf(f)).Some?
    ensures DistinctInputs(inputs)
  {
    hide Emplaced, AllRouted, InputOf, DirectoryOf, Target.Finalized, Target.Route, Target.AllReadable, Target.Typed;
    forall f | f in files
      ensures InputOf(target, plan, DirectoryOf(f)).Some?
    {
      var row, relative, values := RouteOfFile(target, partitions, files, f);
      RoutedInput(target, plan, partitions, relative);
    }
    forall a, b | 0 <= a < b < |inputs|
      ensures inputs[a].values != inputs[b].values
    {
      assert inputs[a] in inputs && inputs[b] in inputs;
      var r1 := RowOfInput(target, plan, partitions, files, inputs[a]);
      var r2 := RowOfInput(target, plan, partitions, files, inputs[b]);
    }
  }

  lemma RowOfInput(target: Target, plan: Plan, partitions: seq<Registered>, files: seq<string>, input: PartitionInput)
    returns (row: seq<Value>)
    requires target.Valid() && target.AllReadable(partitions) && AllRouted(target, partitions, files)
    requires Emplaced(plan.partitionDirectories, target.location, target.Customs(partitions))
    requires exists f | f in files :: input.location == DirectoryOf(f) && InputOf(target, plan, input.location) == Some(input)
    ensures |row| == |target.types| && target.Typed(input.values) == Some(row) && target.Route(partitions, row).WriteTo?
    ensures input.location == target.location + "/" + target.Route(partitions, row).relative
  {
    hide Emplaced, AllRouted, InputOf, DirectoryOf, Target.Finalized, Target.Route, Target.AllReadable, Target.Typed;
    var f :| f in files && input.location == DirectoryOf(f);
    var r, relative, values := RouteOfFile(target, partitions, files, f);
    RoutedInput(target, plan, partitions, relative);
    target.RoutedRowIsTyped(partitions, r);
    row := r;
  }

  /** The stored files. What a failed removal removed is scripted. */
  class Storage {
    var files: set<string>
    const removes: set<string> -> Option<set<string>>

    constructor (files: set<string>, removes: set<string> -> Option<set<string>>)
      ensures this.files == files && this.removes == removes
    {
      this.files, this.removes := files, removes;
    }

    method RemoveFiles(these: set<string>) returns (ok: bool)
      modifies this
      ensures ok <==> removes(these).None?
      ensures files == old(files) - match removes(these) case None => these case Some(removed) => these * removed
    {
      match removes(these)
      case Some(removed) =>
        files := files - (these * removed);
        ok := false;
      case None =>
        files := files - these;
        ok := true;
    }
  }

  /** Glue was seen to have the partition, or was planned to, at the place written to. */
  ghost predicate Agrees(history: seq<Partitions>, since: nat, planned: map<Values, string>, a: PartitionInput) {
    if a.values in planned then ComparableLocation(planned[a.values]) == ComparableLocation(a.location)
    else exists n | since <= n < |history| :: a.values in history[n] &&
           ComparableLocation(history[n][a.values]) == ComparableLocation(a.location)
  }

  /** It was planned to be elsewhere, or Glue was seen to have it elsewhere, or not to have it. */
  ghost predicate Elsewhere(history: seq<Partitions>, since: nat, planned: map<Values, string>, a: PartitionInput) {
    if a.values in planned then ComparableLocation(planned[a.values]) != ComparableLocation(a.location)
    else exists n | since <= n < |history| :: a.values in history[n] ==>
           ComparableLocation(history[n][a.values]) != ComparableLocation(a.location)
  }

  /** Existing partitions must be where the files were written: compared with where the plan saw them, or looked up. */
  method CheckExistingPartitionLocations(server: GlueServer, planned: map<Values, string>, existing: seq<PartitionInput>)
    returns (ok: bool)
    modifies server`partitions, server`calls, server`history
    ensures old(server.history) <= server.history && old(server.calls) <= server.calls
    ensures ok ==> forall a | a in existing :: Agrees(server.history, |old(server.history)|, planned, a)
    ensures !ok ==> server.Troubled(old(server.calls), server.calls) ||
                    exists a :: a in existing && Elsewhere(server.history, |old(server.history)|, planned, a)
    ensures Spares(server, old(server.calls), server.calls, old(server.partitions), server.partitions, [])
    ensures SparesAll(server, old(server.calls), server.calls, old(server.partitions), server.partitions, server.history, |old(server.history)|)
    ensures server.Quiet() ==> server.partitions == old(server.partitions)
  {
    hide ComparableLocation, Spares, SparesAll;
    NothingDone(server, server.calls, server.partitions, []);
    SparesFirst(server, server.calls, server.calls, server.partitions, server.partitions, server.history);
    var unplanned: seq<PartitionInput>, values: seq<Values> := [], [];
    for k := 0 to |existing|
      invariant |unplanned| == |values| && forall m | 0 <= m < |values| :: values[m] == unplanned[m].values && values[m] !in planned
      invariant forall m | 0 <= m < |unplanned| :: unplanned[m] in existing
      invariant forall m | 0 <= m < k :: existing[m] in unplanned || (existing[m].values in planned &&
                  ComparableLocation(planned[existing[m].values]) == ComparableLocation(existing[m].location))
    {
      var a := existing[k];
      if a.values in planned {
        if ComparableLocation(planned[a.values]) != ComparableLocation(a.location) {
          assert a in existing && Elsewhere(server.history, |old(server.history)|, planned, a);
          return false;
        }
      } else {
        unplanned, values := unplanned + [a], values + [a.values];
      }
    }
    if unplanned == [] {
      return true;
    }
    var locations := PartitionLocations(server, values);
    if locations.None? {
      return false;
    }
    ghost var since := |old(server.history)|;
    for k := 0 to |unplanned|
      invariant forall m | 0 <= m < k :: Agrees(server.history, since, planned, unplanned[m])
    {
      var a := unplanned[k];
      assert Seen(server.history, since, values[k], PartitionApi.Found(locations.value, values[k]));
      if a.values !in locations.value || ComparableLocation(locations.value[a.values]) != ComparableLocation(a.location) {
        assert Elsewhere(server.history, since, planned, a);
        return false;
      }
    }
    ok := true;
  }

  datatype Outcome = Done | RolledBack | NotRemoved | NotADirectory

  /** In the end the partition is in Glue at the directory, or was planned to be there, unless another client removed it. */
  ghost predicate Settled(server: GlueServer, from: nat, to: nat, now: Partitions, planned: map<Values, string>, input: PartitionInput) {
    var v, there := input.values, ComparableLocation(input.location);
    || server.RemovedBetween(from, to, v)
    || (v in now && (ComparableLocation(now[v]) == there || (v in planned && ComparableLocation(planned[v]) == there)))
  }

  /** The partition was planned to be elsewhere; or it was not planned, and is elsewhere in the end or was removed by
      another client. */
  ghost predicate Misplaced(server: GlueServer, from: nat, to: nat, now: Partitions, planned: map<Values, string>, input: PartitionInput) {
    var v, there := input.values, ComparableLocation(input.location);
    if v in planned then ComparableLocation(planned[v]) != there
    else server.RemovedBetween(from, to, v) || (v in now && ComparableLocation(now[v]) != there)
  }

  /** What the lookups saw of a partition that was there holds in the end, unless another client removed it. */
  lemma SeenInTheEnd(server: GlueServer, from: nat, middle: nat, to: nat, was: Partitions, now: Partitions, history: seq<Partitions>,
                     since: nat, planned: map<Values, string>, a: PartitionInput)
    requires from <= middle <= to && Present(server, from, middle, was, a.values)
    requires Spares(server, middle, to, was, now, []) && SparesAll(server, middle, to, was, now, history, since)
    ensures Agrees(history, since, planned, a) ==> Settled(server, from, to, now, planned, a)
    ensures Elsewhere(history, since, planned, a) ==> Misplaced(server, from, to, now, planned, a)
  {
    hide ComparableLocation;
    Within(server, from, middle, to);
  }

  lemma OursInTheEnd(server: GlueServer, from: nat, middle: nat, to: nat, was: Partitions, now: Partitions,
                     planned: map<Values, string>, a: PartitionInput)
    requires from <= middle <= to && Ours(server, from, middle, was, a) && Spares(server, middle, to, was, now, [])
    ensures Settled(server, from, to, now, planned, a)
  {
    hide ComparableLocation;
    Within(server, from, middle, to);
  }

  /** The lookups change nothing in what the creates left. */
  lemma SurvivesLookups(server: GlueServer, from: nat, middle: nat, to: nat, start: Partitions, was: Partitions, now: Partitions,
                        inputs: seq<PartitionInput>)
    requires from <= middle <= to && Survives(server, from, middle, start, was, inputs) && Spares(server, middle, to, was, now, [])
    ensures Survives(server, from, to, start, now, inputs)
  {
    Within(server, from, middle, to);
  }

  lemma WasThereLater(history: seq<Partitions>, later: seq<Partitions>, since: nat, v: Values)
    requires history <= later && WasThere(history, since, v)
    ensures WasThere(later, since, v)
  {
    var n :| since <= n < |history| && v in history[n];
    assert v in later[n];
  }

  /** The creates, and the check of those that existed already. */
  method RegisterAll(server: GlueServer, planned: map<Values, string>, inputs: seq<PartitionInput>) returns (ok: bool)
    requires server.Valid()
    modifies server`partitions, server`calls, server`history
    ensures old(server.calls) <= server.calls
    ensures ok && DistinctInputs(inputs) ==> forall i | i in inputs ::
              Settled(server, old(server.calls), server.calls, server.partitions, planned, i)
    ensures ok && DistinctInputs(inputs) && server.Quiet() ==> server.partitions == AlterTable.Created(old(server.partitions), inputs)
    ensures !ok ==> server.Troubled(old(server.calls), server.calls) ||
                    exists i :: i in inputs && Misplaced(server, old(server.calls), server.calls, server.partitions, planned, i) &&
                      (DistinctInputs(inputs) ==> WasThere(server.history, |old(server.history)|, i.values))
    ensures Survives(server, old(server.calls), server.calls, old(server.partitions), server.partitions, inputs)
  {
    hide Ours, Survives, DistinctInputs, Spares, SparesAll, Settled, Misplaced, Agrees, Elsewhere, Present, WasThere, AlterTable.Created;
    ghost var from, start, since := server.calls, server.partitions, |server.history|;
    var existing;
    ok, existing := BatchCreatePartitions(server, inputs);
    if !ok {
      return;
    }
    ghost var middle, was, seen := server.calls, server.partitions, server.history;
    if DistinctInputs(inputs) && server.Quiet() {
      AlterTable.QuietCreated(server, from, middle, start, was, inputs);
    }
    ok := CheckExistingPartitionLocations(server, planned, existing);
    SurvivesLookups(server, from, middle, server.calls, start, was, server.partitions, inputs);
    forall a | a in inputs
      ensures Agrees(server.history, |seen|, planned, a) ==> Settled(server, from, server.calls, server.partitions, planned, a)
      ensures Elsewhere(server.history, |seen|, planned, a) ==> Misplaced(server, from, server.calls, server.partitions, planned, a)
    {
      var k :| 0 <= k < |inputs| && inputs[k] == a;
      SeenInTheEnd(server, from, middle, server.calls, was, server.partitions, server.history, |seen|, planned, a);
    }
    if ok && DistinctInputs(inputs) {
      forall i | i in inputs
        ensures Settled(server, from, server.calls, server.partitions, planned, i)
      {
        var k :| 0 <= k < |inputs| && inputs[k] == i;
        if inputs[k] !in existing {
          OursInTheEnd(server, from, middle, server.calls, was, server.partitions, planned, i);
        }
      }
    }
    if !ok && !server.Troubled(middle, server.calls) {
      var a :| a in existing && Elsewhere(server.history, |seen|, planned, a);
      if DistinctInputs(inputs) {
        WasThereLater(seen, server.history, since, a.values);
      }
      assert a in inputs;
    } else if !ok {
      TroubledWithin(server, from, middle, server.calls, server.calls);
    }
  }

  /** All or nothing on files: a statement that ends normally left every written directory where its partition is in the
      end, and one that fails removed every file it wrote or says that it could not, for a fault of Glue or for a
      partition that Glue had and that is elsewhere. */
  method Finalize(server: GlueServer, storage: Storage, target: Target, plan: Plan, written: seq<string>)
    returns (outcome: Outcome, ghost inputs: seq<PartitionInput>)
    requires server.Valid()
    modifies server`partitions, server`calls, server`history, storage
    ensures old(server.calls) <= server.calls
    ensures outcome == NotADirectory <==> exists f | f in written :: InputOf(target, plan, DirectoryOf(f)).None?
    ensures outcome == NotADirectory ==> inputs == []
    ensures outcome != NotADirectory ==> Collected(target, plan, written, inputs)
    ensures outcome == Done || outcome == NotADirectory ==> storage.files == old(storage.files)
    ensures outcome == RolledBack ==> storage.files == old(storage.files) - set f | f in written
    ensures outcome == NotRemoved ==> storage.removes(set f | f in written).Some?
    ensures outcome == RolledBack || outcome == NotRemoved ==>
              server.Troubled(old(server.calls), server.calls) ||
              exists i :: i in inputs && Misplaced(server, old(server.calls), server.calls, server.partitions, plan.plannedLocations, i) &&
                (DistinctInputs(inputs) ==> WasThere(server.history, |old(server.history)|, i.values))
    ensures outcome == Done && DistinctInputs(inputs) ==> forall i | i in inputs ::
              Settled(server, old(server.calls), server.calls, server.partitions, plan.plannedLocations, i)
    ensures outcome == Done && DistinctInputs(inputs) && server.Quiet() ==>
              server.partitions == AlterTable.Created(old(server.partitions), inputs)
    ensures Survives(server, old(server.calls), server.calls, old(server.partitions), server.partitions, inputs)
  {
    hide InputOf, DirectoryOf, Settled, Misplaced, WasThere, DistinctInputs;
    inputs := [];
    if written == [] {
      return Done, [];
    }
    var toRegister := CollectDirectories(target, plan, written);
    if toRegister.None? {
      return NotADirectory, [];
    }
    inputs := toRegister.value;
    var ok := RegisterAll(server, plan.plannedLocations, toRegister.value);
    if ok {
      return Done, inputs;
    }
    ok := storage.RemoveFiles(set f | f in written);
    outcome := if ok then RolledBack else NotRemoved;
  }

  /** For the files of accepted rows: every directory can be registered, each as values of its own, so that what Finalize
      promises holds without further conditions. */
  method FinalizeRouted(server: GlueServer, storage: Storage, target: Target, plan: Plan, ghost partitions: seq<Registered>,
                        written: seq<string>)
    returns (outcome: Outcome, ghost inputs: seq<PartitionInput>)
    requires server.Valid() && target.Valid() && target.AllReadable(partitions) && AllRouted(target, partitions, written)
    requires Emplaced(plan.partitionDirectories, target.location, target.Customs(partitions))
    modifies server`partitions, server`calls, server`history, storage
    ensures old(server.calls) <= server.calls
    ensures outcome == Done || outcome == RolledBack || outcome == NotRemoved
    ensures Collected(target, plan, written, inputs) && DistinctInputs(inputs)
    ensures outcome == Done ==> storage.files == old(storage.files)
    ensures outcome == RolledBack ==> storage.files == old(storage.files) - set f | f in written
    ensures outcome == NotRemoved ==> storage.removes(set f | f in written).Some?
    ensures outcome == Done ==> forall i | i in inputs ::
              Settled(server, old(server.calls), server.calls, server.partitions, plan.plannedLocations, i)
    ensures outcome == Done && server.Quiet() ==> server.partitions == AlterTable.Created(old(server.partitions), inputs)
    ensures outcome != Done ==>
              server.Troubled(old(server.calls), server.calls) ||
              exists i :: i in inputs && Misplaced(server, old(server.calls), server.calls, server.partitions, plan.plannedLocations, i) &&
                WasThere(server.history, |old(server.history)|, i.values)
    ensures Survives(server, old(server.calls), server.calls, old(server.partitions), server.partitions, inputs)
  {
    hide Emplaced, AllRouted, Settled, Misplaced, WasThere, InputOf, DirectoryOf, DistinctInputs, Survives;
    RoutedInputsAreDistinct(target, plan, partitions, written, []);
    outcome, inputs := Finalize(server, storage, target, plan, written);
    RoutedInputsAreDistinct(target, plan, partitions, written, inputs);
  }
}
