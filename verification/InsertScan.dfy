/** From an INSERT to a scan: what the statement registers is what its rows ask for, and the scan's listings find each
    row's file for the row's partition. */
module InsertScan {
  import opened Outcomes
  import opened Text
  import opened PartitionValues
  import opened Locations
  import opened ListingSpec
  import ListingPlan
  import opened ListingRefinement
  import opened LocationIndex
  import opened InsertRouting
  import opened InsertAgreement
  import opened GlueService
  import opened InsertFinalize
  import AlterTable

  /** The file is in the directory of an accepted row. */
  ghost predicate FromRow(target: Target, partitions: seq<Registered>, rows: seq<seq<Value>>, f: string) {
    exists r, relative, values, name | 0 <= r < |rows| && Wrote(target, partitions, rows[r], relative, values) ::
      FileAt(f, target.location + "/" + relative, name)
  }

  /** The copy wrote files in the directories of the accepted rows, of each of them, and in no others. */
  ghost predicate FilesOf(target: Target, partitions: seq<Registered>, rows: seq<seq<Value>>, written: seq<string>) {
    && (forall f {:trigger FromRow(target, partitions, rows, f)} | f in written :: FromRow(target, partitions, rows, f))
    && (forall r, relative, values | 0 <= r < |rows| && Wrote(target, partitions, rows[r], relative, values) ::
          exists f, name | f in written :: FileAt(f, target.location + "/" + relative, name))
  }

  lemma FilesAreRouted(target: Target, partitions: seq<Registered>, rows: seq<seq<Value>>, written: seq<string>)
    requires FilesOf(target, partitions, rows, written)
    ensures AllRouted(target, partitions, written)
  {
    hide Wrote, FileAt;
    forall f | f in written
      ensures exists row, relative, values, name | Wrote(target, partitions, row, relative, values) ::
                FileAt(f, target.location + "/" + relative, name)
    {
      assert FromRow(target, partitions, rows, f);
      var r, relative, values, name :| 0 <= r < |rows| && Wrote(target, partitions, rows[r], relative, values) &&
        FileAt(f, target.location + "/" + relative, name);
    }
  }

  /** The partitions a statement adds: those it asks for with values that none has. */
  function Added(partitions: seq<Registered>, inputs: seq<PartitionInput>): seq<Registered> {
    if inputs == [] then []
    else
      var last := inputs[|inputs| - 1];
      Added(partitions, inputs[..|inputs| - 1]) +
      if HasValues(partitions, last.values) then [] else [Registered(last.values, last.location, false)]
  }

  lemma {:induction false} AddedAre(partitions: seq<Registered>, inputs: seq<PartitionInput>)
    requires DistinctInputs(inputs)
    ensures var added := Added(partitions, inputs);
            && (forall a | a in added :: !HasValues(partitions, a.values) && PartitionInput(a.values, a.location) in inputs && !a.mismatch)
            && (forall i | i in inputs && !HasValues(partitions, i.values) :: Registered(i.values, i.location, false) in added)
            && (forall j, k | 0 <= j < k < |added| :: added[j].values != added[k].values)
  {
    hide HasValues;
    if inputs != [] {
      var front, last := inputs[..|inputs| - 1], inputs[|inputs| - 1];
      assert inputs == front + [last];
      assert forall i | 0 <= i < |front| :: front[i] == inputs[i];
      AddedAre(partitions, front);
      forall a | a in Added(partitions, front)
        ensures a.values != last.values
      {
        var i :| 0 <= i < |front| && front[i] == PartitionInput(a.values, a.location);
      }
    }
  }

  /** What is registered for the directories of accepted rows is one partition for each new values the rows have. */
  lemma RowsAreRegistered(target: Target, plan: Plan, partitions: seq<Registered>, rows: seq<seq<Value>>, written: seq<string>,
                          inputs: seq<PartitionInput>)
    requires target.Planned(partitions) && Emplaced(plan.partitionDirectories, target.location, target.Customs(partitions))
    requires FilesOf(target, partitions, rows, written) && Collected(target, plan, written, inputs) && DistinctInputs(inputs)
    ensures RegisteredFor(target, partitions, rows, Added(partitions, inputs))
  {
    hide FilesOf, Collected, Wrote, Emplaced, InputOf, DirectoryOf, Target.Planned, Target.AllReadable, DistinctInputs, HasValues;
    var added := Added(partitions, inputs);
    AddedAre(partitions, inputs);
    forall k | 0 <= k < |added|
      ensures AddedFor(target, partitions, rows, added[k])
    {
      InputIsAdded(target, plan, partitions, rows, written, inputs, added[k]);
    }
    forall r, relative, values | 0 <= r < |rows| && Wrote(target, partitions, rows[r], relative, values)
      ensures HasValues(partitions, values) || HasValues(added, values)
    {
      RowIsInput(target, plan, partitions, rows, written, inputs, r, relative, values);
      if !HasValues(partitions, values) {
        var a := Registered(values, target.location + "/" + relative, false);
        assert PartitionInput(values, target.location + "/" + relative) in inputs && a in added;
        ValuesOf(added, a);
      }
    }
  }

  lemma ValuesOf(added: seq<Registered>, a: Registered)
    requires a in added
    ensures HasValues(added, a.values)
  {
  }

  lemma PlannedParts(target: Target, partitions: seq<Registered>)
    requires target.Planned(partitions)
    ensures target.Valid() && target.AllReadable(partitions)
  {
  }

  lemma InputOfRow(target: Target, plan: Plan, partitions: seq<Registered>, row: seq<Value>, relative: string, values: seq<string>)
    requires target.Planned(partitions) && Emplaced(plan.partitionDirectories, target.location, target.Customs(partitions))
    requires Wrote(target, partitions, row, relative, values)
    ensures InputOf(target, plan, target.location + "/" + relative) == Some(PartitionInput(values, target.location + "/" + relative))
  {
    hide Emplaced, InputOf, Target.Planned, Target.AllReadable, Target.Route, Target.Finalized;
    PlannedParts(target, partitions);
    RoutedInput(target, plan, partitions, relative);
  }

  lemma InputIsAdded(target: Target, plan: Plan, partitions: seq<Registered>, rows: seq<seq<Value>>, written: seq<string>,
                     inputs: seq<PartitionInput>, a: Registered)
    requires target.Planned(partitions) && Emplaced(plan.partitionDirectories, target.location, target.Customs(partitions))
    requires FilesOf(target, partitions, rows, written) && Collected(target, plan, written, inputs)
    requires !HasValues(partitions, a.values) && PartitionInput(a.values, a.location) in inputs
    ensures AddedFor(target, partitions, rows, a)
  {
    hide Emplaced, InputOf, DirectoryOf, FilesOf, Collected, Target.Planned, HasValues, AddedFor, Wrote;
    var input := PartitionInput(a.values, a.location);
    var f := FileOfInput(target, plan, written, inputs, input);
    var r, relative, values := RowOfFile(target, partitions, rows, written, f);
    InputOfRow(target, plan, partitions, rows[r], relative, values);
    AddedForRow(target, partitions, rows, r, relative, a);
  }

  lemma FileOfInput(target: Target, plan: Plan, written: seq<string>, inputs: seq<PartitionInput>, input: PartitionInput)
    returns (f: string)
    requires Collected(target, plan, written, inputs) && input in inputs
    ensures f in written && input.location == DirectoryOf(f) && InputOf(target, plan, input.location) == Some(input)
  {
    hide InputOf, DirectoryOf;
    f :| f in written && input.location == DirectoryOf(f) && InputOf(target, plan, input.location) == Some(input);
  }

  lemma RowOfFile(target: Target, partitions: seq<Registered>, rows: seq<seq<Value>>, written: seq<string>, f: string)
    returns (r: nat, relative: string, values: seq<string>)
    requires FilesOf(target, partitions, rows, written) && f in written
    ensures r < |rows| && Wrote(target, partitions, rows[r], relative, values) && DirectoryOf(f) == target.location + "/" + relative
  {
    hide Wrote, FileAt, DirectoryOf;
    assert FromRow(target, partitions, rows, f);
    var name;
    r, relative, values, name :| r < |rows| && Wrote(target, partitions, rows[r], relative, values) &&
      FileAt(f, target.location + "/" + relative, name);
    DirectoryOfFile(f, target.location + "/" + relative, name);
  }

  lemma AddedForRow(target: Target, partitions: seq<Registered>, rows: seq<seq<Value>>, r: nat, relative: string, a: Registered)
    requires r < |rows| && Wrote(target, partitions, rows[r], relative, a.values) && a.location == target.location + "/" + relative
    requires !HasValues(partitions, a.values)
    ensures AddedFor(target, partitions, rows, a)
  {
    hide Wrote;
  }

  lemma FileOfRow(target: Target, partitions: seq<Registered>, rows: seq<seq<Value>>, written: seq<string>, r: nat,
                  relative: string, values: seq<string>)
    returns (f: string)
    requires FilesOf(target, partitions, rows, written)
    requires r < |rows| && Wrote(target, partitions, rows[r], relative, values)
    ensures f in written && DirectoryOf(f) == target.location + "/" + relative
  {
    hide Wrote, FileAt, DirectoryOf;
    var name;
    f, name :| f in written && FileAt(f, target.location + "/" + relative, name);
    DirectoryOfFile(f, target.location + "/" + relative, name);
  }

  lemma RowIsInput(target: Target, plan: Plan, partitions: seq<Registered>, rows: seq<seq<Value>>, written: seq<string>,
                   inputs: seq<PartitionInput>, r: nat, relative: string, values: seq<string>)
    requires target.Planned(partitions) && Emplaced(plan.partitionDirectories, target.location, target.Customs(partitions))
    requires FilesOf(target, partitions, rows, written) && Collected(target, plan, written, inputs)
    requires r < |rows| && Wrote(target, partitions, rows[r], relative, values)
    ensures PartitionInput(values, target.location + "/" + relative) in inputs
  {
    hide FilesOf, Emplaced, InputOf, DirectoryOf, Target.Planned, Target.AllReadable, Target.Route, Target.Finalized, Wrote;
    var f := FileOfRow(target, partitions, rows, written, r, relative, values);
    InputOfRow(target, plan, partitions, rows[r], relative, values);
  }

  /** Glue has these partitions, one for each values. */
  ghost predicate InGlue(glue: Partitions, registry: seq<Registered>) {
    && (forall v :: v in glue <==> HasValues(registry, v))
    && (forall k | 0 <= k < |registry| :: registry[k].values in glue && glue[registry[k].values] == registry[k].location)
  }

  lemma CreatedIsInGlue(glue: Partitions, partitions: seq<Registered>, inputs: seq<PartitionInput>)
    requires InGlue(glue, partitions) && DistinctInputs(inputs)
    ensures InGlue(AlterTable.Created(glue, inputs), partitions + Added(partitions, inputs))
  {
    hide AlterTable.Created, DistinctInputs;
    var after, added := AlterTable.Created(glue, inputs), Added(partitions, inputs);
    var registry := partitions + added;
    AlterTable.CreatedHas(glue, inputs);
    AddedAre(partitions, inputs);
    forall a | a in added
      ensures a.values in after && after[a.values] == a.location
    {
      var k :| 0 <= k < |inputs| && inputs[k] == PartitionInput(a.values, a.location);
      AlterTable.OneLocation(inputs, a.values, a.location, after[a.values]);
    }
    forall v | v in after
      ensures HasValues(registry, v)
    {
      if v in glue {
        var k :| 0 <= k < |partitions| && partitions[k].values == v;
        assert registry[k].values == v;
      } else {
        var a := Registered(v, after[v], false);
        assert a in added && a in registry;
      }
    }
    forall k | 0 <= k < |registry|
      ensures registry[k].values in after && after[registry[k].values] == registry[k].location
    {
      assert k >= |partitions| ==> registry[k] == added[k - |partitions|];
    }
  }

  /** The end of an INSERT whose copy wrote the files of its accepted rows: when it ends normally the partitions are
      those before and one for each new values; and that is what Glue has when no other client writes. */
  method FinalizeRows(server: GlueServer, storage: Storage, target: Target, plan: Plan, ghost partitions: seq<Registered>,
                      ghost rows: seq<seq<Value>>, written: seq<string>)
    returns (outcome: Outcome, ghost inputs: seq<PartitionInput>)
    requires server.Valid() && target.Planned(partitions) && FilesOf(target, partitions, rows, written)
    requires Emplaced(plan.partitionDirectories, target.location, target.Customs(partitions))
    modifies server`partitions, server`calls, server`history, storage
    ensures outcome != NotADirectory && Collected(target, plan, written, inputs) && DistinctInputs(inputs)
    ensures RegisteredFor(target, partitions, rows, Added(partitions, inputs))
    ensures outcome == Done ==> storage.files == old(storage.files)
    ensures outcome == Done && server.Quiet() && InGlue(old(server.partitions), partitions) ==>
              InGlue(server.partitions, partitions + Added(partitions, inputs))
  {
    hide FilesOf, Emplaced, Collected, DistinctInputs, RegisteredFor, InGlue, AllRouted, Target.NoneShared, AlterTable.Created;
    FilesAreRouted(target, partitions, rows, written);
    ghost var before := server.partitions;
    outcome, inputs := FinalizeRouted(server, storage, target, plan, partitions, written);
    RowsAreRegistered(target, plan, partitions, rows, written, inputs);
    if InGlue(before, partitions) {
      CreatedIsInGlue(before, partitions, inputs);
    }
  }

  /** A row's file as a stored object, and the partition it belongs to. */
  lemma RowHasOwner(target: Target, partitions: seq<Registered>, rows: seq<seq<Value>>, added: seq<Registered>, r: nat, name: string,
                    o: Object)
    returns (i: nat)
    requires target.Writable(partitions) && RegisteredFor(target, partitions, rows, added)
    requires r < |rows| && target.IsRow(rows[r]) && target.Route(partitions, rows[r]).WriteTo?
    requires '/' !in name && name != "" && name[0] != '_' && name[0] != '.'
    requires (|name| < 9 || name[|name| - 9..] != "_$folder$") && (o.size == None || o.size.value > 0)
    requires o.key == NormalScheme(target.location + "/" + target.Route(partitions, rows[r]).relative + "/" + name)
    ensures var registry, locs := partitions + added, Locs(Scanned(partitions + added));
            && i < |registry| && target.Typed(registry[i].values) == Some(rows[r])
            && Owns(locs, i, ComparableLocation(o.key)) && Data(locs[i], o)
            && forall j: nat | Owns(locs, j, ComparableLocation(o.key)) :: j == i
  {
    hide ComparableLocation, NormalScheme, TrimEnd, Target.Route, Target.Finalized, Target.Typed, Target.HivePath, Locs, Visible, RegisteredFor;
    var relative := target.Route(partitions, rows[r]).relative;
    target.RoutedRowIsRegistered(partitions, rows[r]);
    var values := target.Finalized(partitions, relative).value;
    var registry, directory := partitions + added, target.location + "/" + relative;
    var locs := Locs(Scanned(registry));
    i := EntryOf(target, partitions, rows, added, r, relative, values);
    KeyOfFile(directory, name, o.key);
    OwnerOfFile(registry, i, directory, name);
    VisibleName(name);
    SharingStaysFree(target, partitions, rows, added);
    var key := o.key;
    assert key[..|locs[i]| + 1] == locs[i] + "/" && key[|locs[i]| + 1..] == name;
    forall j: nat | Owns(locs, j, ComparableLocation(o.key))
      ensures j == i
    {
      OwnersShareLocation(locs, i, j, ComparableLocation(o.key));
      InsertAgreement.Apart(target, registry, i, j);
    }
  }

  lemma KeyOfFile(directory: string, name: string, key: string)
    requires Trimmed(directory) == directory && name != "" && '/' !in name && key == NormalScheme(directory + "/" + name)
    ensures key == ComparableLocation(directory) + "/" + name
    ensures ComparableLocation(key) == ComparableLocation(directory + "/" + name)
  {
    hide NormalScheme, TrimEnd;
    var child := "/" + name;
    assert name[0] in name && name[|name| - 1] in name;
    assert directory + "/" + name == directory + child && NormalScheme(directory) + "/" + name == NormalScheme(directory) + child;
    Target.ChildNormal(directory, child);
    Target.PlainIsTrimmed(directory, name);
    Target.ComparableTwice(directory + "/" + name);
  }

  /** The main result, from the rows to the scan: when the INSERT's partitions are in Glue as its end registers them, the
      planned listings find the file of each accepted row for exactly one partition, whose typed values are the row's,
      exactly when the scan reads that partition and, if it is listed with the table's root, sees it from there. */
  lemma WrittenRowIsRead(target: Target, plan: Plan, partitions: seq<Registered>, rows: seq<seq<Value>>, written: seq<string>,
                         inputs: seq<PartitionInput>, glue: Partitions, r: nat, f: string, name: string, objects: seq<Object>, o: Object,
                         root: string, read: seq<nat>, together: nat, threshold: Option<nat>)
    returns (i: nat)
    requires target.Writable(partitions) && Emplaced(plan.partitionDirectories, target.location, target.Customs(partitions))
    requires FilesOf(target, partitions, rows, written) && Collected(target, plan, written, inputs) && DistinctInputs(inputs)
    requires InGlue(glue, partitions) && r < |rows| && target.IsRow(rows[r]) && target.Route(partitions, rows[r]).WriteTo?
    requires f in written && f == target.location + "/" + target.Route(partitions, rows[r]).relative + "/" + name
    requires '/' !in name && name != "" && name[0] != '_' && name[0] != '.' && (|name| < 9 || name[|name| - 9..] != "_$folder$")
    requires Canonical(objects) && o in objects && o.key == NormalScheme(f) && (o.size == None || o.size.value > 0)
    requires Indexes(Locs(Scanned(partitions + Added(partitions, inputs))), read) && together > 0
    ensures var registry := partitions + Added(partitions, inputs);
            var ps := Scanned(registry);
            var jobs := ListingPlan.Plan(Locs(ps), Spelled(ps), root, read, together, threshold);
            && InGlue(AlterTable.Created(glue, inputs), registry)
            && i < |registry| && target.Typed(registry[i].values) == Some(rows[r]) && JobIndexes(Locs(ps), jobs)
            && forall j: nat :: (o.key, j) in AllFound(Locs(ps), root, objects, jobs) <==>
                 j == i && i in read && SeenFromRoot(Locs(ps), root, jobs, i)
  {
    hide *;
    WritableIsPlanned(target, partitions);
    RowsAreRegistered(target, plan, partitions, rows, written, inputs);
    CreatedIsInGlue(glue, partitions, inputs);
    i := RowHasOwner(target, partitions, rows, Added(partitions, inputs), r, name, o);
    OwnedIsFound(Scanned(partitions + Added(partitions, inputs)), root, objects, read, together, threshold, o, i);
  }

  lemma OwnedIsFound(ps: seq<Partition>, root: string, objects: seq<Object>, read: seq<nat>, together: nat, threshold: Option<nat>,
                     o: Object, i: nat)
    requires Indexes(Locs(ps), read) && together > 0 && Canonical(objects) && o in objects && i < |ps|
    requires Owns(Locs(ps), i, ComparableLocation(o.key)) && Data(Locs(ps)[i], o)
    requires forall k: nat | Owns(Locs(ps), k, ComparableLocation(o.key)) :: k == i
    ensures var jobs := ListingPlan.Plan(Locs(ps), Spelled(ps), root, read, together, threshold);
            && JobIndexes(Locs(ps), jobs)
            && forall j: nat :: (o.key, j) in AllFound(Locs(ps), root, objects, jobs) <==>
                 j == i && i in read && SeenFromRoot(Locs(ps), root, jobs, i)
  {
    hide ListingPlan.Plan, AllFound, Owns, Data, SeenFromRoot, Canonical, ComparableLocation, Locs, Spelled;
    forall j: nat
      ensures var jobs := ListingPlan.Plan(Locs(ps), Spelled(ps), root, read, together, threshold);
              JobIndexes(Locs(ps), jobs) && ((o.key, j) in AllFound(Locs(ps), root, objects, jobs) <==>
                j == i && i in read && SeenFromRoot(Locs(ps), root, jobs, i))
    {
      FileIsFoundExactlyWhen(Locs(ps), Spelled(ps), root, objects, read, together, threshold, o, i, j);
    }
    FileIsFoundExactlyWhen(Locs(ps), Spelled(ps), root, objects, read, together, threshold, o, i, 0);
  }

  lemma WritableIsPlanned(target: Target, partitions: seq<Registered>)
    requires target.Writable(partitions)
    ensures target.Planned(partitions)
  {
  }
}
