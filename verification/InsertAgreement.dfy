/** What an INSERT wrote, a scan reads back: every row's file belongs to a partition of the row's typed values. */
module InsertAgreement {
  import opened Outcomes
  import opened Text
  import opened PartitionValues
  import opened Locations
  import opened ListingSpec
  import opened LocationIndex
  import opened InsertRouting

  /** The registered partitions as a scan lists them. */
  function Scanned(registry: seq<Registered>): (r: seq<Partition>)
    ensures |r| == |registry| && forall i | 0 <= i < |r| :: r[i] == Partition(registry[i].values, registry[i].location, false)
  {
    seq(|registry|, i requires 0 <= i < |registry| => Partition(registry[i].values, registry[i].location, false))
  }

  /** The row was accepted: 'relative' is where it went and 'values' what that is registered as. */
  ghost predicate Wrote(target: Target, partitions: seq<Registered>, row: seq<Value>, relative: string, values: seq<string>) {
    && target.Planned(partitions) && target.IsRow(row) && target.Route(partitions, row) == WriteTo(relative)
    && target.Finalized(partitions, relative) == Some(values)
  }

  /** An INSERT added this partition for one of its rows; its values had none. */
  ghost predicate AddedFor(target: Target, partitions: seq<Registered>, rows: seq<seq<Value>>, a: Registered) {
    exists r, relative | 0 <= r < |rows| :: Wrote(target, partitions, rows[r], relative, a.values) &&
      a.location == target.location + "/" + relative &&
      forall k | 0 <= k < |partitions| :: partitions[k].values != a.values
  }

  /** The partitions afterwards: those before, and one for each new values the rows have. */
  ghost predicate RegisteredFor(target: Target, partitions: seq<Registered>, rows: seq<seq<Value>>, added: seq<Registered>) {
    && (forall a | 0 <= a < |added| :: AddedFor(target, partitions, rows, added[a]))
    && (forall a, b | 0 <= a < b < |added| :: added[a].values != added[b].values)
    && (forall r, relative, values | 0 <= r < |rows| && Wrote(target, partitions, rows[r], relative, values) ::
         HasValues(partitions, values) || HasValues(added, values))
  }

  predicate HasValues(partitions: seq<Registered>, values: seq<string>) {
    exists k | 0 <= k < |partitions| :: partitions[k].values == values
  }

  /** The partition is at the default place of its values, where no earlier one is. */
  ghost predicate AtDefault(target: Target, partitions: seq<Registered>, a: Registered)
    requires |target.keys| == |target.types|
  {
    exists row :: |row| == |target.keys| && a.values == target.Rendered(row) &&
      a.location == target.location + "/" + target.HivePath(row) &&
      forall k | 0 <= k < |partitions| :: ComparableLocation(partitions[k].location) != ComparableLocation(a.location)
  }

  lemma AddedIsDefault(target: Target, partitions: seq<Registered>, rows: seq<seq<Value>>, a: Registered)
    requires target.Writable(partitions) && AddedFor(target, partitions, rows, a)
    ensures AtDefault(target, partitions, a)
  {
    hide ComparableLocation, Target.Route, Target.Finalized, Target.HivePath, Target.Typed;
    var r, relative :| 0 <= r < |rows| && Wrote(target, partitions, rows[r], relative, a.values) &&
      a.location == target.location + "/" + relative && forall k | 0 <= k < |partitions| :: partitions[k].values != a.values;
    target.RoutedRowIsRegistered(partitions, rows[r]);
  }

  /** Default places of different values are different, however they are spelled. */
  lemma DefaultsDiffer(target: Target, a: seq<Value>, b: seq<Value>)
    requires target.Valid() && |a| == |b| == |target.keys| && target.Rendered(a) != target.Rendered(b)
    ensures ComparableLocation(target.location + "/" + target.HivePath(a)) != ComparableLocation(target.location + "/" + target.HivePath(b))
  {
    hide ComparableLocation, Target.HivePath, Target.RelativePartitionPath, Target.Rendered;
    var here, there := target.location + "/" + target.HivePath(a), target.location + "/" + target.HivePath(b);
    target.HivePathIsRelative(a, here);
    if ComparableLocation(here) == ComparableLocation(there) {
      target.HivePathIsRelative(b, here);
      target.SamePath(a, b);
    }
  }

  /** An INSERT keeps the partitions' locations apart. */
  lemma SharingStaysFree(target: Target, partitions: seq<Registered>, rows: seq<seq<Value>>, added: seq<Registered>)
    requires target.Writable(partitions) && RegisteredFor(target, partitions, rows, added)
    ensures target.NoneShared(partitions + added)
  {
    hide ComparableLocation, Target.HivePath, Target.Rendered, AddedFor, Wrote;
    var all := partitions + added;
    forall i, j | 0 <= i < j < |all|
      ensures ComparableLocation(all[i].location) != ComparableLocation(all[j].location)
    {
      if j >= |partitions| {
        var b := added[j - |partitions|];
        AddedIsDefault(target, partitions, rows, b);
        var rowB :| |rowB| == |target.keys| && b.values == target.Rendered(rowB) &&
          b.location == target.location + "/" + target.HivePath(rowB) &&
          forall k | 0 <= k < |partitions| :: ComparableLocation(partitions[k].location) != ComparableLocation(b.location);
        if i >= |partitions| {
          var a := added[i - |partitions|];
          AddedIsDefault(target, partitions, rows, a);
          var rowA :| |rowA| == |target.keys| && a.values == target.Rendered(rowA) &&
            a.location == target.location + "/" + target.HivePath(rowA);
          DefaultsDiffer(target, rowA, rowB);
        }
      }
    }
  }

  /** The registered partition a written directory is. */
  lemma EntryOf(target: Target, partitions: seq<Registered>, rows: seq<seq<Value>>, added: seq<Registered>, r: nat,
                relative: string, values: seq<string>)
    returns (i: nat)
    requires target.Writable(partitions) && RegisteredFor(target, partitions, rows, added)
    requires r < |rows| && Wrote(target, partitions, rows[r], relative, values)
    ensures i < |partitions + added| && (partitions + added)[i].values == values
    ensures ComparableLocation((partitions + added)[i].location) == ComparableLocation(target.location + "/" + relative)
    ensures target.Typed(values) == Some(rows[r]) && Trimmed(target.location + "/" + relative) == target.location + "/" + relative
  {
    hide ComparableLocation, Target.Route, Target.Finalized, Target.HivePath, Target.Typed, TrimEnd;
    target.RoutedRowIsRegistered(partitions, rows[r]);
    if k :| 0 <= k < |partitions| && partitions[k].values == values &&
            ComparableLocation(partitions[k].location) == ComparableLocation(target.location + "/" + relative) {
      i := k;
    } else {
      i := NewEntry(target, partitions, rows, added, r, relative, values);
    }
  }

  lemma NewEntry(target: Target, partitions: seq<Registered>, rows: seq<seq<Value>>, added: seq<Registered>, r: nat,
                 relative: string, values: seq<string>)
    returns (i: nat)
    requires target.Writable(partitions) && RegisteredFor(target, partitions, rows, added)
    requires r < |rows| && |rows[r]| == |target.keys| && Wrote(target, partitions, rows[r], relative, values)
    requires relative == target.HivePath(rows[r]) && values == target.Rendered(rows[r]) && !HasValues(partitions, values)
    ensures i < |partitions + added| && (partitions + added)[i].values == values
    ensures (partitions + added)[i].location == target.location + "/" + relative
  {
    hide Target.HivePath, Wrote, Target.Rendered, AddedFor;
    assert HasValues(added, values);
    var a :| 0 <= a < |added| && added[a].values == values;
    AddedIsDefault(target, partitions, rows, added[a]);
    var row :| |row| == |target.keys| && values == target.Rendered(row) &&
      added[a].location == target.location + "/" + target.HivePath(row);
    SameDefault(target, row, rows[r]);
    i := |partitions| + a;
  }

  lemma SameDefault(target: Target, a: seq<Value>, b: seq<Value>)
    requires |a| == |b| == |target.keys| && target.Rendered(a) == target.Rendered(b)
    ensures target.HivePath(a) == target.HivePath(b)
  {
  }

  /** A file directly in a partition's directory belongs to that partition. */
  lemma OwnerOfFile(registry: seq<Registered>, i: nat, directory: string, name: string)
    requires i < |registry| && Trimmed(directory) == directory && directory != ""
    requires ComparableLocation(registry[i].location) == ComparableLocation(directory)
    requires name != "" && '/' !in name
    ensures Owns(Locs(Scanned(registry)), i, ComparableLocation(directory + "/" + name))
  {
    hide NormalScheme, TrimEnd, Locs;
    var locs := Locs(Scanned(registry));
    assert locs[i] == ComparableLocation(directory) == NormalScheme(directory);
    NormalSchemeKeepsLast(directory);
    FilePath(directory, name);
    var path := locs[i] + "/" + name;
    HeldByDirectory(locs, i, path, name);
  }

  lemma FilePath(directory: string, name: string)
    requires Trimmed(directory) == directory && name != "" && '/' !in name
    ensures ComparableLocation(directory + "/" + name) == NormalScheme(directory) + "/" + name
  {
    Target.PlainIsTrimmed(directory, name);
    assert name[0] in name && name[|name| - 1] in name;
    var child := "/" + name;
    assert directory + "/" + name == directory + child && NormalScheme(directory) + "/" + name == NormalScheme(directory) + child;
    Target.ChildNormal(directory, child);
  }

  lemma HeldByDirectory(locs: seq<string>, i: nat, path: string, name: string)
    requires i < |locs| && locs[i] != "" && path == locs[i] + "/" + name && '/' !in name
    ensures Owns(locs, i, path)
  {
    assert path[..|locs[i]| + 1] == locs[i] + "/";
    forall m | |locs[i]| < m < |path|
      ensures path[m] != '/'
    {
      assert path[m] == name[m - |locs[i]| - 1] && name[m - |locs[i]| - 1] in name;
    }
    forall j | 0 <= j < |locs| && Holds(locs, j, path)
      ensures |locs[j]| <= |locs[i]|
    {
      HolderEndsAtSlash(locs, j, path);
    }
  }

  /** The row's file belongs to a partition, and only to one whose typed values are the row's. */
  ghost predicate ReadsBack(target: Target, registry: seq<Registered>, row: seq<Value>, path: string)
    requires |target.keys| == |target.types|
  {
    var locs := Locs(Scanned(registry));
    && (exists i: nat :: Owns(locs, i, path))
    && (forall j: nat | Owns(locs, j, path) :: target.Typed(registry[j].values) == Some(row) && !Shared(locs, j))
  }

  /** Each row the copy accepts is in a file that a scan gives to one partition, whose typed values are the row's. */
  lemma ScanAgreesWithInsert(target: Target, partitions: seq<Registered>, rows: seq<seq<Value>>, added: seq<Registered>,
                             r: nat, name: string)
    requires target.Writable(partitions) && RegisteredFor(target, partitions, rows, added)
    requires r < |rows| && target.IsRow(rows[r]) && target.Route(partitions, rows[r]).WriteTo?
    requires name != "" && '/' !in name
    ensures ReadsBack(target, partitions + added, rows[r], FileOf(target, partitions, rows[r], name))
  {
    hide ComparableLocation, Target.Route, Target.Finalized, Target.Typed, TrimEnd, Locs;
    var relative := target.Route(partitions, rows[r]).relative;
    target.RoutedRowIsRegistered(partitions, rows[r]);
    var values := target.Finalized(partitions, relative).value;
    var registry := partitions + added;
    var i := EntryOf(target, partitions, rows, added, r, relative, values);
    var directory := target.location + "/" + relative;
    OwnerOfFile(registry, i, directory, name);
    SharingStaysFree(target, partitions, rows, added);
    var locs := Locs(Scanned(registry));
    var path := ComparableLocation(directory + "/" + name);
    forall j: nat | Owns(locs, j, path)
      ensures target.Typed(registry[j].values) == Some(rows[r]) && !Shared(locs, j)
    {
      OwnersShareLocation(locs, i, j, path);
      Apart(target, registry, i, j);
    }
  }

  /** A file of the row, as a scan compares it. */
  function FileOf(target: Target, partitions: seq<Registered>, row: seq<Value>, name: string): string
    requires |target.keys| == |target.types| == |row| && target.AllReadable(partitions) && target.Route(partitions, row).WriteTo?
  {
    ComparableLocation(target.location + "/" + target.Route(partitions, row).relative + "/" + name)
  }

  /** Whatever rows are written, each is read back. */
  ghost predicate AlwaysReadsBack(target: Target, partitions: seq<Registered>)
    requires |target.keys| == |target.types| && target.AllReadable(partitions)
  {
    forall rows, added, r, name | RegisteredFor(target, partitions, rows, added) && 0 <= r < |rows| && Accepted(target, partitions, rows[r], name) ::
      ReadsBack(target, partitions + added, rows[r], FileOf(target, partitions, rows[r], name))
  }

  predicate Accepted(target: Target, partitions: seq<Registered>, row: seq<Value>, name: string)
    requires |target.keys| == |target.types| && target.AllReadable(partitions)
  {
    target.IsRow(row) && target.Route(partitions, row).WriteTo? && name != "" && '/' !in name
  }

  /** The main result: with partitions at locations of their own, each row the copy accepts is in a file that, once the
      INSERT is registered, a scan gives to exactly one partition, whose typed values are the row's, NULL and other
      spellings of a value included, exactly when no partition that declares other column types is in a row's way. */
  lemma ReadsBackExactlyWhen(target: Target, partitions: seq<Registered>)
    requires target.Planned(partitions)
    ensures AlwaysReadsBack(target, partitions) <==> target.MismatchesApart(partitions)
  {
    hide ReadsBack, FileOf, RegisteredFor, Target.Route, Target.InTheWay, Target.HivePath, Target.NoneShared;
    if target.MismatchesApart(partitions) {
      forall rows, added, r: nat, name | RegisteredFor(target, partitions, rows, added) && r < |rows| && Accepted(target, partitions, rows[r], name)
        ensures ReadsBack(target, partitions + added, rows[r], FileOf(target, partitions, rows[r], name))
      {
        ScanAgreesWithInsert(target, partitions, rows, added, r, name);
      }
    } else {
      var row, k :| target.IsRow(row) && !target.RefusedRow(row) && 0 <= k < |partitions| && target.InTheWay(partitions[k], row) &&
        !target.HasPartition(partitions, row);
      target.TakenByDefault(partitions, row, k);
      var added := AddedAlone(target, partitions, row);
      assert Accepted(target, partitions, [row][0], "f");
      MismatchTakesRow(target, partitions, row, k, added, "f");
    }
  }

  /** What an INSERT of one row adds. */
  lemma AddedAlone(target: Target, partitions: seq<Registered>, row: seq<Value>) returns (added: seq<Registered>)
    requires target.Planned(partitions) && target.IsRow(row) && target.Route(partitions, row).WriteTo?
    ensures RegisteredFor(target, partitions, [row], added)
  {
    hide Target.NoneShared, Target.Route, Target.Finalized;
    target.RoutedRowIsTyped(partitions, row);
    var relative := target.Route(partitions, row).relative;
    var values := target.Finalized(partitions, relative).value;
    var a := Registered(values, target.location + "/" + relative, false);
    added := if HasValues(partitions, values) then [] else [a];
    assert Wrote(target, partitions, [row][0], relative, values);
    assert !HasValues(partitions, values) ==> AddedFor(target, partitions, [row], a) && HasValues([a], values);
  }

  /** A partition that declares other column types, where another row's default directory is, receives that row. */
  lemma MismatchTakesRow(target: Target, partitions: seq<Registered>, row: seq<Value>, k: nat, added: seq<Registered>, name: string)
    requires target.Planned(partitions) && target.IsRow(row) && k < |partitions| && target.InTheWay(partitions[k], row)
    requires target.Route(partitions, row) == WriteTo(target.HivePath(row)) && Accepted(target, partitions, row, name)
    requires target.Typed(partitions[k].values) != Some(row)
    ensures !ReadsBack(target, partitions + added, row, FileOf(target, partitions, row, name))
  {
    hide Target.Route, Target.HivePath, Target.Typed, ComparableLocation, TrimEnd, Locs;
    var registry, directory := partitions + added, target.location + "/" + target.HivePath(row);
    target.RoutedRowIsTyped(partitions, row);
    OwnerOfFile(registry, k, directory, name);
  }

  lemma Apart(target: Target, registry: seq<Registered>, i: nat, j: nat)
    requires target.NoneShared(registry) && i < |registry| && j < |registry|
    requires Locs(Scanned(registry))[i] == Locs(Scanned(registry))[j]
    ensures i == j && !Shared(Locs(Scanned(registry)), i)
  {
    hide ComparableLocation;
    forall a, b | 0 <= a < |registry| && 0 <= b < |registry| && a != b
      ensures ComparableLocation(registry[a].location) != ComparableLocation(registry[b].location)
    {
      if a < b {
        assert ComparableLocation(registry[a].location) != ComparableLocation(registry[b].location);
      } else {
        assert ComparableLocation(registry[b].location) != ComparableLocation(registry[a].location);
      }
    }
  }

  /** One such case: a partition that declares other column types, registered where another row's default directory is. */
  lemma MismatchedReceivesOthers(target: Target, row: seq<Value>, q: Registered)
    requires target.Valid() && target.IsRow(row) && !target.RefusedRow(row) && q.mismatch
    requires target.Typed(q.values).Some? && target.Typed(q.values) != Some(row)
    requires q.location == target.location + "/" + target.HivePath(row)
    ensures target.AllReadable([q]) && target.Route([q], row) == WriteTo(target.HivePath(row))
  {
    hide ComparableLocation, Target.HivePath, Target.Typed, Target.RefusedRow, Target.RelativePartitionPath;
    OneRoute(target, q, row);
  }

  /** Once it declares the table's columns such a row is refused. */
  lemma MatchingRefusesOthers(target: Target, row: seq<Value>, p: Registered)
    requires target.Valid() && target.IsRow(row) && !target.RefusedRow(row) && !p.mismatch
    requires target.Typed(p.values).Some? && target.Typed(p.values) != Some(row)
    requires p.location == target.location + "/" + target.HivePath(row)
    ensures target.AllReadable([p]) && target.Route([p], row) == Refuse
  {
    hide ComparableLocation, Target.HivePath, Target.Typed, Target.RefusedRow, Target.RelativePartitionPath, Target.Rendered,
      Target.AllReadable, Components, Component, PartitionDirectory, HasType;
    OneRoute(target, p, row);
    target.HivePathIsRelative(row, p.location);
    target.HivePathSplits(row);
    var typed := target.Typed(p.values).value;
    if target.HivePath(typed) == target.HivePath(row) && p.values == target.Rendered(typed) {
      target.SamePath(typed, row);
      target.RowReadsBack(row);
    }
  }

  lemma OneRoute(target: Target, p: Registered, row: seq<Value>)
    requires |target.keys| == |target.types| == |row| && target.Typed(p.values).Some? && !target.RefusedRow(row)
    ensures target.AllReadable([p])
    ensures target.CaseOf(p) == None ==> target.Route([p], row) == WriteTo(target.HivePath(row))
    ensures target.CaseOf(p).Some? && target.CaseOf(p).value.row != row ==>
              target.Route([p], row) ==
              if target.CaseOf(p).value.result == WriteTo(target.HivePath(row)) then Refuse else WriteTo(target.HivePath(row))
  {
    hide Target.CaseOf, Target.RefusedRow, Target.HivePath;
    OneCase(target, p);
    var customs := target.CustomOf(p);
    assert customs != [] ==> customs[0].relative == target.CaseOf(p).value.result.relative;
    var cases, path := target.Cases([p]), target.HivePath(row);
    if target.CaseOf(p).Some? && target.CaseOf(p).value.row != row {
      assert cases[1..] == [] && Target.FirstCase(cases, row) == None;
      assert target.CaseOf(p).value.result == WriteTo(path) ==> customs[0].relative == path;
      assert Target.IsCustom(customs, path) <==> target.CaseOf(p).value.result == WriteTo(path);
    }
  }

  lemma OneCase(target: Target, p: Registered)
    requires |target.keys| == |target.types| && target.Typed(p.values).Some?
    ensures target.AllReadable([p]) && target.Customs([p]) == target.CustomOf(p)
    ensures target.Cases([p]) == match target.CaseOf(p) case None => [] case Some(c) => [c]
  {
    hide Target.CaseOf;
    assert [p][..0] == [];
  }
}
