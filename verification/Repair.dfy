/** Repairing a table: registering the <key>=<value> directories its files are in that Glue does not have. */
module Repair {
  import opened Outcomes
  import opened Text
  import opened PartitionValues
  import opened Locations
  import opened ListingSpec
  import opened LocationIndex
  import opened InsertRouting
  import opened GlueService
  import opened PartitionApi
  import ListingRefinement
  import AlterTable

  /** The value a component gives a key, as it is registered: a value of the key's type in its own spelling, and a NULL
      as it is spelled. */
  function DiscoveredValue(component: string, key: string, keyType: KeyType): Option<string> {
    match ReadComponent(component, key)
    case None => None
    case Some(text) =>
      match PartitionValue(text, keyType)
      case None => None
      case Some(v) => Some(if v == Null then text else Render(v))
  }

  /** A NULL keeps its spelling and any other value is registered in its own: k=07 is the partition of 7, and of TRUE or
      t that of true. */
  lemma RegisteredInOwnSpelling(component: string, key: string, text: string, n: nat)
    requires ReadComponent(component, key) == Some(text)
    ensures n < 0x8000_0000_0000_0000 && PaddedWith(text, NatToString(n)) ==>
              DiscoveredValue(component, key, BigIntKey) == Some(NatToString(n))
    ensures Lower(text) in {"true", "t", "1"} ==> DiscoveredValue(component, key, BooleanKey) == Some("true")
    ensures Lower(text) in {"false", "f", "0"} ==> DiscoveredValue(component, key, BooleanKey) == Some("false")
    ensures DiscoveredValue(component, key, VarcharKey) == Some(text)
    ensures forall t: KeyType :: text == DEFAULT_PARTITION ==> DiscoveredValue(component, key, t) == Some(text)
    ensures forall t: KeyType :: t != VarcharKey && (Lower(text) == "null" || text == "") ==>
              DiscoveredValue(component, key, t) == Some(text)
  {
    hide NatToString, ReadComponent, PartitionValue, Lower;
    BooleanReads(text);
    NullReads(text, VarcharKey);
    forall t: KeyType
      ensures PartitionValue(text, t) == Some(Null) <==>
              text == "__HIVE_DEFAULT_PARTITION__" || (t != VarcharKey && (Lower(text) == "null" || text == ""))
    {
      NullReads(text, t);
    }
    if n < 0x8000_0000_0000_0000 && PaddedWith(text, NatToString(n)) {
      var zeros := text[..|text| - |NatToString(n)|];
      assert text == zeros + NatToString(n);
      PaddedNumberReads(zeros, n);
    }
  }

  /** Zeros before the digits. */
  predicate PaddedWith(text: string, digits: string) {
    |digits| <= |text| && text[|text| - |digits|..] == digits && forall i | 0 <= i < |text| - |digits| :: text[i] == '0'
  }

  /** The values and the directory a path below the root starts with. */
  function Discovered(target: Target, relative: string): (r: Option<(seq<string>, string)>)
    requires |target.keys| == |target.types|
  {
    var components, n := Split(relative, '/'), |target.keys|;
    if |components| < n || exists k | 0 <= k < n :: DiscoveredValue(components[k], target.keys[k], target.types[k]).None? then None
    else Some((seq(n, k requires 0 <= k < n => DiscoveredValue(components[k], target.keys[k], target.types[k]).value),
               Join(components[..n], '/')))
  }

  method ReadDiscoveredPartition(target: Target, relative: string) returns (r: Option<(seq<string>, string)>)
    requires |target.keys| == |target.types|
    ensures r == Discovered(target, relative)
  {
    hide DiscoveredValue, Split;
    var components := Split(relative, '/');
    if |components| < |target.keys| {
      return None;
    }
    var values: seq<string>, directory := [], "";
    assert components[..0] == [];
    for k := 0 to |target.keys|
      invariant |values| == k && directory == Join(components[..k], '/')
      invariant forall m | 0 <= m < k :: DiscoveredValue(components[m], target.keys[m], target.types[m]) == Some(values[m])
    {
      var value := DiscoveredValue(components[k], target.keys[k], target.types[k]);
      if value.None? {
        return None;
      }
      values := values + [value.value];
      directory := Extended(components, k, directory);
    }
    assert Discovered(target, relative).Some? && Discovered(target, relative).value.0 == values;
    r := Some((values, directory));
  }

  method Extended(components: seq<string>, k: nat, directory: string) returns (r: string)
    requires k < |components| && directory == Join(components[..k], '/')
    ensures r == Join(components[..k + 1], '/')
  {
    JoinOfAppend(components[..k], components[k], '/');
    assert components[..k + 1] == components[..k] + [components[k]];
    r := if k > 0 then directory + "/" + components[k] else components[k];
  }

  /** A default partition directory gives its values back as they would be registered, in whatever is below it. */
  lemma DefaultDirectoryIsDiscovered(target: Target, row: seq<Value>, below: string)
    requires target.Valid() && target.IsRow(row)
    requires below == "" || (below[0] == '/' && below[|below| - 1] != '/' && below != "/")
    ensures Discovered(target, target.HivePath(row) + below) == Some((target.Rendered(row), target.HivePath(row)))
  {
    hide Split, Pieces, Component, ReadComponent, Join, Render, PartitionValue;
    var parts, n := Components(target.keys, target.Rendered(row)), |target.keys|;
    target.HivePathSplits(row);
    DirectoryReadsBack(target.keys, target.Rendered(row));
    var path := target.HivePath(row) + below;
    var components := Split(path, '/');
    assert components[..n] == parts && |components| >= n by {
      if below == "" {
        assert path == target.HivePath(row);
      } else {
        assert path == target.HivePath(row) + "/" + below[1..];
        Target.PathBelowSplits(target.HivePath(row), below[1..]);
      }
    }
    forall k | 0 <= k < n
      ensures DiscoveredValue(components[k], target.keys[k], target.types[k]) == Some(target.Rendered(row)[k])
    {
      assert components[k] == components[..n][k] == parts[k];
      StoredTextReadsBack(row[k], target.types[k]);
      if RefusedAsNull(row[k], target.types[k]) {
        RefusedReadsAsNull(row[k], target.types[k]);
      }
    }
    assert Discovered(target, path).value.0 == target.Rendered(row);
  }

  lemma RefusedReadsAsNull(v: Value, t: KeyType)
    requires HasType(v, t) && RefusedAsNull(v, t)
    ensures PartitionValue(Render(v), t) == Some(Null)
  {
    assert Lower("NULL") == "null";
  }

  // The repair.

  predicate HasLocation(existing: Partitions, location: string) {
    exists v :: v in existing && Trimmed(existing[v]) == location
  }

  /** The directory a file names a partition by, if it is a data file below the root. */
  function DirectoryBelow(root: string, file: File): Option<string> {
    var slash := LastIndexOf(file.path, '/');
    if !IsDataFile(file, root + "/") || slash < |root| + 1 then None else Some(file.path[..slash])
  }

  /** The partition a file asks for. */
  function AskedFor(target: Target, file: File): Option<PartitionInput>
    requires |target.keys| == |target.types|
  {
    match DirectoryBelow(target.location, file)
    case None => None
    case Some(directory) =>
      if |directory| < |target.location| + 1 then None
      else
        match Discovered(target, directory[|target.location| + 1..])
        case None => None
        case Some((values, below)) => Some(PartitionInput(values, target.location + "/" + below))
  }

  /** A file asks for a partition exactly when it is a data file of the table in a directory whose first components give
      every key a value, in order; it asks for these values at the directory these components are. */
  lemma AskedExactlyWhen(target: Target, components: seq<string>, name: string, size: Option<nat>)
    requires target.Valid() && name != "" && '/' !in name && forall c | c in components :: '/' !in c && c != ""
    ensures var file, n := File(target.location + "/" + Join(components + [name], '/'), size), |target.keys|;
            AskedFor(target, file) ==
            if IsDataFile(file, target.location + "/") && |components| >= n &&
               (forall k | 0 <= k < n :: DiscoveredValue(components[k], target.keys[k], target.types[k]).Some?)
            then Some(PartitionInput(seq(n, k requires 0 <= k < n => DiscoveredValue(components[k], target.keys[k], target.types[k]).value),
                                     target.location + "/" + Join(components[..n], '/')))
            else None
  {
    hide IsDataFile, DiscoveredValue, LastIndexOf, Split, Join, Pieces;
    var root, rest := target.location, Join(components + [name], '/');
    var file := File(root + "/" + rest, size);
    JoinOfAppend(components, name, '/');
    if components == [] {
      LastSlash(root, name);
    } else {
      var below := Join(components, '/');
      assert file.path == (root + "/" + below) + "/" + name;
      LastSlash(root + "/" + below, name);
      assert file.path[..|root + "/" + below|] == root + "/" + below && (root + "/" + below)[|root| + 1..] == below;
      SplitOfJoin(components);
      assert components[|components| - 1] in components;
    }
  }

  /** What a repair registers: partitions that files ask for, with values and a location Glue does not have, no values
      and no location twice; and every partition asked for is then there, by its values or its location. */
  ghost predicate Repairs(target: Target, existing: Partitions, files: seq<File>, added: seq<PartitionInput>)
    requires |target.keys| == |target.types|
  {
    && (forall a | a in added :: a.values !in existing && !HasLocation(existing, a.location))
    && (forall a | a in added :: exists k | 0 <= k < |files| :: AsksFirst(target, existing, files, k, a))
    && (forall i, j | 0 <= i < j < |added| :: added[i].values != added[j].values)
    && (forall f | f in files && AskedFor(target, f).Some? :: Covered(existing, added, AskedFor(target, f).value))
  }

  /** The file asks for the partition, and no earlier one asks for these values at another location that Glue has not. */
  predicate AsksFirst(target: Target, existing: Partitions, files: seq<File>, k: nat, a: PartitionInput)
    requires |target.keys| == |target.types|
  {
    k < |files| && AskedFor(target, files[k]) == Some(a) && forall m | 0 <= m < k && AskedFor(target, files[m]).Some? ::
      var earlier := AskedFor(target, files[m]).value; earlier.values == a.values ==> HasLocation(existing, earlier.location)
  }

  predicate Covered(existing: Partitions, added: seq<PartitionInput>, asked: PartitionInput) {
    || asked.values in existing || HasLocation(existing, asked.location)
    || exists k | 0 <= k < |added| :: added[k].values == asked.values
  }

  /** A location names its values: no location is registered twice either. */
  lemma LocationsDiffer(target: Target, existing: Partitions, files: seq<File>, added: seq<PartitionInput>, i: nat, j: nat)
    requires target.Valid() && Repairs(target, existing, files, added) && i < j < |added|
    ensures added[i].location != added[j].location
  {
    hide AskedFor, HasLocation, Covered;
    assert added[i] in added && added[j] in added;
    var k :| 0 <= k < |files| && AsksFirst(target, existing, files, k, added[i]);
    var m :| 0 <= m < |files| && AsksFirst(target, existing, files, m, added[j]);
    if added[i].location == added[j].location {
      SameLocationSameValues(target, files[k], files[m]);
    }
  }

  lemma SameLocationSameValues(target: Target, f: File, g: File)
    requires target.Valid() && AskedFor(target, f).Some? && AskedFor(target, g).Some?
    requires AskedFor(target, f).value.location == AskedFor(target, g).value.location
    ensures AskedFor(target, f).value.values == AskedFor(target, g).value.values
  {
    hide Discovered, DirectoryBelow;
    var n := |target.location| + 1;
    var a, b := DirectoryBelow(target.location, f).value[n..], DirectoryBelow(target.location, g).value[n..];
    var (va, da) := Discovered(target, a).value;
    var (vb, db) := Discovered(target, b).value;
    assert da == (target.location + "/" + da)[n..] && db == (target.location + "/" + db)[n..];
    SameDirectory(target, a, b);
  }

  lemma SameDirectory(target: Target, a: string, b: string)
    requires target.Valid() && Discovered(target, a).Some? && Discovered(target, b).Some?
    requires Discovered(target, a).value.1 == Discovered(target, b).value.1
    ensures Discovered(target, a).value.0 == Discovered(target, b).value.0
  {
    hide DiscoveredValue, Pieces, Join;
    var n := |target.keys|;
    var x, y := Split(a, '/')[..n], Split(b, '/')[..n];
    PiecesHaveNoSeparator(a, '/');
    PiecesHaveNoSeparator(b, '/');
    PiecesOfJoin(x, '/');
    PiecesOfJoin(y, '/');
    assert x == y;
    assert forall k | 0 <= k < n :: Split(a, '/')[k] == x[k] && Split(b, '/')[k] == y[k];
  }

  method FindMissing(target: Target, existing: Partitions, files: seq<File>) returns (added: seq<PartitionInput>)
    requires target.Valid()
    ensures Repairs(target, existing, files, added)
  {
    hide AskedFor, HasLocation, Repairs;
    var locations := set v | v in existing :: Trimmed(existing[v]);
    LocationsListed(existing, locations);
    added := [];
    NothingAdded(target, existing, files);
    for k := 0 to |files|
      invariant Repairs(target, existing, files[..k], added)
    {
      var asked := AskedFor(target, files[k]);
      RepairsNext(target, existing, files, k, added);
      if asked.Some? {
        var there := ValuesListed(added, asked.value.values);
        if asked.value.values !in existing && asked.value.location !in locations && !there {
          added := added + [asked.value];
        }
      }
    }
    assert files[..|files|] == files;
  }

  lemma NothingAdded(target: Target, existing: Partitions, files: seq<File>)
    requires |target.keys| == |target.types|
    ensures Repairs(target, existing, files[..0], [])
  {
  }

  /** One more file: what it asks for is added unless it is covered. */
  lemma RepairsNext(target: Target, existing: Partitions, files: seq<File>, n: nat, added: seq<PartitionInput>)
    requires |target.keys| == |target.types| && n < |files| && Repairs(target, existing, files[..n], added)
    ensures var asked := AskedFor(target, files[n]);
            Repairs(target, existing, files[..n + 1],
                    if asked.Some? && !Covered(existing, added, asked.value) then added + [asked.value] else added)
  {
    hide AskedFor, HasLocation;
    var asked := AskedFor(target, files[n]);
    var more := if asked.Some? && !Covered(existing, added, asked.value) then added + [asked.value] else added;
    var upTo := files[..n + 1];
    assert upTo == files[..n] + [files[n]];
    if asked.Some? {
      Appended(existing, added, asked.value);
    }
    forall a | a in more
      ensures exists k | 0 <= k < |upTo| :: AsksFirst(target, existing, upTo, k, a)
    {
      if a in added {
        var k :| 0 <= k < n && AsksFirst(target, existing, files[..n], k, a);
        assert AsksFirst(target, existing, upTo, k, a);
      } else {
        assert forall m | 0 <= m < n :: files[..n][m] in files[..n];
        assert AsksFirst(target, existing, upTo, n, a);
      }
    }
  }

  lemma LocationsListed(existing: Partitions, locations: set<string>)
    requires locations == set v | v in existing :: Trimmed(existing[v])
    ensures forall l :: l in locations <==> HasLocation(existing, l)
  {
  }

  lemma Appended(existing: Partitions, added: seq<PartitionInput>, a: PartitionInput)
    ensures forall asked | Covered(existing, added, asked) :: Covered(existing, added + [a], asked)
    ensures Covered(existing, added + [a], a)
  {
    var more := added + [a];
    assert more[|added|] == a && forall k | 0 <= k < |added| :: more[k] == added[k];
  }

  method ValuesListed(added: seq<PartitionInput>, values: Values) returns (there: bool)
    ensures there <==> exists k | 0 <= k < |added| :: added[k].values == values
  {
    there := false;
    for k := 0 to |added|
      invariant there <==> exists m | 0 <= m < k :: added[m].values == values
    {
      there := there || added[k].values == values;
    }
  }

  /** A second repair of the same files has nothing to add. */
  lemma SecondRepairAddsNothing(target: Target, existing: Partitions, files: seq<File>, added: seq<PartitionInput>,
                                again: seq<PartitionInput>)
    requires target.Valid() && Repairs(target, existing, files, added)
    requires Repairs(target, AlterTable.Created(existing, added), files, again)
    ensures again == []
  {
    hide AskedFor;
    AlterTable.CreatedHas(existing, added);
    if again != [] {
      NotAgain(target, existing, files, added, again, again[0]);
    }
  }

  lemma NotAgain(target: Target, existing: Partitions, files: seq<File>, added: seq<PartitionInput>, again: seq<PartitionInput>,
                 a: PartitionInput)
    requires target.Valid() && Repairs(target, existing, files, added)
    requires Repairs(target, AlterTable.Created(existing, added), files, again)
    ensures a !in again
  {
    hide AskedFor;
    AlterTable.CreatedHas(existing, added);
  }

  /** Whatever others write: what Glue had when it was asked lacked what is added, which is then there, unless another
      client removed it; nothing else changes. When nobody else writes, exactly what is added is added. */
  method GlueRepairTableApply(server: GlueServer, target: Target, files: seq<File>)
    returns (ok: bool, added: seq<PartitionInput>, ghost found: Partitions)
    requires server.Valid() && target.Valid()
    modifies server`partitions, server`calls, server`history
    ensures old(server.calls) <= server.calls && |old(server.history)| < |server.history|
    ensures ok ==> found == server.history[|old(server.history)|] && Repairs(target, found, files, added)
    ensures ok ==> forall a | a in added :: Present(server, old(server.calls), server.calls, server.partitions, a.values)
    ensures Survives(server, old(server.calls), server.calls, old(server.partitions), server.partitions, added)
    ensures ok && server.Quiet() ==> found == old(server.partitions) && server.partitions == AlterTable.Created(found, added)
    ensures !ok ==> server.Troubled(old(server.calls), server.calls)
  {
    hide Repairs, Survives, AlterTable.Created;
    ghost var request, start := server.calls, server.partitions;
    added := [];
    var existing := server.GetPartitions();
    found := server.partitions;
    if server.Quiet() {
      QuietStays(server, start, request);
    }
    ghost var before, from := server.partitions, server.calls;
    if existing.None? {
      OthersSurvive(server, request, start, added);
      assert Fatal(server.script(request));
      return false, added, found;
    }
    added := FindMissing(target, existing.value, files);
    OthersSurvive(server, request, start, added);
    Distinct(target, existing.value, files, added);
    var reported;
    ok, reported := BatchCreatePartitions(server, added);
    SurvivesTwice(server, request, from, server.calls, start, before, server.partitions, added);
    if ok {
      PresentSince(server, request, from, server.partitions, added);
      if server.Quiet() {
        AlterTable.QuietCreated(server, from, server.calls, before, server.partitions, added);
      }
    } else {
      TroubledWithin(server, request, from, server.calls, server.calls);
    }
  }

  lemma OthersSurvive(server: GlueServer, request: nat, before: Partitions, inputs: seq<PartitionInput>)
    ensures Survives(server, request, request + 1, before, AfterOthers(before, server.script(request)), inputs)
  {
  }

  lemma PresentSince(server: GlueServer, request: nat, from: nat, now: Partitions, added: seq<PartitionInput>)
    requires request <= from <= server.calls
    requires forall k | 0 <= k < |added| :: Present(server, from, server.calls, now, added[k].values)
    ensures forall a | a in added :: Present(server, request, server.calls, now, a.values)
  {
    Within(server, request, from, server.calls);
  }

  lemma Distinct(target: Target, existing: Partitions, files: seq<File>, added: seq<PartitionInput>)
    requires target.Valid() && Repairs(target, existing, files, added)
    ensures DistinctInputs(added)
  {
  }

  // Locations in another spelling.

  /** What is added is nowhere where a partition is registered, as a scan compares locations. */
  predicate KeepsApart(existing: Partitions, added: seq<PartitionInput>) {
    forall a, v | a in added && v in existing :: ComparableLocation(a.location) != ComparableLocation(existing[v])
  }

  /** The partition is registered below the table at a directory of other values, which Glue does not have, visible, and
      not in the spelling of the table's location. */
  predicate Missed(target: Target, existing: Partitions, v: Values)
    requires v in existing && |target.keys| == |target.types|
  {
    var root, there := ComparableLocation(target.location), ComparableLocation(existing[v]);
    Below(there, root) &&
    var rest := there[|root| + 1..];
    (forall c | c in Pieces(rest, '/') :: !Hidden(c)) && !HasLocation(existing, target.location + "/" + rest) &&
    match Discovered(target, rest)
    case None => false
    case Some((values, directory)) => directory == rest && values !in existing
  }

  /** Whatever files there are, repairs register no location twice, as a scan compares them, exactly when no partition is
      registered where one of other values would be discovered, in another spelling. */
  lemma KeepsApartExactlyWhen(target: Target, existing: Partitions)
    requires target.Valid()
    ensures (forall files, added | Repairs(target, existing, files, added) :: KeepsApart(existing, added)) <==>
            forall v | v in existing :: !Missed(target, existing, v)
  {
    hide AskedFor, HasLocation, ComparableLocation, Missed;
    if v :| v in existing && Missed(target, existing, v) {
      var file, asked := FileThere(target, existing, v);
      RepairsAlone(target, existing, file, asked);
      assert asked in [asked] && !KeepsApart(existing, [asked]);
    } else {
      forall files, added | Repairs(target, existing, files, added)
        ensures KeepsApart(existing, added)
      {
        forall a: PartitionInput, v: Values | a in added && v in existing
          ensures ComparableLocation(a.location) != ComparableLocation(existing[v])
        {
          var k :| 0 <= k < |files| && AsksFirst(target, existing, files, k, a);
          if ComparableLocation(a.location) == ComparableLocation(existing[v]) {
            AskedIsMissed(target, existing, files[k], v);
          }
        }
      }
    }
  }

  lemma RepairsAlone(target: Target, existing: Partitions, file: File, asked: PartitionInput)
    requires |target.keys| == |target.types| && AskedFor(target, file) == Some(asked)
    requires asked.values !in existing && !HasLocation(existing, asked.location)
    ensures Repairs(target, existing, [file], [asked])
  {
    hide AskedFor, HasLocation;
    assert [asked][0].values == asked.values && [file][0] == file;
    assert AsksFirst(target, existing, [file], 0, asked);
  }

  /** A file in such a directory makes a repair register it again. */
  lemma FileThere(target: Target, existing: Partitions, v: Values) returns (file: File, asked: PartitionInput)
    requires target.Valid() && v in existing && Missed(target, existing, v)
    ensures AskedFor(target, file) == Some(asked) && asked.values !in existing && !HasLocation(existing, asked.location)
    ensures ComparableLocation(asked.location) == ComparableLocation(existing[v])
  {
    hide AskedFor, HasLocation, Discovered, NormalScheme, TrimEnd, Pieces, Hidden;
    var root, there := ComparableLocation(target.location), ComparableLocation(existing[v]);
    var rest := there[|root| + 1..];
    BelowIsPlain(target, rest);
    ListingRefinement.VisibleF();
    FileAsksForItsDirectory(target, rest, "f");
    file := File(target.location + "/" + rest + "/" + "f", None);
    asked := AskedFor(target, file).value;
    ComparableBelow(target, rest);
    assert there == root + "/" + rest;
  }

  /** A partition asked for is missed by the one registered at its place. */
  lemma AskedIsMissed(target: Target, existing: Partitions, file: File, v: Values)
    requires target.Valid() && AskedFor(target, file).Some? && v in existing
    requires var asked := AskedFor(target, file).value;
             && asked.values !in existing && !HasLocation(existing, asked.location)
             && ComparableLocation(asked.location) == ComparableLocation(existing[v])
    ensures Missed(target, existing, v)
  {
    hide HasLocation, Discovered, NormalScheme, TrimEnd, DirectoryBelow, Pieces, Hidden;
    var relative := DirectoryBelow(target.location, file).value[|target.location| + 1..];
    var (values, below) := Discovered(target, relative).value;
    BelowIsPlain(target, relative);
    ComparableBelow(target, below);
    DirectoryIsDiscovered(target, relative);
    PartsAreVisible(target, file);
    var root, there := ComparableLocation(target.location), ComparableLocation(existing[v]);
    assert there == root + "/" + below && there[..|root| + 1] == root + "/" && there[|root| + 1..] == below;
  }

  /** Below the table's location a path is compared as it stands. */
  lemma ComparableBelow(target: Target, below: string)
    requires target.Valid() && below != "" && below[0] != '/' && below[|below| - 1] != '/'
    ensures ComparableLocation(target.location + "/" + below) == ComparableLocation(target.location) + "/" + below
  {
    hide NormalScheme, TrimEnd;
    Target.PlainIsTrimmed(target.location, below);
    var child := "/" + below;
    assert target.location + "/" + below == target.location + child;
    assert NormalScheme(target.location) + "/" + below == NormalScheme(target.location) + child;
    Target.ChildNormal(target.location, child);
  }

  lemma DiscoveredParts(target: Target, relative: string)
    requires target.Valid() && Discovered(target, relative).Some?
    ensures |target.keys| <= |Split(relative, '/')|
    ensures var parts := Split(relative, '/')[..|target.keys|];
            && Discovered(target, relative).value.1 == Join(parts, '/') && Pieces(Join(parts, '/'), '/') == parts
            && (forall c | c in parts :: c != "" && c in Pieces(relative, '/'))
  {
    hide PartitionValue, Render, Unescape, IndexOf, Pieces, Join;
    var components, n := Split(relative, '/'), |target.keys|;
    PiecesHaveNoSeparator(relative, '/');
    forall c | c in components[..n]
      ensures c != "" && c in Pieces(relative, '/')
    {
      var k :| 0 <= k < n && components[k] == c;
      assert DiscoveredValue(components[k], target.keys[k], target.types[k]).Some?;
    }
    PiecesOfJoin(components[..n], '/');
  }

  /** The directory a partition is discovered at is itself discovered as it. */
  lemma DirectoryIsDiscovered(target: Target, relative: string)
    requires target.Valid() && Discovered(target, relative).Some?
    ensures var (values, below) := Discovered(target, relative).value; Discovered(target, below) == Some((values, below))
  {
    hide DiscoveredValue, Pieces, Join;
    DiscoveredParts(target, relative);
    var n := |target.keys|;
    var parts := Split(relative, '/')[..n];
    var below := Join(parts, '/');
    assert parts[n - 1] in parts;
    assert Split(below, '/') == parts && parts[..n] == parts;
    assert forall k | 0 <= k < n :: Split(relative, '/')[k] == parts[k];
    assert Discovered(target, below).Some? && Discovered(target, below).value.0 == Discovered(target, relative).value.0;
  }

  /** No part of the directory that a data file asks for is hidden. */
  lemma PartsAreVisible(target: Target, file: File)
    requires target.Valid() && AskedFor(target, file).Some?
    ensures var below := Discovered(target, DirectoryBelow(target.location, file).value[|target.location| + 1..]).value.1;
            forall c | c in Pieces(below, '/') :: !Hidden(c)
  {
    hide Pieces, Hidden, Join, Split, Discovered, LastIndexOf;
    var root, path := target.location, file.path;
    var slash := LastIndexOf(path, '/');
    var relative, name := path[|root| + 1..slash], path[slash + 1..];
    assert DirectoryBelow(root, file).value[|root| + 1..] == relative;
    DiscoveredParts(target, relative);
    assert path[|root| + 1..] == relative + "/" + name;
    PathPieces(relative, name);
  }

  /** Where a path splits at its last slash its front's components are all among its own. */
  lemma PathPieces(front: string, name: string)
    ensures forall c | c in Pieces(front, '/') :: c in Split(front + "/" + name, '/')
  {
    hide Pieces;
    assert front + "/" + name == front + ['/'] + name;
    PiecesOfConcat(front, '/', name);
    var left, right := Pieces(front, '/'), Pieces(name, '/');
    LastDropped(left, right);
    assert forall c | c in left :: c in left + right[..|right| - 1];
  }

  /** With one spelling of the scheme everywhere no partition is missed. */
  lemma OneSpellingIsEnough(target: Target, existing: Partitions, v: Values)
    requires target.Valid() && NormalScheme(target.location) == target.location
    requires v in existing && NormalScheme(Trimmed(existing[v])) == Trimmed(existing[v])
    ensures !Missed(target, existing, v)
  {
    hide NormalScheme, TrimEnd, Discovered, Pieces;
    var root, there := ComparableLocation(target.location), ComparableLocation(existing[v]);
    if Below(there, root) {
      assert there == target.location + "/" + there[|root| + 1..];
    }
  }

  /** The directory a partition is discovered at starts and ends with a component. */
  lemma BelowIsPlain(target: Target, relative: string)
    requires target.Valid() && Discovered(target, relative).Some?
    ensures var below := Discovered(target, relative).value.1; below != "" && below[0] != '/' && below[|below| - 1] != '/'
  {
    hide Discovered, Pieces, Join, Split;
    DiscoveredParts(target, relative);
    PiecesHaveNoSeparator(relative, '/');
    Target.JoinEndsPlain(Split(relative, '/')[..|target.keys|]);
  }

  /** A file in the directory of a partition asks for that partition. */
  lemma FileAsksForItsDirectory(target: Target, path: string, name: string)
    requires target.Valid() && Visible(name) && name != "" && '/' !in name && Discovered(target, path).Some?
    requires Discovered(target, path).value.1 == path && forall c | c in Pieces(path, '/') :: !Hidden(c)
    ensures AskedFor(target, File(target.location + "/" + path + "/" + name, None))
            == Some(PartitionInput(Discovered(target, path).value.0, target.location + "/" + path))
  {
    hide Pieces, Hidden, Visible, Discovered, LastIndexOf;
    var root := target.location;
    var directory := root + "/" + path;
    var file := File(directory + "/" + name, None);
    VisibleThrough(path, name);
    assert file.path[..|root| + 1] == root + "/" && file.path[|root| + 1..] == path + "/" + name;
    LastSlash(directory, name);
    assert file.path[..|directory|] == directory && directory[|root| + 1..] == path;
  }

  /** A file in a default directory asks for the partition of the row's values there. */
  lemma DefaultFileAsksForItsPartition(target: Target, row: seq<Value>, name: string)
    requires target.Valid() && target.IsRow(row) && Visible(name) && name != "" && '/' !in name
    requires forall c | c in Pieces(target.HivePath(row), '/') :: !Hidden(c)
    ensures AskedFor(target, File(target.location + "/" + target.HivePath(row) + "/" + name, None))
            == Some(PartitionInput(target.Rendered(row), target.location + "/" + target.HivePath(row)))
  {
    hide Target.HivePath, Target.Rendered, Pieces, Hidden, Visible, Discovered, AskedFor;
    DefaultIsDiscovered(target, row);
    FileAsksForItsDirectory(target, target.HivePath(row), name);
  }

  lemma DefaultIsDiscovered(target: Target, row: seq<Value>)
    requires target.Valid() && target.IsRow(row)
    ensures Discovered(target, target.HivePath(row)) == Some((target.Rendered(row), target.HivePath(row)))
  {
    DefaultDirectoryIsDiscovered(target, row, "");
    assert target.HivePath(row) + "" == target.HivePath(row);
  }

  /** The false case: a partition of other values, registered at s3a:// where a default directory is, does not keep a
      repair from registering that directory again. */
  lemma OtherSpellingIsMissed(target: Target, row: seq<Value>, v: Values)
    requires target.Valid() && target.IsRow(row) && forall c | c in Pieces(target.HivePath(row), '/') :: !Hidden(c)
    requires |target.location| > 5 && target.location[..5] == "s3://" && v != target.Rendered(row)
    ensures var location := target.location + "/" + target.HivePath(row);
            Missed(target, map[v := "s3a://" + location[5..]], v)
  {
    hide Target.HivePath, Target.Rendered, Pieces, Hidden, NormalScheme, TrimEnd, HasLocation, Discovered;
    var path := target.HivePath(row);
    var location := target.location + "/" + path;
    var existing: Partitions := map[v := "s3a://" + location[5..]];
    DefaultIsDiscovered(target, row);
    target.HivePathSplits(row);
    Target.PlainIsTrimmed(target.location, path);
    ComparableBelow(target, path);
    assert location[..5] == target.location[..5];
    OtherLocation(existing, v, location);
    SameBucket(location, existing[v]);
    var root, there := ComparableLocation(target.location), ComparableLocation(existing[v]);
    assert there == root + "/" + path && there[..|root| + 1] == root + "/" && there[|root| + 1..] == path;
  }

  lemma OtherLocation(existing: Partitions, v: Values, location: string)
    requires |location| > 5 && location[..5] == "s3://" && Trimmed(location) == location
    requires existing == map[v := "s3a://" + location[5..]]
    ensures !HasLocation(existing, location) && Trimmed(existing[v]) == existing[v]
  {
    var other := existing[v];
    assert other[2] == 'a' && location[2] == location[..5][2] == ':';
    assert other[|other| - 1] == location[|location| - 1] != '/';
  }

  lemma SameBucket(plain: string, other: string)
    requires |plain| > 5 && plain[..5] == "s3://" && other == "s3a://" + plain[5..]
    ensures NormalScheme(plain) == NormalScheme(other) == plain
  {
    assert plain[0] == plain[..5][0] && plain[1] == plain[..5][1] && plain[2] == plain[..5][2] && plain[3] == plain[..5][3] && plain[4] == plain[..5][4];
    assert HasS3Scheme(plain) && HasHadoopScheme(other) && other[6..] == plain[5..];
    assert plain == plain[..5] + plain[5..];
  }
}
