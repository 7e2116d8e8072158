/** The list of files a scan reads: listings are planned once, run one at a time, and what they found is kept. */
module ScanFiles {
  import opened Outcomes
  import opened Text
  import opened Locations
  import opened ListingSpec
  import opened ListingPlan
  import opened ListingRefinement
  import opened LocationIndex
  import opened FileList

  lemma NoFiles(locs: seq<string>, dirs: seq<string>, listed: set<string>, owners: map<string, nat>)
    requires listed == {}
    ensures FilesOk(locs, dirs, [], listed, owners) && PairsOf([], owners) == {}
  {
  }

  lemma PairsAdded(files: seq<File>, owners: map<string, nat>, f: File, i: nat)
    requires forall a | 0 <= a < |files| :: files[a].path in owners && files[a].path != f.path
    ensures PairsOf(files + [f], owners[f.path := i]) == PairsOf(files, owners) + {(NormalScheme(f.path), i)}
  {
    var after, all := owners[f.path := i], files + [f];
    assert forall a | 0 <= a < |files| :: all[a] == files[a];
    assert all[|files|] == f;
    forall x | x in PairsOf(files, owners)
      ensures x in PairsOf(all, after)
    {
      var a :| 0 <= a < |files| && x == (NormalScheme(files[a].path), owners[files[a].path]);
      assert all[a].path in after;
    }
  }

  lemma FileAdded(locs: seq<string>, dirs: seq<string>, files: seq<File>, listed: set<string>, owners: map<string, nat>,
                  f: File, i: nat)
    requires FilesOk(locs, dirs, files, listed, owners) && f.path !in listed && Owned(locs, dirs, f, i)
    ensures FilesOk(locs, dirs, files + [f], listed + {f.path}, owners[f.path := i])
  {
    hide Owned;
    var all, after := files + [f], owners[f.path := i];
    assert forall a | 0 <= a < |files| :: all[a] == files[a] && all[a].path != f.path;
    assert all[|files|] == f;
    forall p | p in listed + {f.path}
      ensures exists a | 0 <= a < |all| :: all[a].path == p
    {
      if p in listed {
        var a :| 0 <= a < |files| && files[a].path == p;
        assert all[a].path == p;
      }
    }
  }

  /** A file listed before was given to the same partition. */
  lemma FileListed(locs: seq<string>, dirs: seq<string>, files: seq<File>, listed: set<string>, owners: map<string, nat>,
                   f: File, i: nat)
    requires FilesOk(locs, dirs, files, listed, owners) && f.path in listed && Owned(locs, dirs, f, i)
    ensures (NormalScheme(f.path), i) in PairsOf(files, owners)
  {
    var a :| 0 <= a < |files| && files[a].path == f.path;
    OwnerIsUnique(locs, owners[f.path], i, ComparableLocation(f.path));
    assert files[a].path in owners;
  }

  /** A file named in the spelling of the directory. */
  ghost predicate NamedIn(directory: string, f: File) {
    && Trimmed(directory) == directory && StartsWith(NormalScheme(f.path), NormalScheme(directory))
    && f.path == directory + NormalScheme(f.path)[|NormalScheme(directory)|..]
  }

  lemma FileObject(objects: seq<Object>, directory: string, f: File) returns (o: Object)
    requires Trimmed(directory) == directory && Canonical(objects) && f in DataFiles(objects, directory)
    ensures o in objects && Data(NormalScheme(directory), o) && IsListedAs(o, directory, f)
    ensures NormalScheme(o.key) == o.key
  {
    DataFilesAre(objects, directory);
    o :| o in objects && Data(NormalScheme(directory), o) && IsListedAs(o, directory, f);
  }

  lemma FileNamed(objects: seq<Object>, directory: string, f: File)
    requires Trimmed(directory) == directory && Canonical(objects) && f in DataFiles(objects, directory)
    ensures NamedIn(directory, f)
  {
    var o := FileObject(objects, directory, f);
    BelowStarts(o.key, NormalScheme(directory));
  }

  lemma BelowStarts(key: string, name: string)
    requires Below(key, name)
    ensures StartsWith(key, name)
  {
    assert key[..|name|] == (name + "/")[..|name|];
  }

  ghost predicate OwnFile(locs: seq<string>, i: nat, directory: string, f: File) {
    Holds(locs, i, ComparableLocation(f.path)) && NamedIn(directory, f)
  }

  lemma OwnFileBelow(locs: seq<string>, i: nat, objects: seq<Object>, directory: string, f: File)
    requires i < |locs| && locs[i] == NormalScheme(directory) != "" && Trimmed(directory) == directory && Canonical(objects)
    requires f in DataFiles(objects, directory)
    ensures OwnFile(locs, i, directory, f)
  {
    var o := FileObject(objects, directory, f);
    DataHasOwner(locs, i, o);
    FileNamed(objects, directory, f);
  }

  /** What the index answers for a file below the location of partition i. */
  lemma OwnerBelow(locs: seq<string>, i: nat, path: string, owner: Option<nat>, reading: seq<nat>)
    requires i in reading && Holds(locs, i, path)
    requires owner.Some? ==> Owns(locs, owner.value, path)
    requires owner.None? ==> HoldersWithin(locs, path, |locs[i]| - 1)
    ensures owner.Some?
    ensures !SharedWithRead(locs, owner.value, reading) ==> (Owns(locs, i, path) <==> owner.value == i)
    ensures owner.value == i && !SharedWithRead(locs, i, reading) ==> !Shared(locs, i)
  {
    if owner.Some? && Owns(locs, i, path) && owner.value != i {
      OwnersShareLocation(locs, owner.value, i, path);
    }
  }

  lemma OneFound(locs: seq<string>, f: File, i: nat)
    requires i < |locs|
    ensures FilesFound(locs, [f], [i]) == if Owns(locs, i, ComparableLocation(f.path)) then {(NormalScheme(f.path), i)} else {}
  {
    assert f in [f] && i in [i];
  }

  /** What one partition's own listing gives. */
  function OwnListing(objects: seq<Object>, directory: string): seq<File> {
    if directory == "" then [] else DataFiles(objects, directory)
  }

  lemma FoundNext(locs: seq<string>, objects: seq<Object>, read: seq<nat>, k: nat)
    requires Indexes(locs, read) && k < |read|
    ensures Indexes(locs, read[..k]) && Indexes(locs, read[..k + 1])
    ensures Found(locs, objects, read[..k + 1]) == Found(locs, objects, read[..k]) + Found(locs, objects, [read[k]])
    ensures ReadsShared(locs, objects, read[..k + 1]) <==>
            ReadsShared(locs, objects, read[..k]) || ReadsShared(locs, objects, [read[k]])
  {
    hide Owns, Data, Shared;
    assert forall i | i in read[..k + 1] :: i in read[..k] || i in [read[k]];
    assert forall i | i in read[..k] || i in [read[k]] :: i in read[..k + 1];
  }

  lemma NothingFound(locs: seq<string>, objects: seq<Object>, read: seq<nat>)
    ensures read[..0] == [] && Found(locs, objects, []) == {} && !ReadsShared(locs, objects, [])
  {
  }

  /** The directory is a spelling of a partition's location. */
  ghost predicate Spells(locs: seq<string>, i: nat, directory: string) {
    i < |locs| && Trimmed(directory) == directory && NormalScheme(directory) == locs[i]
  }

  lemma OwnListingFound(locs: seq<string>, i: nat, objects: seq<Object>, directory: string)
    requires Spells(locs, i, directory) && Canonical(objects)
    ensures FilesFound(locs, OwnListing(objects, directory), [i]) == Found(locs, objects, [i])
    ensures forall a | 0 <= a < |OwnListing(objects, directory)| :: OwnFile(locs, i, directory, OwnListing(objects, directory)[a])
  {
    if directory != "" {
      NormalSchemeKeepsLast(directory);
      OwnFilesFound(locs, objects, directory, i);
      forall f | f in DataFiles(objects, directory)
        ensures OwnFile(locs, i, directory, f)
      {
        OwnFileBelow(locs, i, objects, directory, f);
      }
    }
  }

  /** A listed file is refused exactly when a partition read together shares the location it belongs to. */
  lemma OwnListingClear(locs: seq<string>, i: nat, objects: seq<Object>, directory: string, reading: seq<nat>)
    requires Spells(locs, i, directory) && Canonical(objects) && Indexes(locs, reading) && i in reading
    ensures Clear(locs, OwnListing(objects, directory), reading) ==> !ReadsShared(locs, objects, [i])
    ensures !Clear(locs, OwnListing(objects, directory), reading) ==> ReadsShared(locs, objects, reading)
  {
    var files := OwnListing(objects, directory);
    if directory != "" {
      NormalSchemeKeepsLast(directory);
      if Clear(locs, files, reading) {
        OwnClear(locs, objects, directory, i, reading);
      } else {
        var a :| 0 <= a < |files| && !ClearFile(locs, files[a], reading);
        var w :| 0 <= w < |locs| && Owns(locs, w, ComparableLocation(files[a].path)) && SharedWithRead(locs, w, reading);
        OwnRefusal(locs, objects, directory, i, files[a], w, reading);
      }
    }
  }

  method CheckPartitions(partitions: seq<Partition>, keyCount: nat, read: seq<nat>) returns (ok: bool)
    requires forall k | 0 <= k < |read| :: read[k] < |partitions|
    ensures ok <==> !AnyMalformed(Malformed(partitions, keyCount), read)
  {
    for k := 0 to |read|
      invariant forall a | 0 <= a < k :: read[a] !in Malformed(partitions, keyCount)
    {
      var partition := partitions[read[k]];
      if partition.storageMismatch || |partition.values| != keyCount {
        return false;
      }
    }
    ok := true;
  }

  ghost predicate WithRoot(locs: seq<string>, root: string, read: seq<nat>) {
    Indexes(locs, read) && forall k | 0 <= k < |read| :: ListedWithRoot(locs[read[k]], root)
  }

  /** A file no location below the root holds belongs to no partition listed with the root. */
  lemma NoRootOwner(locs: seq<string>, root: string, f: File, read: seq<nat>)
    requires WithRoot(locs, root, read) && HoldersWithin(locs, ComparableLocation(f.path), |root|)
    ensures ClearFile(locs, f, read) && FilesFound(locs, [f], read) == {}
  {
    hide ComparableLocation, Below;
    forall i: nat | i in read
      ensures !Owns(locs, i, ComparableLocation(f.path))
    {
    }
    forall w | 0 <= w < |locs| && Owns(locs, w, ComparableLocation(f.path))
      ensures !SharedWithRead(locs, w, read)
    {
      forall k | 0 <= k < |locs| && locs[k] == locs[w]
        ensures k !in read
      {
      }
    }
  }

  /** With its owner known and no location shared, a file is found for its owner alone, when that is read. */
  lemma FoundForOwner(locs: seq<string>, f: File, owner: nat, read: seq<nat>)
    requires Indexes(locs, read) && Owns(locs, owner, ComparableLocation(f.path)) && !SharedWithRead(locs, owner, read)
    ensures FilesFound(locs, [f], read) == if owner in read then {(NormalScheme(f.path), owner)} else {}
    ensures owner in read ==> !Shared(locs, owner)
  {
    forall i: nat | i in read && Owns(locs, i, ComparableLocation(f.path))
      ensures i == owner
    {
      OwnersShareLocation(locs, i, owner, ComparableLocation(f.path));
    }
    hide Owns, ComparableLocation, NormalScheme;
    assert f in [f] && forall g | g in [f] :: g == f;
  }

  lemma RootListingClear(locs: seq<string>, objects: seq<Object>, directory: string, reading: seq<nat>)
    requires Indexes(locs, reading) && Trimmed(directory) == directory && Canonical(objects)
    ensures Clear(locs, DataFiles(objects, directory), reading) <==>
            !RootReadsShared(locs, NormalScheme(directory), objects, reading)
  {
    var files := DataFiles(objects, directory);
    if Clear(locs, files, reading) {
      RootClear(locs, objects, directory, reading);
    } else {
      var a :| 0 <= a < |files| && !ClearFile(locs, files[a], reading);
      var w :| 0 <= w < |locs| && Owns(locs, w, ComparableLocation(files[a].path)) && SharedWithRead(locs, w, reading);
      RootRefusal(locs, objects, directory, files[a], w, reading);
    }
  }

  /** What each planned listing lists: with the root what the root covers, and apart from it only the rest. */
  lemma PlannedJob(locs: seq<string>, spelled: seq<string>, root: string, read: seq<nat>, together: nat,
                   threshold: Option<nat>, k: nat)
    requires Indexes(locs, read) && together > 0 && k < |Plan(locs, spelled, root, read, together, threshold)|
    ensures var jobs := Plan(locs, spelled, root, read, together, threshold);
            && Indexes(locs, jobs[k].partitions)
            && (jobs[k].root ==> k == 0 && WithRoot(locs, root, jobs[k].partitions) && jobs[k].partitions != [])
            && (!jobs[k].root && jobs[0].root ==>
                 forall m | 0 <= m < |jobs[k].partitions| :: !ListedWithRoot(locs[jobs[k].partitions[m]], root))
  {
    hide ListedWithRoot, BelowRoot, Elsewhere, Batches;
    var jobs := Plan(locs, spelled, root, read, together, threshold);
    JobsPartitionRead(locs, spelled, root, read, together, threshold);
    PlanParts(locs, spelled, root, read, together, threshold);
    var elsewhere := Elsewhere(locs, root, read);
    NoRootBatches(BelowRoot(locs, root, read) + elsewhere, together);
    if !jobs[k].root && jobs[0].root {
      BatchesOf(elsewhere, together);
      forall m | 0 <= m < |jobs[k].partitions|
        ensures jobs[k].partitions[m] in elsewhere
      {
        assert jobs[k].partitions[m] in jobs[k].partitions;
        ConcatenatedHas(Batches(elsewhere, together), jobs[k].partitions[m]);
      }
    }
  }

  lemma NoRootBatches(s: seq<nat>, together: nat)
    requires together > 0
    ensures Batches(s, together) != [] ==> !Batches(s, together)[0].root
  {
  }

  lemma NextJob(locs: seq<string>, malformed: set<nat>, root: string, objects: seq<Object>, jobs: seq<Job>, n: nat)
    requires JobIndexes(locs, jobs) && n < |jobs|
    ensures JobIndexes(locs, jobs[..n]) && JobIndexes(locs, jobs[..n + 1])
    ensures AllFound(locs, root, objects, jobs[..n + 1]) ==
            AllFound(locs, root, objects, jobs[..n]) + JobFound(locs, root, objects, jobs[n])
    ensures AnyRefused(locs, malformed, root, objects, jobs[..n + 1]) <==>
            AnyRefused(locs, malformed, root, objects, jobs[..n]) || JobRefused(locs, malformed, root, objects, jobs[n])
    ensures JobRefused(locs, malformed, root, objects, jobs[n]) ==> AnyRefused(locs, malformed, root, objects, jobs)
  {
    hide JobFound, JobRefused, Indexes;
    var front, longer := jobs[..n], jobs[..n + 1];
    assert forall k | 0 <= k < n :: longer[k] == front[k] == jobs[k];
    assert JobResults(locs, root, objects, longer)[..n] == JobResults(locs, root, objects, front);
  }

  /** At least one file is expected of every listing left, and of every partition. */
  method RemainingPartitions(jobs: seq<Job>, next: nat) returns (count: nat)
    requires next <= |jobs|
    ensures (forall k | 0 <= k < |jobs| :: |jobs[k].partitions| >= 1) ==> count == |Concatenated(jobs[next..])|
  {
    count := 0;
    for i := next to |jobs|
      invariant (forall k | 0 <= k < |jobs| :: |jobs[k].partitions| >= 1) ==>
                  count + |Concatenated(jobs[i..])| == |Concatenated(jobs[next..])|
    {
      assert jobs[i..][1..] == jobs[i + 1..];
      count := count + if |jobs[i].partitions| > 1 then |jobs[i].partitions| else 1;
    }
  }

  lemma RootIsNamed(locs: seq<string>, directory: string, read: seq<nat>)
    requires WithRoot(locs, NormalScheme(directory), read) && read != []
    ensures directory != ""
  {
    assert ListedWithRoot(locs[read[0]], NormalScheme(directory));
  }

  lemma SpelledLocations(ps: seq<Partition>, i: nat)
    requires i < |ps|
    ensures Spells(Locs(ps), i, Spelled(ps)[i])
  {
  }

  method PlanJobs(locs: seq<string>, spelled: seq<string>, root: string, indexes: seq<nat>, together: nat,
                  threshold: Option<nat>)
    returns (jobs: seq<Job>)
    requires Indexes(locs, indexes) && together > 0
    ensures jobs == Plan(locs, spelled, root, indexes, together, threshold)
  {
    jobs := [];
    var belowRoot, elsewhere := SplitByRoot(locs, root, indexes);
    var partitionsBelowRoot := CountPartitionsBelow(spelled, root);
    var separately := belowRoot;
    if ListsRoot(|belowRoot|, partitionsBelowRoot, together, threshold) {
      jobs := [Job(true, belowRoot)];
      separately := [];
      assert separately + elsewhere == elsewhere;
    }
    jobs := AddBatches(jobs, separately + elsewhere, together);
  }

  class HiveMultiFileList {
    const partitions: seq<Partition>
    const keyCount: nat
    const rootLocation: string
    const rootDirectory: string
    const objects: seq<Object>
    const indexes: seq<nat>
    const listedTogether: nat
    const threshold: Option<nat>
    const locs: seq<string>
    const spelled: seq<string>

    ghost var dirs: seq<string>
    var planned: bool
    var listingJobs: seq<Job>
    var nextJob: nat
    var allFilesExpanded: bool
    var expandedFiles: seq<File>
    var listedFiles: set<string>
    var filePartitions: map<string, nat>
    var locationsBuilt: bool
    var partitionByLocation: map<string, nat>
    var sharedLocations: map<nat, seq<nat>>

    /** A list over the stored objects, reading the given partitions. */
    constructor (partitions: seq<Partition>, keyCount: nat, rootLocation: string, objects: seq<Object>, indexes: seq<nat>,
                 threads: nat, threshold: Option<nat>)
      requires Canonical(objects) && Indexes(Locs(partitions), indexes)
      ensures Valid() && InStep() && !planned && expandedFiles == [] && nextJob == 0
      ensures this.partitions == partitions && this.keyCount == keyCount && this.rootLocation == rootLocation
      ensures this.objects == objects && this.indexes == indexes && this.threshold == threshold
    {
      this.partitions, this.keyCount, this.rootDirectory := partitions, keyCount, Trimmed(rootLocation);
      this.rootLocation := rootLocation;
      this.objects, this.indexes, this.threshold := objects, indexes, threshold;
      listedTogether := if threads > 1 then threads else 1;
      locs, spelled := Locs(partitions), Spelled(partitions);
      dirs := Directories(Locs(partitions), Spelled(partitions), Trimmed(rootLocation), false);
      planned, listingJobs, nextJob, allFilesExpanded := false, [], 0, false;
      expandedFiles, listedFiles, filePartitions := [], {}, map[];
      locationsBuilt, partitionByLocation, sharedLocations := false, map[], map[];
    }

    ghost function Root(): string {
      NormalScheme(rootDirectory)
    }

    ghost predicate Constants() {
      && listedTogether > 0 && locs == Locs(partitions) && spelled == Spelled(partitions)
      && rootDirectory == Trimmed(rootLocation) && Indexes(locs, indexes) && Canonical(objects)
    }

    ghost predicate SameCount() {
      |locs| == |spelled|
    }

    ghost predicate IndexValid()
      reads this
    {
      locationsBuilt ==> Indexed(locs, partitionByLocation) && SharedIndexed(locs, sharedLocations)
    }

    /** The directory each partition is listed through. */
    ghost predicate DirsValid()
      reads this`dirs, this`listingJobs
    {
      SameCount() && dirs == Directories(locs, spelled, rootDirectory, listingJobs != [] && listingJobs[0].root)
    }

    ghost predicate FilesValid()
      reads this
    {
      FilesOk(locs, dirs, expandedFiles, listedFiles, filePartitions)
    }

    /** The files found so far: each under its canonical name, with the partition it belongs to. */
    ghost function Pairs(): set<(string, nat)>
      requires FilesValid()
      reads this
    {
      PairsOf(expandedFiles, filePartitions)
    }

    ghost predicate PlanValid()
      reads this
      requires Constants()
    {
      && nextJob <= |listingJobs|
      && (allFilesExpanded ==> planned && nextJob == |listingJobs|)
      && (!planned ==> listingJobs == [] && expandedFiles == [] && listedFiles == {})
      && (planned ==> listingJobs == if keyCount == 0 then [Job(true, [])]
                                     else Plan(locs, spelled, Root(), indexes, listedTogether, threshold))
    }

    /** The lists' invariant: with partition keys the files are exactly those the listings run so far found. */
    ghost predicate Valid()
      reads this
    {
      && Constants() && IndexValid() && PlanValid() && DirsValid()
      && (keyCount > 0 ==> FilesValid())
      && (keyCount == 0 ==> expandedFiles == if nextJob == 0 then [] else OwnListing(objects, rootDirectory))
    }

    method PlanListings()
      requires Valid()
      modifies this`planned, this`listingJobs, this`dirs
      ensures Valid() && planned && (old(planned) ==> listingJobs == old(listingJobs))
      ensures keyCount > 0 ==> Pairs() == old(Pairs())
    {
      hide Owned, Owns, Holds, Plan, Locs, Spelled, Directories, DataFiles;
      if planned {
        return;
      }
      planned := true;
      if keyCount == 0 {
        listingJobs := [Job(true, [])];
        dirs := Directories(locs, spelled, rootDirectory, true);
        return;
      }
      listingJobs := PlanJobs(locs, spelled, NormalScheme(rootDirectory), indexes, listedTogether, threshold);
      dirs := Directories(locs, spelled, rootDirectory, listingJobs != [] && listingJobs[0].root);
      NoFiles(locs, dirs, listedFiles, filePartitions);
    }

    method EnsureLocationsBuilt()
      requires IndexValid()
      modifies this`locationsBuilt, this`partitionByLocation, this`sharedLocations
      ensures IndexValid() && locationsBuilt
    {
      if !locationsBuilt {
        partitionByLocation, sharedLocations := BuildPartitionLocations(locs);
        locationsBuilt := true;
      }
    }

    method AddFile(file: File, partition: nat)
      requires FilesValid() && Owned(locs, dirs, file, partition)
      modifies this`expandedFiles, this`listedFiles, this`filePartitions
      ensures FilesValid()
      ensures Pairs() == old(Pairs()) + {(NormalScheme(file.path), partition)}
    {
      if file.path in listedFiles {
        FileListed(locs, dirs, expandedFiles, listedFiles, filePartitions, file, partition);
        return;
      }
      listedFiles := listedFiles + {file.path};
      filePartitions := filePartitions[file.path := partition];
      ghost var before := expandedFiles;
      expandedFiles := expandedFiles + [file];
      FileAdded(locs, dirs, before, old(listedFiles), old(filePartitions), file, partition);
      PairsAdded(before, old(filePartitions), file, partition);
    }

    /** A file of one partition's listing is kept unless a partition registered at a nested location owns it. */
    method AddOwnFile(ghost directory: string, file: File, partition: nat, reading: seq<nat>) returns (ok: bool)
      requires FilesValid() && IndexValid() && locationsBuilt
      requires partition in reading && partition < |locs| == |dirs|
      requires directory == dirs[partition] && OwnFile(locs, partition, directory, file)
      modifies this`expandedFiles, this`listedFiles, this`filePartitions
      ensures FilesValid()
      ensures ok <==> ClearFile(locs, file, reading)
      ensures ok ==> Pairs() == old(Pairs()) + FilesFound(locs, [file], [partition])
    {
      ghost var path := ComparableLocation(file.path);
      var owner := OwningPartition(locs, partitionByLocation, file.path, |locs[partition]|);
      OwnerBelow(locs, partition, path, owner, reading);
      OneFound(locs, file, partition);
      ClearByOwner(locs, file, owner.value, reading);
      if owner.Some? && owner.value != partition {
        var refuse := LocationShared(locs, sharedLocations, owner.value, reading);
        return !refuse;
      }
      var refuse := LocationShared(locs, sharedLocations, partition, reading);
      if refuse {
        return false;
      }
      AddFile(file, partition);
      ok := true;
    }

    method AddOwnFiles(ghost directory: string, files: seq<File>, partition: nat, reading: seq<nat>) returns (ok: bool)
      requires FilesValid() && IndexValid() && locationsBuilt
      requires partition in reading && partition < |locs| == |dirs|
      requires directory == dirs[partition] && forall a | 0 <= a < |files| :: OwnFile(locs, partition, directory, files[a])
      modifies this`expandedFiles, this`listedFiles, this`filePartitions
      ensures FilesValid()
      ensures ok <==> Clear(locs, files, reading)
      ensures ok ==> Pairs() == old(Pairs()) + FilesFound(locs, files, [partition])
    {
      hide Owned, OwnFile, ClearFile, Owns, Holds;
      for n := 0 to |files|
        invariant FilesValid() && directory == dirs[partition] && Clear(locs, files[..n], reading)
        invariant Pairs() == old(Pairs()) + FilesFound(locs, files[..n], [partition])
      {
        FilesFoundNext(locs, files, n, [partition]);
        ClearNext(locs, files, n, reading);
        var added := AddOwnFile(directory, files[n], partition, reading);
        if !added {
          return false;
        }
      }
      assert files[..|files|] == files;
      ok := true;
    }

    ghost predicate ListedApart(read: seq<nat>)
      reads this`dirs
    {
      && Indexes(locs, read) && |locs| == |dirs| == |spelled|
      && forall k | 0 <= k < |read| :: dirs[read[k]] == spelled[read[k]] && Spells(locs, read[k], spelled[read[k]])
    }

    method ListDirectories(read: seq<nat>) returns (listed: seq<seq<File>>)
      requires ListedApart(read)
      ensures |listed| == |read| && forall k | 0 <= k < |read| :: listed[k] == OwnListing(objects, spelled[read[k]])
    {
      listed := [];
      for k := 0 to |read|
        invariant |listed| == k && forall m | 0 <= m < k :: listed[m] == OwnListing(objects, spelled[read[m]])
      {
        assert Spells(locs, read[k], spelled[read[k]]);
        var files := ListDataFiles(objects, spelled[read[k]]);
        listed := listed + [files];
      }
    }

    method ListPartitions(read: seq<nat>) returns (ok: bool)
      requires FilesValid() && IndexValid() && Canonical(objects) && ListedApart(read)
      modifies this`expandedFiles, this`listedFiles, this`filePartitions
      modifies this`locationsBuilt, this`partitionByLocation, this`sharedLocations
      ensures FilesValid() && IndexValid()
      ensures ok <==> !ReadsShared(locs, objects, read)
      ensures ok ==> Pairs() == old(Pairs()) + Found(locs, objects, read)
    {
      hide Found, FilesFound, ReadsShared, Clear, OwnListing, OwnFile, Owned;
      var listed := ListDirectories(read);
      EnsureLocationsBuilt();
      NothingFound(locs, objects, read);
      for k := 0 to |read|
        invariant FilesValid() && IndexValid() && locationsBuilt && Indexes(locs, read[..k])
        invariant !ReadsShared(locs, objects, read[..k])
        invariant Pairs() == old(Pairs()) + Found(locs, objects, read[..k])
      {
        var i := read[k];
        assert Spells(locs, i, spelled[i]) && dirs[i] == spelled[i];
        FoundNext(locs, objects, read, k);
        OwnListingFound(locs, i, objects, spelled[i]);
        OwnListingClear(locs, i, objects, spelled[i], read);
        var added := AddOwnFiles(spelled[i], listed[k], i, read);
        if !added {
          return false;
        }
      }
      assert read[..|read|] == read;
      ok := true;
    }

    ghost predicate ListedTogether(read: seq<nat>)
      reads this`dirs
    {
      && WithRoot(locs, Root(), read) && |locs| == |dirs|
      && forall k | 0 <= k < |read| :: dirs[read[k]] == rootDirectory
    }

    /** A file of the root's listing is kept for the partition it belongs to, if that is read. */
    method AddRootFile(file: File, read: seq<nat>) returns (ok: bool)
      requires FilesValid() && IndexValid() && locationsBuilt && ListedTogether(read) && NamedIn(rootDirectory, file)
      modifies this`expandedFiles, this`listedFiles, this`filePartitions
      ensures FilesValid()
      ensures ok <==> ClearFile(locs, file, read)
      ensures ok ==> Pairs() == old(Pairs()) + FilesFound(locs, [file], read)
    {
      var owner := OwningPartition(locs, partitionByLocation, file.path, |NormalScheme(rootDirectory)| + 1);
      if owner.None? {
        NoRootOwner(locs, Root(), file, read);
        return true;
      }
      ClearByOwner(locs, file, owner.value, read);
      var refuse := LocationShared(locs, sharedLocations, owner.value, read);
      if refuse {
        return false;
      }
      FoundForOwner(locs, file, owner.value, read);
      if owner.value in read {
        ghost var k :| 0 <= k < |read| && read[k] == owner.value;
        AddFile(file, owner.value);
      }
      ok := true;
    }

    method AddRootFiles(files: seq<File>, read: seq<nat>) returns (ok: bool)
      requires FilesValid() && IndexValid() && locationsBuilt && ListedTogether(read)
      requires forall a | 0 <= a < |files| :: NamedIn(rootDirectory, files[a])
      modifies this`expandedFiles, this`listedFiles, this`filePartitions
      ensures FilesValid()
      ensures ok <==> Clear(locs, files, read)
      ensures ok ==> Pairs() == old(Pairs()) + FilesFound(locs, files, read)
    {
      hide Owned, NamedIn, ClearFile, Owns, Holds;
      for n := 0 to |files|
        invariant FilesValid() && Clear(locs, files[..n], read)
        invariant Pairs() == old(Pairs()) + FilesFound(locs, files[..n], read)
      {
        FilesFoundNext(locs, files, n, read);
        ClearNext(locs, files, n, read);
        var added := AddRootFile(files[n], read);
        if !added {
          return false;
        }
      }
      assert files[..|files|] == files;
      ok := true;
    }

    method ListRoot(read: seq<nat>) returns (ok: bool)
      requires FilesValid() && IndexValid() && Canonical(objects) && ListedTogether(read)
      requires Trimmed(rootDirectory) == rootDirectory
      modifies this`expandedFiles, this`listedFiles, this`filePartitions
      modifies this`locationsBuilt, this`partitionByLocation, this`sharedLocations
      ensures FilesValid() && IndexValid()
      ensures ok <==> rootDirectory != "" && !RootReadsShared(locs, Root(), objects, read)
      ensures ok ==> Pairs() == old(Pairs()) + RootFound(locs, Root(), objects, read)
    {
      hide RootFound, FilesFound, RootReadsShared, Clear, Owned, NamedIn, DataFiles;
      if rootDirectory == "" {
        return false;
      }
      var files := ListDataFiles(objects, rootDirectory);
      EnsureLocationsBuilt();
      RootFilesFound(locs, objects, rootDirectory, read);
      RootListingClear(locs, objects, rootDirectory, read);
      forall a | 0 <= a < |files|
        ensures NamedIn(rootDirectory, files[a])
      {
        FileNamed(objects, rootDirectory, files[a]);
      }
      ok := AddRootFiles(files, read);
    }

    ghost predicate Refusable(job: Job)
      requires Indexes(locs, job.partitions)
    {
      JobRefused(locs, Malformed(partitions, keyCount), Root(), objects, job)
    }

    /** Runs a planned listing. */
    method RunJob(job: Job) returns (ok: bool)
      requires FilesValid() && IndexValid() && Canonical(objects) && rootDirectory == Trimmed(rootLocation)
      requires if job.root then rootDirectory != "" && ListedTogether(job.partitions) else ListedApart(job.partitions)
      requires |locs| == |partitions|
      modifies this`expandedFiles, this`listedFiles, this`filePartitions
      modifies this`locationsBuilt, this`partitionByLocation, this`sharedLocations
      ensures FilesValid() && IndexValid()
      ensures ok <==> !Refusable(job)
      ensures ok ==> Pairs() == old(Pairs()) + JobFound(locs, Root(), objects, job)
    {
      hide Found, RootFound, Owned, ReadsShared, RootReadsShared, ListedWithRoot;
      ok := CheckPartitions(partitions, keyCount, job.partitions);
      if !ok {
        return;
      }
      if job.root {
        ok := ListRoot(job.partitions);
      } else {
        ok := ListPartitions(job.partitions);
      }
    }

    ghost predicate Runnable(k: nat)
      reads this`listingJobs, this`dirs
    {
      && k < |listingJobs| && Indexes(locs, listingJobs[k].partitions)
      && if listingJobs[k].root then rootDirectory != "" && ListedTogether(listingJobs[k].partitions)
         else ListedApart(listingJobs[k].partitions)
    }

    lemma PlannedIsRunnable(k: nat)
      requires Constants() && PlanValid() && DirsValid() && planned && keyCount > 0 && k < |listingJobs|
      ensures Runnable(k)
    {
      hide ListedWithRoot, Plan, Spells, Locs, Spelled;
      PlannedJob(locs, spelled, Root(), indexes, listedTogether, threshold, k);
      var job := listingJobs[k];
      forall m | 0 <= m < |job.partitions|
        ensures Spells(locs, job.partitions[m], spelled[job.partitions[m]])
      {
        SpelledLocations(partitions, job.partitions[m]);
      }
      if job.root {
        RootIsNamed(locs, rootDirectory, job.partitions);
      }
    }

    /** The files found and the listings run so far agree, and none of them was refused. */
    ghost predicate InStep()
      requires Valid()
      reads this
    {
      keyCount > 0 ==>
        && JobIndexes(locs, listingJobs[..nextJob])
        && Pairs() == AllFound(locs, Root(), objects, listingJobs[..nextJob])
        && !AnyRefused(locs, Malformed(partitions, keyCount), Root(), objects, listingJobs[..nextJob])
    }

    lemma PlannedIndexes()
      requires Constants() && PlanValid() && DirsValid() && planned && keyCount > 0
      ensures JobIndexes(locs, listingJobs)
    {
      forall k | 0 <= k < |listingJobs|
        ensures Indexes(locs, listingJobs[k].partitions)
      {
        PlannedIsRunnable(k);
      }
    }

    ghost predicate NeverRefused()
      reads this`listingJobs
    {
      JobIndexes(locs, listingJobs) && !AnyRefused(locs, Malformed(partitions, keyCount), Root(), objects, listingJobs)
    }

    method RunNextJob() returns (ok: bool)
      requires Valid() && InStep() && planned && keyCount > 0 && nextJob < |listingJobs| && !allFilesExpanded
      modifies this`expandedFiles, this`listedFiles, this`filePartitions, this`nextJob
      modifies this`locationsBuilt, this`partitionByLocation, this`sharedLocations
      ensures nextJob == old(nextJob) + 1
      ensures ok ==> Valid() && InStep()
      ensures !ok ==> !NeverRefused()
    {
      hide Locs, Spelled, Plan, Malformed, Directories, Owned, JobRefused, JobFound, AllFound;
      PlannedIsRunnable(nextJob);
      PlannedIndexes();
      NextJob(locs, Malformed(partitions, keyCount), Root(), objects, listingJobs, nextJob);
      var job := listingJobs[nextJob];
      nextJob := nextJob + 1;
      ok := RunJob(job);
    }

    /** Runs the next listing, if any is left. A refused listing ends the scan. */
    method ExpandNextPath() returns (ok: bool, expanded: bool)
      requires Valid() && InStep() && !allFilesExpanded
      modifies this
      ensures ok ==> Valid() && InStep() && planned
      ensures nextJob == old(nextJob) + if expanded then 1 else 0
      ensures old(planned) ==> listingJobs == old(listingJobs)
      ensures nextJob <= |listingJobs| && (!expanded ==> ok && nextJob == |listingJobs|)
      ensures allFilesExpanded == old(allFilesExpanded)
      ensures !ok ==> if keyCount == 0 then rootLocation == "" else !NeverRefused()
    {
      hide Locs, Spelled, Plan, Malformed, Directories, Owned, JobRefused, JobFound, AllFound;
      PlanListings();
      if nextJob >= |listingJobs| {
        return true, false;
      }
      expanded := true;
      if keyCount > 0 {
        ok := RunNextJob();
        return;
      }
      ok := ListTable();
    }

    /** A table without partition keys is one listing. */
    method ListTable() returns (ok: bool)
      requires Valid() && planned && keyCount == 0 && nextJob < |listingJobs|
      modifies this`expandedFiles, this`nextJob
      ensures ok <==> rootLocation != ""
      ensures nextJob == old(nextJob) + 1
      ensures expandedFiles == if ok then OwnListing(objects, rootDirectory) else old(expandedFiles)
    {
      nextJob := nextJob + 1;
      ok := rootLocation != "";
      if ok {
        expandedFiles := ListDataFiles(objects, rootLocation);
      }
    }

    /** What the scan reads, said without its listings: each data file once, for the one partition registered deepest
        above it. */
    ghost predicate Complete()
      requires Valid() && keyCount > 0
      reads this
    {
      && Pairs() == Found(locs, objects, indexes)
      && (forall a, b :: 0 <= a < b < |expandedFiles| ==>
           NormalScheme(expandedFiles[a].path) != NormalScheme(expandedFiles[b].path))
      && !Refused(locs, Malformed(partitions, keyCount), objects, indexes)
    }

    /** The root is not listed, or its listing skips none of the locations listed with it. */
    ghost predicate RootSeesAll()
      reads this`listingJobs
    {
      JobIndexes(locs, listingJobs) && RootSees(locs, Root(), listingJobs)
    }

    /** That depends on the locations alone when none of those read has a hidden component below the root. */
    lemma NoneHiddenIsSeen()
      requires Valid() && keyCount > 0 && planned && NoneHidden(locs, Root(), indexes)
      ensures RootSeesAll()
    {
      hide Plan, Malformed, Directories, Locs, Spelled, Owned, NoneHidden;
      JobsPartitionRead(locs, spelled, Root(), indexes, listedTogether, threshold);
    }

    /** The scan is complete when every listing was run, unless the root's listing skipped a hidden directory. */
    lemma AllExpandedIsComplete()
      requires Valid() && InStep() && keyCount > 0 && planned && nextJob == |listingJobs|
      requires RootSeesAll()
      ensures Complete()
    {
      hide Plan, Malformed, Directories, Locs, Spelled, Found, Refused, AllFound, AnyRefused, Owned, RootSees;
      PlanRefines(locs, spelled, Malformed(partitions, keyCount), Root(), objects, indexes, listedTogether, threshold);
      assert listingJobs[..nextJob] == listingJobs;
      KeysAreDistinct(locs, dirs, expandedFiles, listedFiles, filePartitions);
    }

    lemma PlanAgrees()
      requires Valid() && keyCount > 0 && planned && RootSeesAll()
      ensures NeverRefused() <==> !Refused(locs, Malformed(partitions, keyCount), objects, indexes)
    {
      hide Plan, Malformed, Directories, Locs, Spelled, Refused, AnyRefused, Owned, RootSees;
      PlanRefines(locs, spelled, Malformed(partitions, keyCount), Root(), objects, indexes, listedTogether, threshold);
    }

    /** No planned listing lists nothing. */
    lemma PlannedParts()
      requires Valid() && keyCount > 0 && planned
      ensures forall k | 0 <= k < |listingJobs| :: |listingJobs[k].partitions| >= 1
    {
      hide Plan, Malformed, Directories, Locs, Spelled, Owned;
      PlanParts(locs, spelled, Root(), indexes, listedTogether, threshold);
      forall k | 0 <= k < |listingJobs|
        ensures |listingJobs[k].partitions| >= 1
      {
        PlannedJob(locs, spelled, Root(), indexes, listedTogether, threshold, k);
        assert listingJobs[k] in listingJobs;
      }
    }

    /** The files expanded and, until all are, one more for each partition still to list. */
    method GetFileCount(minExactCount: nat) returns (ok: bool, count: nat)
      requires Valid() && InStep()
      modifies this
      ensures ok ==> Valid() && InStep() && planned
      ensures ok && !allFilesExpanded ==> |expandedFiles| >= minExactCount
      ensures |old(expandedFiles)| >= minExactCount ==> ok && nextJob == old(nextJob)
      ensures ok && allFilesExpanded ==> count == |expandedFiles|
      ensures ok && !allFilesExpanded && keyCount > 0 ==>
                count == |expandedFiles| + |Concatenated(listingJobs[nextJob..])|
      ensures ok && allFilesExpanded && keyCount > 0 && RootSeesAll() ==> Complete()
      ensures !ok && keyCount > 0 && RootSeesAll() ==>
                Refused(locs, Malformed(partitions, keyCount), objects, indexes)
      ensures !ok && keyCount == 0 ==> rootLocation == ""
    {
      hide Plan, Malformed, Directories, Locs, Spelled, Found, Refused, AllFound, AnyRefused, Owned, RootSeesAll, Batches;
      ok, count := true, 0;
      PlanListings();
      ghost var jobs := listingJobs;
      if keyCount > 0 && RootSeesAll() {
        PlanAgrees();
      }
      while !allFilesExpanded && |expandedFiles| < minExactCount
        invariant ok && Valid() && InStep() && planned && listingJobs == jobs
        invariant |old(expandedFiles)| >= minExactCount ==> nextJob == old(nextJob) && expandedFiles == old(expandedFiles)
        decreases |listingJobs| - nextJob, if allFilesExpanded then 0 else 1
      {
        var expanded;
        ok, expanded := ExpandNextPath();
        if !ok {
          return;
        }
        if !expanded {
          allFilesExpanded := true;
        }
      }
      count := |expandedFiles|;
      if allFilesExpanded {
        if keyCount > 0 && RootSeesAll() {
          AllExpandedIsComplete();
        }
        return;
      }
      if keyCount > 0 {
        PlannedParts();
      }
      var remaining := RemainingPartitions(listingJobs, nextJob);
      count := count + remaining;
    }
  }
}
