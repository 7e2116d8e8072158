/** The lazily expanded list of a Hive table's data files. */
module FileList {
  import opened Text
  import opened Locations
  import opened ListingSpec
  import opened ListingPlan
  import opened LocationIndex

  /** The data files of a listing. */
  function DataFiles(objects: seq<Object>, directory: string): seq<File> {
    if objects == [] then []
    else
      var o := objects[0];
      (if Below(o.key, NormalScheme(directory)) && IsDataFile(ListedAs(o, directory), directory + "/")
       then [ListedAs(o, directory)] else []) + DataFiles(objects[1..], directory)
  }

  /** A file is reported if and only if its object is a data file below the directory. */
  lemma {:induction false} DataFilesAre(objects: seq<Object>, directory: string)
    requires Trimmed(directory) == directory && Canonical(objects)
    ensures forall f | f in DataFiles(objects, directory) ::
              exists o | o in objects :: Data(NormalScheme(directory), o) && IsListedAs(o, directory, f)
    ensures forall o | o in objects && Data(NormalScheme(directory), o) ::
              IsListedAs(o, directory, ListedAs(o, directory)) && ListedAs(o, directory) in DataFiles(objects, directory)
  {
    if objects != [] {
      var o := objects[0];
      assert o in objects;
      assert forall x | x in objects[1..] :: x in objects;
      DataFilesAre(objects[1..], directory);
      if Below(o.key, NormalScheme(directory)) {
        ListedAsObject(o, directory);
      }
      assert forall x | x in objects :: x == o || x in objects[1..];
    }
  }

  lemma VisibleStays(key: string, directory: string)
    requires Below(key, directory) && Visible(key[|directory| + 1..])
    ensures Below(Trimmed(key), directory)
  {
    var rest := key[|directory| + 1..];
    assert Split(rest, '/')[0] == Pieces(rest, '/')[0];
    assert rest != "" && rest[0] != '/' by {
      if rest != "" && rest[0] == '/' {
        assert Pieces(rest, '/')[0] == "";
        assert Hidden(Split(rest, '/')[0]);
      }
    }
    assert key[|directory| + 1] == rest[0];
    var t := Trimmed(key);
    assert t[..|directory| + 1] == key[..|directory| + 1];
  }

  /** A data file of a partition's listing is below its location, so some partition owns it; the owner's location is no
      shorter, and the object is a data file of the owner too. */
  lemma DataHasOwner(locs: seq<string>, i: nat, o: Object)
    requires i < |locs| && locs[i] != "" && Data(locs[i], o) && NormalScheme(o.key) == o.key
    ensures Holds(locs, i, ComparableLocation(o.key))
  {
    VisibleStays(o.key, locs[i]);
    ComparableOfKey(o.key);
  }

  lemma OwnerSeesData(locs: seq<string>, i: nat, j: nat, o: Object)
    requires Holds(locs, i, ComparableLocation(o.key)) && Owns(locs, j, ComparableLocation(o.key))
    requires Data(locs[i], o) && NormalScheme(o.key) == o.key
    ensures Data(locs[j], o)
  {
    var path := ComparableLocation(o.key);
    HolderEndsAtSlash(locs, i, path);
    HolderEndsAtSlash(locs, j, path);
    if |locs[i]| == |locs[j]| {
      assert locs[i] == locs[j];
    } else {
      assert locs[j] == path[..|locs[j]|];
      assert locs[j][..|locs[i]| + 1] == path[..|locs[i]| + 1] == locs[i] + "/";
      DataThrough(locs, j, locs[i], o);
    }
  }

  /** A listed file: named in the spelling of the directory its partition is listed through. */
  ghost predicate Owned(locs: seq<string>, dirs: seq<string>, f: File, i: nat) {
    && i < |locs| == |dirs| && Owns(locs, i, ComparableLocation(f.path)) && !Shared(locs, i)
    && Trimmed(dirs[i]) == dirs[i] && StartsWith(NormalScheme(f.path), NormalScheme(dirs[i]))
    && f.path == dirs[i] + NormalScheme(f.path)[|NormalScheme(dirs[i])|..]
  }

  ghost predicate FilesOk(locs: seq<string>, dirs: seq<string>, files: seq<File>, listed: set<string>,
                          owners: map<string, nat>)
  {
    && (forall a | 0 <= a < |files| :: files[a].path in listed && files[a].path in owners &&
                                       Owned(locs, dirs, files[a], owners[files[a].path]))
    && (forall p | p in listed :: exists a | 0 <= a < |files| :: files[a].path == p)
    && (forall a, b :: 0 <= a < b < |files| ==> files[a].path != files[b].path)
  }

  ghost function PairsOf(files: seq<File>, owners: map<string, nat>): set<(string, nat)>
    requires forall a | 0 <= a < |files| :: files[a].path in owners
  {
    set a | 0 <= a < |files| :: (NormalScheme(files[a].path), owners[files[a].path])
  }

  /** No object is listed twice, under one name or two. */
  lemma KeysAreDistinct(locs: seq<string>, dirs: seq<string>, files: seq<File>, listed: set<string>, owners: map<string, nat>)
    requires FilesOk(locs, dirs, files, listed, owners)
    ensures forall a, b :: 0 <= a < b < |files| ==> NormalScheme(files[a].path) != NormalScheme(files[b].path)
  {
    forall a, b | 0 <= a < b < |files| && NormalScheme(files[a].path) == NormalScheme(files[b].path)
      ensures false
    {
      var i, j := owners[files[a].path], owners[files[b].path];
      NamedAsKey(locs, dirs, files[a], i);
      NamedAsKey(locs, dirs, files[b], j);
      OwnersShareLocation(locs, i, j, ComparableLocation(files[a].path));
    }
  }

  lemma NamedAsKey(locs: seq<string>, dirs: seq<string>, f: File, i: nat)
    requires Owned(locs, dirs, f, i)
    ensures ComparableLocation(f.path) == ComparableLocation(NormalScheme(f.path))
  {
    hide NormalScheme, ComparableLocation, Trimmed, Owns;
    var key, name := NormalScheme(f.path), NormalScheme(dirs[i]);
    ComparableOfChild(dirs[i], key[|name|..]);
    assert key == name + key[|name|..];
  }

  lemma OwnerIsUnique(locs: seq<string>, i: nat, j: nat, path: string)
    requires Owns(locs, i, path) && Owns(locs, j, path) && !Shared(locs, i)
    ensures i == j
  {
    OwnersShareLocation(locs, i, j, path);
  }

  /** The pairs that files found by listings are for the partitions read. */
  function FilesFound(locs: seq<string>, files: seq<File>, read: seq<nat>): set<(string, nat)>
    requires Indexes(locs, read)
  {
    set f, i | i in read && f in files && Owns(locs, i, ComparableLocation(f.path)) :: (NormalScheme(f.path), i)
  }

  lemma FilesFoundNext(locs: seq<string>, files: seq<File>, n: nat, read: seq<nat>)
    requires Indexes(locs, read) && n < |files|
    ensures FilesFound(locs, files[..n + 1], read) == FilesFound(locs, files[..n], read) + FilesFound(locs, [files[n]], read)
  {
    assert files[..n + 1] == files[..n] + [files[n]];
    assert forall x: File | x in files[..n + 1] :: x in files[..n] || x in [files[n]];
  }

  lemma ClearNext(locs: seq<string>, files: seq<File>, n: nat, reading: seq<nat>)
    requires n < |files|
    ensures Clear(locs, files[..n + 1], reading) <==> Clear(locs, files[..n], reading) && ClearFile(locs, files[n], reading)
    ensures Clear(locs, files, reading) ==> ClearFile(locs, files[n], reading)
  {
    assert files[..n + 1] == files[..n] + [files[n]];
  }

  lemma OwnFilesFound(locs: seq<string>, objects: seq<Object>, directory: string, i: nat)
    requires i < |locs| && Trimmed(directory) == directory && NormalScheme(directory) == locs[i] && Canonical(objects)
    ensures FilesFound(locs, DataFiles(objects, directory), [i]) == Found(locs, objects, [i])
  {
    DataFilesAre(objects, directory);
    var files := DataFiles(objects, directory);
    forall x | x in Found(locs, objects, [i])
      ensures x in FilesFound(locs, files, [i])
    {
      var o :| o in objects && Owns(locs, i, ComparableLocation(o.key)) && Data(locs[i], o) && x == (o.key, i);
      assert ListedAs(o, directory) in files;
    }
    forall x | x in FilesFound(locs, files, [i])
      ensures x in Found(locs, objects, [i])
    {
      var f :| f in files && Owns(locs, i, ComparableLocation(f.path)) && x == (NormalScheme(f.path), i);
    }
  }

  lemma RootFilesFound(locs: seq<string>, objects: seq<Object>, directory: string, read: seq<nat>)
    requires Indexes(locs, read) && Trimmed(directory) == directory && Canonical(objects)
    ensures FilesFound(locs, DataFiles(objects, directory), read) == RootFound(locs, NormalScheme(directory), objects, read)
  {
    DataFilesAre(objects, directory);
    var files, root := DataFiles(objects, directory), NormalScheme(directory);
    forall x | x in RootFound(locs, root, objects, read)
      ensures x in FilesFound(locs, files, read)
    {
      var o :| o in objects && Owns(locs, x.1, ComparableLocation(o.key)) && Data(root, o) && x == (o.key, x.1);
      assert ListedAs(o, directory) in files;
    }
    forall x | x in FilesFound(locs, files, read)
      ensures x in RootFound(locs, root, objects, read)
    {
      var f :| f in files && Owns(locs, x.1, ComparableLocation(f.path)) && x == (NormalScheme(f.path), x.1);
    }
  }

  /** No listed file belongs to a location that a partition being read shares. */
  ghost predicate Clear(locs: seq<string>, files: seq<File>, reading: seq<nat>) {
    forall a | 0 <= a < |files| :: ClearFile(locs, files[a], reading)
  }

  ghost predicate ClearFile(locs: seq<string>, f: File, reading: seq<nat>) {
    forall w | 0 <= w < |locs| && Owns(locs, w, ComparableLocation(f.path)) :: !SharedWithRead(locs, w, reading)
  }

  lemma ClearByOwner(locs: seq<string>, f: File, owner: nat, reading: seq<nat>)
    requires Owns(locs, owner, ComparableLocation(f.path))
    ensures ClearFile(locs, f, reading) <==> !SharedWithRead(locs, owner, reading)
  {
    forall w | 0 <= w < |locs| && Owns(locs, w, ComparableLocation(f.path))
      ensures SharedWithRead(locs, w, reading) <==> SharedWithRead(locs, owner, reading)
    {
      OwnersShareLocation(locs, w, owner, ComparableLocation(f.path));
      SharedAlike(locs, w, owner, reading);
    }
  }

  lemma SharedAlike(locs: seq<string>, v: nat, w: nat, reading: seq<nat>)
    requires v < |locs| && w < |locs| && locs[v] == locs[w]
    ensures SharedWithRead(locs, v, reading) <==> SharedWithRead(locs, w, reading)
  {
    assert v != w ==> Shared(locs, v) && Shared(locs, w);
  }

  /** A partition read that shares its location makes the whole scan fail, whichever listing saw the file. */
  lemma SharingIsRead(locs: seq<string>, w: nat, reading: seq<nat>, path: string) returns (k: nat)
    requires w < |locs| && Indexes(locs, reading) && SharedWithRead(locs, w, reading) && Owns(locs, w, path)
    ensures k in reading && k < |locs| && locs[k] == locs[w] && Shared(locs, k) && Owns(locs, k, path)
  {
    k :| 0 <= k < |locs| && locs[k] == locs[w] && k in reading;
    var other :| 0 <= other < |locs| && other != w && locs[other] == locs[w];
    assert k != w ==> locs[w] == locs[k];
  }

  lemma OwnRefusal(locs: seq<string>, objects: seq<Object>, directory: string, i: nat, f: File, w: nat, reading: seq<nat>)
    requires i < |locs| && locs[i] != "" && Trimmed(directory) == directory && NormalScheme(directory) == locs[i]
    requires Canonical(objects) && f in DataFiles(objects, directory) && Indexes(locs, reading)
    requires w < |locs| && Owns(locs, w, ComparableLocation(f.path)) && SharedWithRead(locs, w, reading)
    ensures ReadsShared(locs, objects, reading)
  {
    DataFilesAre(objects, directory);
    var o :| o in objects && Data(locs[i], o) && IsListedAs(o, directory, f);
    var k := SharingIsRead(locs, w, reading, ComparableLocation(f.path));
    DataHasOwner(locs, i, o);
    OwnerSeesData(locs, i, k, o);
  }

  lemma RootRefusal(locs: seq<string>, objects: seq<Object>, directory: string, f: File, w: nat, reading: seq<nat>)
    requires Trimmed(directory) == directory
    requires Canonical(objects) && f in DataFiles(objects, directory) && Indexes(locs, reading)
    requires w < |locs| && Owns(locs, w, ComparableLocation(f.path)) && SharedWithRead(locs, w, reading)
    ensures RootReadsShared(locs, NormalScheme(directory), objects, reading)
  {
    DataFilesAre(objects, directory);
    var o :| o in objects && Data(NormalScheme(directory), o) && IsListedAs(o, directory, f);
    var k := SharingIsRead(locs, w, reading, ComparableLocation(f.path));
  }

  /** When no listed file was refused, no file of a partition read is shared. */
  lemma OwnClear(locs: seq<string>, objects: seq<Object>, directory: string, i: nat, reading: seq<nat>)
    requires i < |locs| && Trimmed(directory) == directory && NormalScheme(directory) == locs[i] && Canonical(objects)
    requires i in reading && Clear(locs, DataFiles(objects, directory), reading)
    ensures !ReadsShared(locs, objects, [i])
  {
    DataFilesAre(objects, directory);
    var files := DataFiles(objects, directory);
    forall o | o in objects && Owns(locs, i, ComparableLocation(o.key)) && Data(locs[i], o)
      ensures !Shared(locs, i)
    {
      var a :| 0 <= a < |files| && files[a] == ListedAs(o, directory);
      assert ClearFile(locs, files[a], reading);
      assert ComparableLocation(files[a].path) == ComparableLocation(o.key);
      assert !SharedWithRead(locs, i, reading);
    }
  }

  lemma RootClear(locs: seq<string>, objects: seq<Object>, directory: string, reading: seq<nat>)
    requires Indexes(locs, reading) && Trimmed(directory) == directory && Canonical(objects)
    requires Clear(locs, DataFiles(objects, directory), reading)
    ensures !RootReadsShared(locs, NormalScheme(directory), objects, reading)
  {
    DataFilesAre(objects, directory);
    var files := DataFiles(objects, directory);
    forall i: nat, o | i in reading && o in objects && Owns(locs, i, ComparableLocation(o.key)) && Data(NormalScheme(directory), o)
      ensures !Shared(locs, i)
    {
      var a :| 0 <= a < |files| && files[a] == ListedAs(o, directory);
      assert ClearFile(locs, files[a], reading);
      assert ComparableLocation(files[a].path) == ComparableLocation(o.key);
      assert !SharedWithRead(locs, i, reading);
    }
  }

  /** The directory a partition is listed through. */
  function Directories(locs: seq<string>, spelled: seq<string>, rootDirectory: string, rootListed: bool): (r: seq<string>)
    requires |locs| == |spelled|
    ensures |r| == |locs|
    ensures forall i | 0 <= i < |locs| ::
              r[i] == if rootListed && ListedWithRoot(locs[i], NormalScheme(rootDirectory)) then rootDirectory else spelled[i]
  {
    seq(|locs|, i requires 0 <= i < |locs| =>
      if rootListed && ListedWithRoot(locs[i], NormalScheme(rootDirectory)) then rootDirectory else spelled[i])
  }

  lemma SplitNext(locs: seq<string>, root: string, read: seq<nat>, n: nat)
    requires Indexes(locs, read) && n < |read|
    ensures Indexes(locs, read[..n]) && Indexes(locs, read[..n + 1])
    ensures BelowRoot(locs, root, read[..n + 1]) ==
            BelowRoot(locs, root, read[..n]) + if ListedWithRoot(locs[read[n]], root) then [read[n]] else []
    ensures Elsewhere(locs, root, read[..n + 1]) ==
            Elsewhere(locs, root, read[..n]) + if ListedWithRoot(locs[read[n]], root) then [] else [read[n]]
  {
    assert read[..n + 1][..n] == read[..n];
  }

  lemma NoneSplit(locs: seq<string>, root: string)
    ensures BelowRoot(locs, root, []) == [] && Elsewhere(locs, root, []) == []
  {
  }

  method SplitByRoot(locs: seq<string>, root: string, indexes: seq<nat>) returns (below: seq<nat>, elsewhere: seq<nat>)
    requires Indexes(locs, indexes)
    ensures below == BelowRoot(locs, root, indexes) && elsewhere == Elsewhere(locs, root, indexes)
  {
    hide ListedWithRoot, BelowRoot, Elsewhere;
    below, elsewhere := [], [];
    NoneSplit(locs, root);
    for n := 0 to |indexes|
      invariant Indexes(locs, indexes[..n])
      invariant below == BelowRoot(locs, root, indexes[..n])
      invariant elsewhere == Elsewhere(locs, root, indexes[..n])
    {
      SplitNext(locs, root, indexes, n);
      if ListedWithRoot(locs[indexes[n]], root) {
        below := below + [indexes[n]];
      } else {
        elsewhere := elsewhere + [indexes[n]];
      }
    }
    assert indexes[..|indexes|] == indexes;
  }

  method CountPartitionsBelow(spelled: seq<string>, root: string) returns (count: nat)
    ensures count == CountBelow(spelled, root)
  {
    count := 0;
    for n := 0 to |spelled|
      invariant count == CountBelow(spelled[..n], root)
    {
      assert spelled[..n + 1][..n] == spelled[..n];
      if root != "" && |spelled[n]| > |root| + 1 && Below(spelled[n], root) {
        count := count + 1;
      }
    }
    assert spelled[..|spelled|] == spelled;
  }

  method AddBatches(jobs: seq<Job>, separately: seq<nat>, together: nat) returns (r: seq<Job>)
    requires together > 0
    ensures r == jobs + Batches(separately, together)
  {
    r := jobs;
    var start := 0;
    while start < |separately|
      invariant start <= |separately|
      invariant r + Batches(separately[start..], together) == jobs + Batches(separately, together)
    {
      var end := if start + together < |separately| then start + together else |separately|;
      ghost var rest := separately[start..];
      assert separately[start..end] == rest[..end - start] && separately[end..] == rest[end - start..];
      assert end == |separately| ==> rest[..end - start] == rest;
      r := r + [Job(false, separately[start..end])];
      start := end;
    }
  }

  /** The data files below the location, at any depth. */
  method ListDataFiles(objects: seq<Object>, location: string) returns (files: seq<File>)
    ensures files == if Trimmed(location) == "" then [] else DataFiles(objects, Trimmed(location))
  {
    hide IsDataFile, ListDirectory, DataFiles;
    var directory := Trimmed(location);
    files := [];
    if directory == "" {
      return;
    }
    var listing := ListDirectory(objects, directory);
    ghost var rest := objects;
    for n := 0 to |listing|
      invariant n <= |listing| && listing[n..] == ListDirectory(rest, directory)
      invariant files + DataFiles(rest, directory) == DataFiles(objects, directory)
    {
      rest := NextListed(rest, directory);
      if IsDataFile(listing[n], directory + "/") {
        files := files + [listing[n]];
      }
    }
    NoneListed(rest, directory);
  }

  lemma {:induction false} NoneListed(objects: seq<Object>, directory: string)
    requires ListDirectory(objects, directory) == []
    ensures DataFiles(objects, directory) == []
  {
    if objects != [] {
      NoneListed(objects[1..], directory);
    }
  }

  /** What is left of the storage after the next listed object. */
  lemma {:induction false} NextListed(objects: seq<Object>, directory: string) returns (rest: seq<Object>)
    requires ListDirectory(objects, directory) != []
    ensures ListDirectory(rest, directory) == ListDirectory(objects, directory)[1..]
    ensures var f := ListDirectory(objects, directory)[0];
            DataFiles(objects, directory) ==
            (if IsDataFile(f, directory + "/") then [f] else []) + DataFiles(rest, directory)
  {
    if Below(objects[0].key, NormalScheme(directory)) {
      rest := objects[1..];
    } else {
      rest := NextListed(objects[1..], directory);
    }
  }
}
