/** However the listings are planned, a scan reads the same files and is refused in the same cases. */
module ListingRefinement {
  import opened Outcomes
  import opened Text
  import opened Locations
  import opened ListingSpec
  import opened ListingPlan

  function JobFound(locs: seq<string>, root: string, objects: seq<Object>, job: Job): set<(string, nat)>
    requires Indexes(locs, job.partitions)
  {
    if job.root then RootFound(locs, root, objects, job.partitions) else Found(locs, objects, job.partitions)
  }

  predicate AnyMalformed(malformed: set<nat>, read: seq<nat>) {
    exists i :: i in read && i in malformed
  }

  predicate JobRefused(locs: seq<string>, malformed: set<nat>, root: string, objects: seq<Object>, job: Job)
    requires Indexes(locs, job.partitions)
  {
    || AnyMalformed(malformed, job.partitions)
    || if job.root then RootReadsShared(locs, root, objects, job.partitions)
       else ReadsShared(locs, objects, job.partitions)
  }

  predicate JobIndexes(locs: seq<string>, jobs: seq<Job>) {
    forall k | 0 <= k < |jobs| :: Indexes(locs, jobs[k].partitions)
  }

  /** The refusal of a scan, stated without its listings. */
  predicate Refused(locs: seq<string>, malformed: set<nat>, objects: seq<Object>, read: seq<nat>)
    requires Indexes(locs, read)
  {
    AnyMalformed(malformed, read) || ReadsShared(locs, objects, read)
  }

  function Union<T>(sets: seq<set<T>>): set<T> {
    if sets == [] then {} else Union(sets[..|sets| - 1]) + sets[|sets| - 1]
  }

  lemma {:induction false} UnionHas<T>(sets: seq<set<T>>, x: T)
    ensures x in Union(sets) <==> exists k | 0 <= k < |sets| :: x in sets[k]
  {
    if sets != [] {
      var front := sets[..|sets| - 1];
      UnionHas(front, x);
      assert forall k | 0 <= k < |front| :: front[k] == sets[k];
    }
  }

  function JobResults(locs: seq<string>, root: string, objects: seq<Object>, jobs: seq<Job>): seq<set<(string, nat)>>
    requires JobIndexes(locs, jobs)
  {
    seq(|jobs|, k requires 0 <= k < |jobs| => JobFound(locs, root, objects, jobs[k]))
  }

  function AllFound(locs: seq<string>, root: string, objects: seq<Object>, jobs: seq<Job>): set<(string, nat)>
    requires JobIndexes(locs, jobs)
  {
    Union(JobResults(locs, root, objects, jobs))
  }

  predicate AnyRefused(locs: seq<string>, malformed: set<nat>, root: string, objects: seq<Object>, jobs: seq<Job>)
    requires JobIndexes(locs, jobs)
  {
    exists k | 0 <= k < |jobs| :: JobRefused(locs, malformed, root, objects, jobs[k])
  }

  /** No partition listed with the root has a component below it that the root listing skips. */
  predicate NoneHidden(locs: seq<string>, root: string, read: seq<nat>)
    requires Indexes(locs, read)
  {
    forall k | 0 <= k < |read| :: ListedWithRoot(locs[read[k]], root) ==> NoHiddenBelow(locs[read[k]], root)
  }

  /** The root's listing, if there is one, skips none of the locations listed with it. */
  predicate RootSees(locs: seq<string>, root: string, jobs: seq<Job>)
    requires JobIndexes(locs, jobs)
  {
    forall k | 0 <= k < |jobs| && jobs[k].root :: NoneHidden(locs, root, jobs[k].partitions)
  }

  lemma JobAgrees(locs: seq<string>, malformed: set<nat>, root: string, objects: seq<Object>, job: Job)
    requires Indexes(locs, job.partitions) && Canonical(objects)
    requires job.root ==> forall k | 0 <= k < |job.partitions| :: ListedWithRoot(locs[job.partitions[k]], root)
    requires job.root ==> NoneHidden(locs, root, job.partitions)
    ensures JobFound(locs, root, objects, job) == Found(locs, objects, job.partitions)
    ensures JobRefused(locs, malformed, root, objects, job) <==> Refused(locs, malformed, objects, job.partitions)
  {
    if job.root {
      var read := job.partitions;
      forall i: nat, o: Object | i in read && o in objects && Owns(locs, i, ComparableLocation(o.key))
        ensures Data(root, o) <==> Data(locs[i], o)
      {
        DataThrough(locs, i, root, o);
      }
    }
  }

  /** The main result: running every planned listing finds exactly the data files whose deepest registered location is a
      partition read, and refuses exactly when the partitions read are malformed or share a location holding data. */
  lemma PlanRefines(locs: seq<string>, spelled: seq<string>, malformed: set<nat>, root: string, objects: seq<Object>,
                    read: seq<nat>, together: nat, threshold: Option<nat>)
    requires Indexes(locs, read) && together > 0 && Canonical(objects)
    requires var jobs := Plan(locs, spelled, root, read, together, threshold);
             NoneHidden(locs, root, read) || (JobIndexes(locs, jobs) && RootSees(locs, root, jobs))
    ensures var jobs := Plan(locs, spelled, root, read, together, threshold);
            && JobIndexes(locs, jobs)
            && AllFound(locs, root, objects, jobs) == Found(locs, objects, read)
            && (AnyRefused(locs, malformed, root, objects, jobs) <==> Refused(locs, malformed, objects, read))
  {
    var jobs := Plan(locs, spelled, root, read, together, threshold);
    JobsPartitionRead(locs, spelled, root, read, together, threshold);
    JobsFind(locs, root, objects, read, jobs);
    JobsRefuse(locs, malformed, root, objects, read, jobs);
  }

  ghost predicate Splits(locs: seq<string>, root: string, read: seq<nat>, jobs: seq<Job>) {
    && Indexes(locs, read) && JobIndexes(locs, jobs)
    && (forall i :: i in read <==> exists k | 0 <= k < |jobs| :: i in jobs[k].partitions)
    && (forall k | 0 <= k < |jobs| :: jobs[k].root ==>
         forall m | 0 <= m < |jobs[k].partitions| :: ListedWithRoot(locs[jobs[k].partitions[m]], root))
    && RootSees(locs, root, jobs)
  }

  lemma JobsFind(locs: seq<string>, root: string, objects: seq<Object>, read: seq<nat>, jobs: seq<Job>)
    requires Splits(locs, root, read, jobs) && Canonical(objects)
    ensures AllFound(locs, root, objects, jobs) == Found(locs, objects, read)
  {
    var sets := JobResults(locs, root, objects, jobs);
    forall k | 0 <= k < |jobs|
      ensures sets[k] == Found(locs, objects, jobs[k].partitions)
    {
      JobAgrees(locs, {}, root, objects, jobs[k]);
    }
    forall x: (string, nat)
      ensures x in AllFound(locs, root, objects, jobs) <==> x in Found(locs, objects, read)
    {
      UnionHas(sets, x);
      FoundOfParts(locs, objects, read, jobs, x);
    }
  }

  lemma JobsRefuse(locs: seq<string>, malformed: set<nat>, root: string, objects: seq<Object>, read: seq<nat>, jobs: seq<Job>)
    requires Splits(locs, root, read, jobs) && Canonical(objects)
    ensures AnyRefused(locs, malformed, root, objects, jobs) <==> Refused(locs, malformed, objects, read)
  {
    forall k | 0 <= k < |jobs|
      ensures JobRefused(locs, malformed, root, objects, jobs[k]) <==> Refused(locs, malformed, objects, jobs[k].partitions)
    {
      JobAgrees(locs, malformed, root, objects, jobs[k]);
    }
    RefusedOfParts(locs, malformed, objects, read, jobs);
  }

  lemma FoundOfParts(locs: seq<string>, objects: seq<Object>, read: seq<nat>, jobs: seq<Job>, x: (string, nat))
    requires Indexes(locs, read) && JobIndexes(locs, jobs)
    requires forall i :: i in read <==> exists k | 0 <= k < |jobs| :: i in jobs[k].partitions
    ensures x in Found(locs, objects, read) <==> exists k | 0 <= k < |jobs| :: x in Found(locs, objects, jobs[k].partitions)
  {
    if x in Found(locs, objects, read) {
      var k :| 0 <= k < |jobs| && x.1 in jobs[k].partitions;
      assert x in Found(locs, objects, jobs[k].partitions);
    }
  }

  lemma RefusedOfParts(locs: seq<string>, malformed: set<nat>, objects: seq<Object>, read: seq<nat>, jobs: seq<Job>)
    requires Indexes(locs, read) && JobIndexes(locs, jobs)
    requires forall i :: i in read <==> exists k | 0 <= k < |jobs| :: i in jobs[k].partitions
    ensures Refused(locs, malformed, objects, read) <==>
            exists k | 0 <= k < |jobs| :: Refused(locs, malformed, objects, jobs[k].partitions)
  {
    if AnyMalformed(malformed, read) {
      var i :| i in read && i in malformed;
      var k :| 0 <= k < |jobs| && i in jobs[k].partitions;
      assert AnyMalformed(malformed, jobs[k].partitions);
    }
    if ReadsShared(locs, objects, read) {
      var i, o :| i in read && o in objects && Owns(locs, i, ComparableLocation(o.key)) && Data(locs[i], o) && Shared(locs, i);
      var k :| 0 <= k < |jobs| && i in jobs[k].partitions;
      assert ReadsShared(locs, objects, jobs[k].partitions);
    }
  }

  lemma JobsPartitionRead(locs: seq<string>, spelled: seq<string>, root: string, read: seq<nat>, together: nat,
                          threshold: Option<nat>)
    requires Indexes(locs, read) && together > 0
    ensures var jobs := Plan(locs, spelled, root, read, together, threshold);
            && JobIndexes(locs, jobs)
            && (forall i :: i in read <==> exists k | 0 <= k < |jobs| :: i in jobs[k].partitions)
            && (forall k | 0 <= k < |jobs| :: jobs[k].root ==>
                 forall m | 0 <= m < |jobs[k].partitions| :: ListedWithRoot(locs[jobs[k].partitions[m]], root))
            && (NoneHidden(locs, root, read) ==> forall k | 0 <= k < |jobs| :: NoneHidden(locs, root, jobs[k].partitions))
  {
    hide ListedWithRoot, Batches, CeilDiv, NoHiddenBelow, Plan, BelowRoot, Elsewhere, CountBelow, Concatenated;
    var jobs := Plan(locs, spelled, root, read, together, threshold);
    PlanCovers(locs, spelled, root, read, together, threshold);
    forall i: nat
      ensures i in read <==> exists k | 0 <= k < |jobs| :: i in jobs[k].partitions
    {
      ConcatenatedHas(jobs, i);
      assert i in read <==> i in multiset(read);
      assert i in Concatenated(jobs) <==> i in multiset(Concatenated(jobs));
      if k :| 0 <= k < |jobs| && i in jobs[k].partitions {
        assert jobs[k] in jobs;
      }
    }
    forall k, m | 0 <= k < |jobs| && 0 <= m < |jobs[k].partitions|
      ensures jobs[k].partitions[m] in read
    {
      assert jobs[k].partitions[m] in jobs[k].partitions;
    }
  }

  /** Locations as they are compared: no trailing slash, one spelling of the scheme. */
  predicate Comparable(locs: seq<string>) {
    forall i | 0 <= i < |locs| :: Trimmed(locs[i]) == locs[i] && NormalScheme(locs[i]) == locs[i]
  }

  lemma LocsAreComparable(ps: seq<Partition>)
    ensures Comparable(Locs(ps))
  {
    forall i | 0 <= i < |ps|
      ensures Trimmed(Locs(ps)[i]) == Locs(ps)[i] && NormalScheme(Locs(ps)[i]) == Locs(ps)[i]
    {
      var d := Trimmed(ps[i].location);
      NormalSchemeKeepsLast(d);
      NormalSchemeTwice(d, "");
      assert d + "" == d && NormalScheme(d) + "" == NormalScheme(d);
    }
  }

  lemma CanonicalChild(d: string)
    requires Trimmed(d) == d && NormalScheme(d) == d
    ensures NormalScheme(d + "/f") == d + "/f"
  {
    if HasHadoopScheme(d) || HasS3Scheme(d) {
      NormalSchemeOfExtension(d, "/f");
    } else {
      var key := d + "/f";
      assert key[|d|] == '/' && key[|d| + 1] == 'f';
      assert forall k | 0 <= k < |d| :: key[k] == d[k];
    }
  }

  /** The condition is exact: the root's listing agrees with the partitions' own listings on every storage if and only if
      no component of a listed location below the root is hidden. */
  lemma RootListingIsExact(locs: seq<string>, root: string, read: seq<nat>)
    requires Indexes(locs, read) && Comparable(locs)
    requires forall k | 0 <= k < |read| :: ListedWithRoot(locs[read[k]], root)
    ensures (forall objects | Canonical(objects) ::
               && RootFound(locs, root, objects, read) == Found(locs, objects, read)
               && (RootReadsShared(locs, root, objects, read) <==> ReadsShared(locs, objects, read)))
            <==> NoneHidden(locs, root, read)
  {
    if NoneHidden(locs, root, read) {
      forall objects | Canonical(objects)
        ensures RootFound(locs, root, objects, read) == Found(locs, objects, read)
        ensures RootReadsShared(locs, root, objects, read) <==> ReadsShared(locs, objects, read)
      {
        JobAgrees(locs, {}, root, objects, Job(true, read));
        forall i: nat, o: Object | i in read && o in objects && Owns(locs, i, ComparableLocation(o.key))
          ensures Data(root, o) <==> Data(locs[i], o)
        {
          DataThrough(locs, i, root, o);
        }
      }
    } else {
      var k :| 0 <= k < |read| && !NoHiddenBelow(locs[read[k]], root);
      var o := Object(locs[read[k]] + "/f", None);
      CanonicalChild(locs[read[k]]);
      assert Canonical([o]);
      HiddenIsMissed(locs, root, read, k, o);
    }
  }

  /** ... and so is that of the whole plan: it finds what the partitions' own listings find on every storage if and only
      if it does not list the root, or lists no location with it that has a hidden component below it. */
  lemma PlanIsExact(ps: seq<Partition>, root: string, read: seq<nat>, together: nat, threshold: Option<nat>)
    requires Indexes(Locs(ps), read) && together > 0
    ensures var locs, jobs := Locs(ps), Plan(Locs(ps), Spelled(ps), root, read, together, threshold);
            && JobIndexes(locs, jobs)
            && ((forall objects | Canonical(objects) :: AllFound(locs, root, objects, jobs) == Found(locs, objects, read)) <==>
                RootSees(locs, root, jobs))
  {
    hide Plan, NoneHidden, Found, AllFound, Locs, Spelled, Canonical, ListedWithRoot;
    var locs, jobs := Locs(ps), Plan(Locs(ps), Spelled(ps), root, read, together, threshold);
    JobsPartitionRead(locs, Spelled(ps), root, read, together, threshold);
    if RootSees(locs, root, jobs) {
      forall objects | Canonical(objects)
        ensures AllFound(locs, root, objects, jobs) == Found(locs, objects, read)
      {
        PlanRefines(locs, Spelled(ps), {}, root, objects, read, together, threshold);
      }
    } else {
      var k :| 0 <= k < |jobs| && jobs[k].root && !NoneHidden(locs, root, jobs[k].partitions);
      var o := HiddenFile(ps, root, read, together, threshold, k);
    }
  }

  lemma HiddenFile(ps: seq<Partition>, root: string, read: seq<nat>, together: nat, threshold: Option<nat>, k: nat)
    returns (o: Object)
    requires Indexes(Locs(ps), read) && together > 0
    requires var locs, jobs := Locs(ps), Plan(Locs(ps), Spelled(ps), root, read, together, threshold);
             JobIndexes(locs, jobs) && k < |jobs| && jobs[k].root && !NoneHidden(locs, root, jobs[k].partitions)
    ensures var locs, jobs := Locs(ps), Plan(Locs(ps), Spelled(ps), root, read, together, threshold);
            Canonical([o]) && AllFound(locs, root, [o], jobs) != Found(locs, [o], read)
  {
    hide Plan, NoHiddenBelow, HasDoubleSlashFrom, Found, AllFound, Locs, Spelled, NormalScheme, TrimEnd;
    var locs, jobs := Locs(ps), Plan(Locs(ps), Spelled(ps), root, read, together, threshold);
    var m :| 0 <= m < |jobs[k].partitions| && ListedWithRoot(locs[jobs[k].partitions[m]], root) &&
      !NoHiddenBelow(locs[jobs[k].partitions[m]], root);
    var i := jobs[k].partitions[m];
    o := Object(locs[i] + "/f", None);
    LocsAreComparable(ps);
    CanonicalChild(locs[i]);
    PlanCovers(locs, Spelled(ps), root, read, together, threshold);
    OnlyInRootJob(locs, Spelled(ps), root, read, together, threshold, i);
    JobsPartitionRead(locs, Spelled(ps), root, read, together, threshold);
    PlanMisses(locs, root, o, read, jobs, i);
  }

  lemma OnlyInRootJob(locs: seq<string>, spelled: seq<string>, root: string, read: seq<nat>, together: nat,
                      threshold: Option<nat>, i: nat)
    requires Indexes(locs, read) && together > 0 && i < |locs| && ListedWithRoot(locs[i], root)
    requires var jobs := Plan(locs, spelled, root, read, together, threshold); jobs != [] && jobs[0].root
    ensures forall job | job in Plan(locs, spelled, root, read, together, threshold) && i in job.partitions :: job.root
  {
    hide ListedWithRoot, Batches, CeilDiv;
    var below, elsewhere := BelowRoot(locs, root, read), Elsewhere(locs, root, read);
    BatchesOf(below + elsewhere, together);
    BatchesOf(elsewhere, together);
    forall job | job in Batches(elsewhere, together)
      ensures i !in job.partitions
    {
      if i in job.partitions {
        ConcatenatedHas(Batches(elsewhere, together), i);
      }
    }
  }

  /** A file in a hidden location listed with the root is found by no listing. */
  lemma PlanMisses(locs: seq<string>, root: string, o: Object, read: seq<nat>, jobs: seq<Job>, i: nat)
    requires Indexes(locs, read) && JobIndexes(locs, jobs) && i in read && ListedWithRoot(locs[i], root)
    requires !NoHiddenBelow(locs[i], root)
    requires o == Object(locs[i] + "/f", None) && NormalScheme(o.key) == o.key
    requires forall job | job in jobs && i in job.partitions :: job.root
    ensures AllFound(locs, root, [o], jobs) != Found(locs, [o], read)
  {
    hide NoHiddenBelow, ListedWithRoot, Data, Owns;
    assert locs[i] != "" && Below(locs[i], root) by { BelowOfListed(locs[i], root); }
    FileOf(locs, i, o);
    DataThrough(locs, i, root, o);
    assert o in [o] && (o.key, i) in Found(locs, [o], read);
    var sets := JobResults(locs, root, [o], jobs);
    UnionHas(sets, (o.key, i));
    forall k | 0 <= k < |sets|
      ensures (o.key, i) !in sets[k]
    {
      assert jobs[k] in jobs && forall x | x in [o] :: x == o;
    }
  }

  /** The partition is not listed with the root, or has no component below the root that its listing skips. */
  predicate SeenFromRoot(locs: seq<string>, root: string, jobs: seq<Job>, i: nat)
    requires i < |locs|
  {
    jobs != [] && jobs[0].root && ListedWithRoot(locs[i], root) ==> NoHiddenBelow(locs[i], root)
  }

  /** One data file that one partition owns: the planned listings find it exactly when that partition is read and, if it
      is listed with the root, seen from there; and they give it to no other partition. */
  lemma FileIsFoundExactlyWhen(locs: seq<string>, spelled: seq<string>, root: string, objects: seq<Object>, read: seq<nat>,
                               together: nat, threshold: Option<nat>, o: Object, i: nat, j: nat)
    requires Indexes(locs, read) && together > 0 && Canonical(objects) && o in objects && i < |locs|
    requires Owns(locs, i, ComparableLocation(o.key)) && Data(locs[i], o)
    requires forall k: nat | Owns(locs, k, ComparableLocation(o.key)) :: k == i
    ensures var jobs := Plan(locs, spelled, root, read, together, threshold);
            && JobIndexes(locs, jobs)
            && ((o.key, j) in AllFound(locs, root, objects, jobs) <==> j == i && i in read && SeenFromRoot(locs, root, jobs, i))
  {
    hide Plan, Owns, Data, NoHiddenBelow, HasDoubleSlashFrom, ComparableLocation, AllFound;
    var jobs := Plan(locs, spelled, root, read, together, threshold);
    JobsPartitionRead(locs, spelled, root, read, together, threshold);
    OnlyFirstIsRoot(locs, spelled, root, read, together, threshold, i);
    forall k | 0 <= k < |jobs|
      ensures (o.key, j) in JobFound(locs, root, objects, jobs[k]) <==> j == i && i in jobs[k].partitions && SeenFromRoot(locs, root, jobs, i)
    {
      assert jobs[k] in jobs;
      JobFindsOne(locs, root, objects, jobs[k], o, i, j);
    }
    FoundInJobs(locs, root, objects, jobs, (o.key, j));
  }

  lemma FoundInJobs(locs: seq<string>, root: string, objects: seq<Object>, jobs: seq<Job>, x: (string, nat))
    requires JobIndexes(locs, jobs)
    ensures x in AllFound(locs, root, objects, jobs) <==> exists k | 0 <= k < |jobs| :: x in JobFound(locs, root, objects, jobs[k])
  {
    hide JobFound;
    var sets := JobResults(locs, root, objects, jobs);
    UnionHas(sets, x);
    assert forall k | 0 <= k < |jobs| :: sets[k] == JobFound(locs, root, objects, jobs[k]);
  }

  /** A partition listed with the root is listed by that listing alone, and any other by none with the root. */
  lemma OnlyFirstIsRoot(locs: seq<string>, spelled: seq<string>, root: string, read: seq<nat>, together: nat,
                        threshold: Option<nat>, i: nat)
    requires Indexes(locs, read) && together > 0 && i < |locs|
    ensures var jobs := Plan(locs, spelled, root, read, together, threshold);
            forall job | job in jobs && i in job.partitions :: job.root <==> jobs[0].root && ListedWithRoot(locs[i], root)
  {
    hide Plan, ListedWithRoot, CeilDiv;
    var jobs := Plan(locs, spelled, root, read, together, threshold);
    PlanCovers(locs, spelled, root, read, together, threshold);
    JobsPartitionRead(locs, spelled, root, read, together, threshold);
    if jobs != [] && jobs[0].root && ListedWithRoot(locs[i], root) {
      OnlyInRootJob(locs, spelled, root, read, together, threshold, i);
    }
  }

  lemma JobFindsOne(locs: seq<string>, root: string, objects: seq<Object>, job: Job, o: Object, i: nat, j: nat)
    requires Indexes(locs, job.partitions) && Canonical(objects) && o in objects && i < |locs|
    requires Owns(locs, i, ComparableLocation(o.key)) && Data(locs[i], o)
    requires forall k: nat | Owns(locs, k, ComparableLocation(o.key)) :: k == i
    requires job.root && i in job.partitions ==> ListedWithRoot(locs[i], root)
    ensures (o.key, j) in JobFound(locs, root, objects, job) <==>
            j == i && i in job.partitions && (job.root ==> NoHiddenBelow(locs[i], root))
  {
    hide Owns, Data, NoHiddenBelow, HasDoubleSlashFrom, ComparableLocation;
    if job.root && i in job.partitions {
      forall x | x in objects && x.key == o.key
        ensures Data(root, x) <==> Data(locs[i], x) && NoHiddenBelow(locs[i], root)
      {
        DataThrough(locs, i, root, x);
      }
    }
  }

  lemma BelowOfListed(location: string, root: string)
    requires ListedWithRoot(location, root)
    ensures location != "" && Below(location, root)
  {
  }

  lemma HiddenIsMissed(locs: seq<string>, root: string, read: seq<nat>, k: nat, o: Object)
    requires Indexes(locs, read) && k < |read| && ListedWithRoot(locs[read[k]], root)
    requires o == Object(locs[read[k]] + "/f", None) && NormalScheme(o.key) == o.key
    requires !NoHiddenBelow(locs[read[k]], root)
    ensures RootFound(locs, root, [o], read) != Found(locs, [o], read)
  {
    var i := read[k];
    FileOf(locs, i, o);
    DataThrough(locs, i, root, o);
    assert o in [o] && i in read;
    assert (o.key, i) in Found(locs, [o], read);
    assert forall x :: x in [o] ==> x == o;
    assert (o.key, i) !in RootFound(locs, root, [o], read);
  }

  lemma FileOf(locs: seq<string>, i: nat, o: Object)
    requires i < |locs| && locs[i] != "" && o == Object(locs[i] + "/f", None) && NormalScheme(o.key) == o.key
    ensures Owns(locs, i, ComparableLocation(o.key)) && Data(locs[i], o)
  {
    var loc, key := locs[i], o.key;
    ComparableOfKey(key);
    assert key[..|loc| + 1] == loc + "/";
    assert key[|loc| + 1..] == "f";
    assert Trimmed(key) == key;
    VisibleF();
    forall j | 0 <= j < |locs| && Holds(locs, j, key)
      ensures |locs[j]| <= |loc|
    {
      var other := locs[j];
      assert (other + "/")[|other|] == '/' == key[..|other| + 1][|other|] == key[|other|];
      assert key[|loc| + 1] == 'f';
    }
  }

  lemma VisibleF()
    ensures Visible("f")
  {
    PiecesOfOne("f", '/');
    assert Split("f", '/') == ["f"];
  }

  /** A location with an empty segment directly below the root is taken for one the root listing covers, although the
      root listing skips its files: the comment on the check promises otherwise. */
  lemma EmptyFirstSegmentIsMissed(root: string, rest: string)
    requires root != "" && rest != "" && rest[0] != '/' && !HasDoubleSlashFrom(rest, 0)
    ensures ListedWithRoot(root + "//" + rest, root) && !NoHiddenBelow(root + "//" + rest, root)
  {
    var location := root + "//" + rest;
    assert location[..|root| + 1] == root + "/";
    var below := location[|root| + 1..];
    assert below == "/" + rest;
    PiecesOfConcat("", '/', rest);
    assert "" + "/" + rest == below;
    assert Pieces(below, '/')[0] == Pieces("", '/')[0] == "";
    assert Hidden("") && "" in Pieces(below, '/');
    forall k | |root| + 1 <= k < |location| - 1
      ensures !(location[k] == '/' && location[k + 1] == '/')
    {
      if k > |root| + 1 {
        var m := k - |root| - 2;
        assert location[k] == rest[m] && location[k + 1] == rest[m + 1];
        assert !(rest[m] == '/' && rest[m + 1] == '/');
      } else {
        assert location[k + 1] == rest[0];
      }
    }
  }
}
