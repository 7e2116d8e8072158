/** The sample a scan's statistics come from: the pages of the root's listing fetched so far, and more only to see one
    partition that is read to its end. */
module Sample {
  import opened Outcomes
  import opened Text
  import opened Locations
  import opened ListingSpec
  import opened LocationIndex

  /** The file belongs to the partition, among the locations no shorter than some size. */
  predicate At(locs: seq<string>, size: nat, p: nat, f: File) {
    p < |locs| && |locs[p]| >= size && Holds(locs, p, ComparableLocation(f.path))
  }

  /** No two locations of that size are the same, or one inside the other. */
  predicate Apart(locs: seq<string>, size: nat) {
    forall i, j | 0 <= i < |locs| && 0 <= j < |locs| && i != j && |locs[i]| >= size && |locs[j]| >= size ::
      !LocationsOverlap(locs[i], locs[j])
  }

  /** Listings come in the order of their keys. */
  predicate Ordered(files: seq<File>) {
    forall i, j | 0 <= i <= j < |files| :: AtMost(ComparableLocation(files[i].path), ComparableLocation(files[j].path))
  }

  lemma AtOnce(locs: seq<string>, size: nat, p: nat, q: nat, f: File)
    requires Apart(locs, size) && At(locs, size, p, f) && At(locs, size, q, f)
    ensures p == q
  {
    var path := ComparableLocation(f.path);
    if p != q {
      if |locs[p]| <= |locs[q]| {
        HolderAbove(locs, p, q, path);
      } else {
        HolderAbove(locs, q, p, path);
      }
    }
  }

  lemma HolderAbove(locs: seq<string>, p: nat, q: nat, path: string)
    requires Holds(locs, p, path) && Holds(locs, q, path) && |locs[p]| <= |locs[q]|
    ensures LocationsOverlap(locs[p], locs[q])
  {
    HolderEndsAtSlash(locs, p, path);
    HolderEndsAtSlash(locs, q, path);
    if |locs[p]| == |locs[q]| {
      assert locs[p] == path[..|locs[p]|] == locs[q];
    } else {
      assert locs[q][..|locs[p]| + 1] == path[..|locs[p]| + 1] == locs[p] + "/";
    }
  }

  /** In key order a partition's files are next to each other. */
  lemma AtIsContiguous(locs: seq<string>, size: nat, files: seq<File>, p: nat, i: nat, m: nat, j: nat)
    requires Ordered(files) && i <= m <= j < |files| && At(locs, size, p, files[i]) && At(locs, size, p, files[j])
    ensures At(locs, size, p, files[m])
  {
    hide ComparableLocation;
    assert AtMost(ComparableLocation(files[i].path), ComparableLocation(files[m].path));
    assert AtMost(ComparableLocation(files[m].path), ComparableLocation(files[j].path));
    PrefixIsContiguous(ComparableLocation(files[i].path), ComparableLocation(files[m].path), ComparableLocation(files[j].path),
                       locs[p] + "/");
  }

  /** A listed file taken into the sample, by its place in the listing, and its partition. */
  type Taken = (nat, nat)

  /** Exactly the data files among the first n that belong to a partition were taken. */
  ghost predicate TookAll(locs: seq<string>, size: nat, files: seq<File>, prefix: string, n: nat, taken: seq<Taken>)
    requires n <= |files|
  {
    && (forall k | 0 <= k < |taken| :: taken[k].0 < n && IsDataFile(files[taken[k].0], prefix) && At(locs, size, taken[k].1, files[taken[k].0]))
    && (forall i: nat, p: nat | 0 <= i < n && IsDataFile(files[i], prefix) && At(locs, size, p, files[i]) :: (i, p) in taken)
  }

  /** The last partition taken, and where its files start: no earlier file is its. */
  ghost predicate EndsWithRun(taken: seq<Taken>, last: Option<nat>, start: nat) {
    && start <= |taken| && (last.None? <==> taken == []) && (last.None? ==> start == 0)
    && (last.Some? ==> start < |taken| && (forall k | start <= k < |taken| :: taken[k].1 == last.value)
                       && forall k | 0 <= k < start :: taken[k].1 != last.value)
  }

  predicate Sampled(taken: seq<Taken>, reading: seq<nat>, sampled: Option<nat>) {
    match sampled
    case None => forall k | 0 <= k < |taken| :: taken[k].1 !in reading
    case Some(s) => s in reading && exists k | 0 <= k < |taken| :: taken[k].1 == s
  }

  /** No data file from n on belongs to the partition. */
  ghost predicate Passed(locs: seq<string>, size: nat, files: seq<File>, prefix: string, n: nat, p: nat) {
    forall j | n <= j < |files| && IsDataFile(files[j], prefix) :: !At(locs, size, p, files[j])
  }

  lemma PassedAfter(locs: seq<string>, size: nat, files: seq<File>, prefix: string, i: nat, m: nat, p: nat)
    requires Ordered(files) && i <= m < |files| && At(locs, size, p, files[i]) && !At(locs, size, p, files[m])
    ensures Passed(locs, size, files, prefix, m + 1, p)
  {
    hide At;
    forall j | m + 1 <= j < |files|
      ensures !At(locs, size, p, files[j])
    {
      if At(locs, size, p, files[j]) {
        AtIsContiguous(locs, size, files, p, i, m, j);
      }
    }
  }

  /** Whether the sample holds every data file of each partition it holds a file of. */
  ghost predicate Complete(locs: seq<string>, size: nat, files: seq<File>, prefix: string, sample: seq<Taken>) {
    forall k, j | 0 <= k < |sample| && 0 <= j < |files| && IsDataFile(files[j], prefix) && At(locs, size, sample[k].1, files[j]) ::
      (j, sample[k].1) in sample
  }

  /** One more file taken: its partition goes on, or a new one starts that none of the earlier files belongs to. */
  lemma RunGrows(locs: seq<string>, size: nat, files: seq<File>, prefix: string, n: nat, taken: seq<Taken>, last: Option<nat>,
                 start: nat, owner: nat)
    requires n < |files| && Ordered(files) && Apart(locs, size) && TookAll(locs, size, files, prefix, n, taken)
    requires EndsWithRun(taken, last, start) && At(locs, size, owner, files[n])
    requires forall a, b | 0 <= a < b < |taken| :: taken[a].0 < taken[b].0
    ensures EndsWithRun(taken + [(n, owner)], Some(owner), if last == Some(owner) then start else |taken|)
  {
    hide At, ComparableLocation;
    var more := taken + [(n, owner)];
    assert more[|taken|] == (n, owner) && forall k | 0 <= k < |taken| :: more[k] == taken[k];
    if last.Some? && last != Some(owner) {
      var m := taken[|taken| - 1].0;
      forall k | 0 <= k < |taken|
        ensures taken[k].1 != owner
      {
        if taken[k].1 == owner {
          AtIsContiguous(locs, size, files, owner, taken[k].0, m, n);
          AtOnce(locs, size, owner, last.value, files[m]);
        }
      }
    }
  }

  /** Cut before its last run, or right after a partition read to its end, what is left is complete. */
  lemma CutIsComplete(locs: seq<string>, size: nat, files: seq<File>, prefix: string, n: nat, taken: seq<Taken>, last: Option<nat>,
                      start: nat, sampled: nat)
    requires n <= |files| && Ordered(files) && Apart(locs, size) && TookAll(locs, size, files, prefix, n, taken)
    requires EndsWithRun(taken, last, start) && Passed(locs, size, files, prefix, n, sampled)
    requires forall a, b | 0 <= a < b < |taken| :: taken[a].0 < taken[b].0
    ensures Complete(locs, size, files, prefix, if last.Some? && last.value != sampled then taken[..start] else taken)
  {
    hide At, ComparableLocation;
    var sample := if last.Some? && last.value != sampled then taken[..start] else taken;
    forall k, j | 0 <= k < |sample| && 0 <= j < |files| && IsDataFile(files[j], prefix) && At(locs, size, sample[k].1, files[j])
      ensures (j, sample[k].1) in sample
    {
      var p := sample[k].1;
      assert sample[k] == taken[k];
      if j < n {
        assert (j, p) in taken;
        var a :| 0 <= a < |taken| && taken[a] == (j, p);
        assert a < |sample|;
        assert sample[a] == taken[a];
      } else if p != sampled {
        var m := taken[|taken| - 1].0;
        AtIsContiguous(locs, size, files, p, taken[k].0, m, j);
        AtOnce(locs, size, p, last.value, files[m]);
      }
    }
  }

  lemma AllIsComplete(locs: seq<string>, size: nat, files: seq<File>, prefix: string, taken: seq<Taken>)
    requires TookAll(locs, size, files, prefix, |files|, taken)
    ensures Complete(locs, size, files, prefix, taken)
  {
    hide At;
  }

  /** What the index says of a file is where it belongs. */
  lemma OwnerIs(locs: seq<string>, size: nat, f: File, owner: Option<nat>)
    requires size > 0 && Apart(locs, size)
    requires owner.Some? ==> Owns(locs, owner.value, ComparableLocation(f.path)) && |locs[owner.value]| >= size
    requires owner.None? ==> HoldersWithin(locs, ComparableLocation(f.path), size - 1)
    ensures forall p: nat :: At(locs, size, p, f) <==> owner == Some(p)
  {
    forall p: nat | At(locs, size, p, f)
      ensures owner == Some(p)
    {
      if owner.Some? {
        AtOnce(locs, size, p, owner.value, f);
      }
    }
  }

  lemma TookNone(locs: seq<string>, size: nat, files: seq<File>, prefix: string, n: nat, taken: seq<Taken>)
    requires n < |files| && TookAll(locs, size, files, prefix, n, taken)
    requires IsDataFile(files[n], prefix) ==> forall p: nat :: !At(locs, size, p, files[n])
    ensures TookAll(locs, size, files, prefix, n + 1, taken)
  {
    hide At, IsDataFile;
  }

  lemma TookOne(locs: seq<string>, size: nat, files: seq<File>, prefix: string, n: nat, taken: seq<Taken>, owner: nat)
    requires n < |files| && TookAll(locs, size, files, prefix, n, taken) && IsDataFile(files[n], prefix)
    requires forall p: nat :: At(locs, size, p, files[n]) <==> owner == p
    ensures TookAll(locs, size, files, prefix, n + 1, taken + [(n, owner)])
  {
    hide At, IsDataFile;
    var more := taken + [(n, owner)];
    assert more[|taken|] == (n, owner) && forall k | 0 <= k < |taken| :: more[k] == taken[k];
    forall i: nat, p: nat | 0 <= i < n + 1 && IsDataFile(files[i], prefix) && At(locs, size, p, files[i])
      ensures (i, p) in more
    {
      if i < n {
        assert (i, p) in taken;
      }
    }
  }

  lemma NotInSampled(locs: seq<string>, size: nat, files: seq<File>, prefix: string, n: nat, taken: seq<Taken>, reading: seq<nat>,
                     sampled: nat)
    requires n < |files| && Ordered(files) && TookAll(locs, size, files, prefix, n, taken) && Sampled(taken, reading, Some(sampled))
    requires !At(locs, size, sampled, files[n])
    ensures Passed(locs, size, files, prefix, n, sampled)
  {
    hide At, IsDataFile;
    var k :| 0 <= k < |taken| && taken[k].1 == sampled;
    PassedAfter(locs, size, files, prefix, taken[k].0, n, sampled);
  }

  lemma SampledIsThere(locs: seq<string>, size: nat, files: seq<File>, prefix: string, n: nat, taken: seq<Taken>, reading: seq<nat>,
                       sampled: nat)
    requires n <= |files| && TookAll(locs, size, files, prefix, n, taken) && Sampled(taken, reading, Some(sampled))
    ensures sampled < |locs| && forall f: File :: Below(ComparableLocation(f.path), locs[sampled]) <==> At(locs, size, sampled, f)
  {
    hide IsDataFile, ComparableLocation, Below;
    var k :| 0 <= k < |taken| && taken[k].1 == sampled;
    assert At(locs, size, sampled, files[taken[k].0]);
  }

  /** The scan that was read last has the sampled partition's files still to come, or they are all seen. */
  ghost predicate Reading(locs: seq<string>, size: nat, files: seq<File>, prefix: string, n: nat, sampled: Option<nat>, inSampled: bool) {
    sampled.Some? && !inSampled ==> Passed(locs, size, files, prefix, n, sampled.value)
  }

  /** A data file of the partition with none but other files between it and the first n. */
  ghost predicate LastIsOf(locs: seq<string>, size: nat, files: seq<File>, prefix: string, n: nat, p: nat) {
    exists j: nat | j < n && j < |files| :: IsDataFile(files[j], prefix) && At(locs, size, p, files[j]) &&
      forall k | j < k < n && k < |files| :: !IsDataFile(files[k], prefix)
  }

  /** What makes the scan go on after the first n files: none of them is of a partition read, or they end within one. */
  ghost predicate GoesOn(locs: seq<string>, size: nat, files: seq<File>, prefix: string, n: nat, reading: seq<nat>) {
    || (forall i: nat, p: nat | i < n && i < |files| && p in reading && IsDataFile(files[i], prefix) :: !At(locs, size, p, files[i]))
    || exists p | p in reading :: LastIsOf(locs, size, files, prefix, n, p)
  }

  lemma LastStays(locs: seq<string>, size: nat, files: seq<File>, prefix: string, n: nat)
    requires n < |files|
    ensures !IsDataFile(files[n], prefix) ==> forall p: nat | LastIsOf(locs, size, files, prefix, n, p) :: LastIsOf(locs, size, files, prefix, n + 1, p)
    ensures IsDataFile(files[n], prefix) ==> forall p: nat | At(locs, size, p, files[n]) :: LastIsOf(locs, size, files, prefix, n + 1, p)
  {
    hide At, IsDataFile;
  }

  lemma NoneRead(locs: seq<string>, size: nat, files: seq<File>, prefix: string, n: nat, taken: seq<Taken>, reading: seq<nat>)
    requires n <= |files| && TookAll(locs, size, files, prefix, n, taken) && Sampled(taken, reading, None)
    ensures GoesOn(locs, size, files, prefix, n, reading)
  {
    hide At, IsDataFile;
    forall i: nat, p: nat | i < n && p in reading && IsDataFile(files[i], prefix)
      ensures !At(locs, size, p, files[i])
    {
      assert At(locs, size, p, files[i]) ==> (i, p) in taken;
    }
  }

  lemma WithinRead(locs: seq<string>, size: nat, files: seq<File>, prefix: string, n: nat, taken: seq<Taken>, reading: seq<nat>, p: nat)
    requires Sampled(taken, reading, Some(p)) && LastIsOf(locs, size, files, prefix, n, p)
    ensures GoesOn(locs, size, files, prefix, n, reading)
  {
  }

  lemma AllFetched(locs: seq<string>, size: nat, files: seq<File>, prefix: string, n: nat, reading: seq<nat>)
    requires n >= |files| && GoesOn(locs, size, files, prefix, |files|, reading)
    ensures GoesOn(locs, size, files, prefix, n, reading)
  {
    hide At, IsDataFile;
    if p :| p in reading && LastIsOf(locs, size, files, prefix, |files|, p) {
      assert LastIsOf(locs, size, files, prefix, n, p);
    }
  }

  /** Pages come 'fetched' files long, and are fetched on only to find a partition that is read or while it goes on. */
  method SampleRootPartitions(locs: seq<string>, byLocation: map<string, nat>, files: seq<File>, fetched: nat, root: string,
                              reading: seq<nat>)
    returns (sample: seq<Taken>, ghost fetchedOn: bool)
    requires Indexed(locs, byLocation) && Ordered(files) && Apart(locs, |NormalScheme(root)| + 1)
    ensures Complete(locs, |NormalScheme(root)| + 1, files, root + "/", sample)
    ensures forall k | 0 <= k < |sample| :: sample[k].0 < |files| && IsDataFile(files[sample[k].0], root + "/") &&
              At(locs, |NormalScheme(root)| + 1, sample[k].1, files[sample[k].0])
    ensures (exists i, p | 0 <= i < |files| && IsDataFile(files[i], root + "/") && p in reading ::
               At(locs, |NormalScheme(root)| + 1, p, files[i])) ==> exists k | 0 <= k < |sample| :: sample[k].1 in reading
    ensures fetchedOn ==> GoesOn(locs, |NormalScheme(root)| + 1, files, root + "/", fetched, reading)
    ensures !fetchedOn ==> forall k | 0 <= k < |sample| :: sample[k].0 < fetched
  {
    hide LastIsOf, GoesOn, At, IsDataFile, ComparableLocation, Apart, Ordered, TookAll, EndsWithRun, Sampled, Passed, Below, Complete;
    var size: nat, prefix := |NormalScheme(root)| + 1, root + "/";
    var pos: nat, alwaysFetch, listedAll, inSampled := 0, false, false, false;
    var sampled: Option<nat>, last: Option<nat>, start: nat := None, None, 0;
    var taken: seq<Taken> := [];
    NothingTaken(locs, size, files, prefix, reading);
    var more := true;
    while more
      invariant pos <= |files| && TookAll(locs, size, files, prefix, pos, taken) && EndsWithRun(taken, last, start)
      invariant forall a, b | 0 <= a < b < |taken| :: taken[a].0 < taken[b].0
      invariant forall a | 0 <= a < |taken| :: taken[a].0 < pos
      invariant Sampled(taken, reading, sampled) && Reading(locs, size, files, prefix, pos, sampled, inSampled)
      invariant !more ==> (listedAll && pos == |files|) || (!listedAll && sampled.Some? && Passed(locs, size, files, prefix, pos, sampled.value))
      invariant (more ==> !listedAll) && start <= |taken|
      invariant inSampled ==> sampled.Some? && LastIsOf(locs, size, files, prefix, pos, sampled.value)
      invariant if alwaysFetch then GoesOn(locs, size, files, prefix, fetched, reading) else pos <= fetched
      decreases |files| - pos, if alwaysFetch then 0 else 1, if more then 1 else 0
    {
      if pos >= |files| || (!alwaysFetch && pos >= fetched) {
        if alwaysFetch {
          listedAll, more := true, false;
        } else if sampled.Some? && !inSampled {
          more := false;
        } else {
          if sampled.None? {
            NoneRead(locs, size, files, prefix, pos, taken, reading);
          } else {
            WithinRead(locs, size, files, prefix, pos, taken, reading, sampled.value);
          }
          if pos != fetched {
            AllFetched(locs, size, files, prefix, fetched, reading);
          }
          alwaysFetch := true;
        }
      } else if !IsDataFile(files[pos], prefix) {
        LastStays(locs, size, files, prefix, pos);
        TookNone(locs, size, files, prefix, pos, taken);
        PassedOn(locs, size, files, prefix, pos);
        pos := pos + 1;
      } else {
        if sampled.Some? {
          SampledIsThere(locs, size, files, prefix, pos, taken, reading, sampled.value);
          if !Below(ComparableLocation(files[pos].path), locs[sampled.value]) {
            NotInSampled(locs, size, files, prefix, pos, taken, reading, sampled.value);
          }
        }
        PassedOn(locs, size, files, prefix, pos);
        LastStays(locs, size, files, prefix, pos);
        inSampled := sampled.Some? && Below(ComparableLocation(files[pos].path), locs[sampled.value]);
        if alwaysFetch && sampled.Some? && !inSampled {
          more := false;
        } else {
          var owner := OwningPartition(locs, byLocation, files[pos].path, size);
          OwnerIs(locs, size, files[pos], owner);
          if owner.None? {
            TookNone(locs, size, files, prefix, pos, taken);
          } else {
            RunGrows(locs, size, files, prefix, pos, taken, last, start, owner.value);
            TookOne(locs, size, files, prefix, pos, taken, owner.value);
            SampleGrows(taken, reading, sampled, (pos, owner.value));
            if last != owner {
              last, start := owner, |taken|;
            }
            if sampled.None? && owner.value in reading {
              sampled, inSampled := owner, true;
            }
            taken := taken + [(pos, owner.value)];
          }
          pos := pos + 1;
        }
      }
    }
    fetchedOn := alwaysFetch;
    sample := if !listedAll && last.Some? && last != sampled then taken[..start] else taken;
    if listedAll {
      AllIsComplete(locs, size, files, prefix, taken);
    } else {
      CutIsComplete(locs, size, files, prefix, pos, taken, last, start, sampled.value);
    }
    SampleMeans(locs, size, files, prefix, pos, taken, last, start, reading, sampled, listedAll);
  }

  lemma NothingTaken(locs: seq<string>, size: nat, files: seq<File>, prefix: string, reading: seq<nat>)
    ensures TookAll(locs, size, files, prefix, 0, []) && EndsWithRun([], None, 0) && Sampled([], reading, None)
  {
  }

  lemma PassedOn(locs: seq<string>, size: nat, files: seq<File>, prefix: string, n: nat)
    ensures forall p: nat | Passed(locs, size, files, prefix, n, p) :: Passed(locs, size, files, prefix, n + 1, p)
  {
    hide At, IsDataFile;
  }

  lemma SampleGrows(taken: seq<Taken>, reading: seq<nat>, sampled: Option<nat>, t: Taken)
    requires Sampled(taken, reading, sampled)
    ensures Sampled(taken + [t], reading, if sampled.None? && t.1 in reading then Some(t.1) else sampled)
  {
    var more := taken + [t];
    assert more[|taken|] == t && forall k | 0 <= k < |taken| :: more[k] == taken[k];
  }

  /** The sample is of data files of their partitions, and has one that is read if any has a data file. */
  lemma SampleMeans(locs: seq<string>, size: nat, files: seq<File>, prefix: string, n: nat, taken: seq<Taken>, last: Option<nat>,
                    start: nat, reading: seq<nat>, sampled: Option<nat>, listedAll: bool)
    requires n <= |files| && TookAll(locs, size, files, prefix, n, taken) && EndsWithRun(taken, last, start)
    requires Sampled(taken, reading, sampled) && (listedAll ==> n == |files|) && (!listedAll ==> sampled.Some?)
    ensures var sample := if !listedAll && last.Some? && last != sampled then taken[..start] else taken;
            && (forall k | 0 <= k < |sample| :: sample[k].0 < |files| && IsDataFile(files[sample[k].0], prefix) &&
                  At(locs, size, sample[k].1, files[sample[k].0]))
            && ((exists i, p | 0 <= i < |files| && IsDataFile(files[i], prefix) && p in reading :: At(locs, size, p, files[i])) ==>
                  exists k | 0 <= k < |sample| :: sample[k].1 in reading)
  {
    hide At, IsDataFile;
    var sample := if !listedAll && last.Some? && last != sampled then taken[..start] else taken;
    if sampled.Some? {
      var k :| 0 <= k < |taken| && taken[k].1 == sampled.value;
      assert k < |sample| && sample[k] == taken[k];
    } else if i, p :| 0 <= i < |files| && IsDataFile(files[i], prefix) && p in reading && At(locs, size, p, files[i]) {
      assert (i, p) in taken;
    }
  }
}
