/** The index over registered locations, and the search for the deepest one above a file. */
module LocationIndex {
  import opened Outcomes
  import opened Locations
  import opened ListingSpec

  function LastIndexOf(s: string, c: char): (i: int)
    ensures -1 <= i < |s|
    ensures i >= 0 ==> s[i] == c
    ensures forall k :: i < k < |s| ==> s[k] != c
  {
    if s == "" then -1
    else if s[|s| - 1] == c then |s| - 1
    else LastIndexOf(s[..|s| - 1], c)
  }

  lemma LastSlash(directory: string, name: string)
    requires '/' !in name
    ensures LastIndexOf(directory + "/" + name, '/') == |directory|
  {
    hide LastIndexOf;
    var s, n := directory + "/" + name, |directory|;
    var i := LastIndexOf(s, '/');
    assert s[n] == '/' && i >= n;
    forall k | n < k < |s|
      ensures s[k] != '/'
    {
      assert s[k] == name[k - n - 1] && name[k - n - 1] in name;
    }
  }

  /** The partitions before n registered at l, in order. */
  function IndexesAt(locs: seq<string>, n: nat, l: string): seq<nat>
    requires n <= |locs|
  {
    if n == 0 then [] else IndexesAt(locs, n - 1, l) + if locs[n - 1] == l then [n - 1] else []
  }

  lemma {:induction false} IndexesAtAre(locs: seq<string>, n: nat, l: string) returns (r: seq<nat>)
    requires n <= |locs|
    ensures r == IndexesAt(locs, n, l)
    ensures forall a | 0 <= a < |r| :: r[a] < n && locs[r[a]] == l
    ensures forall a, b :: 0 <= a < b < |r| ==> r[a] < r[b]
  {
    if n == 0 {
      r := [];
    } else {
      r := IndexesAtAre(locs, n - 1, l);
      r := r + if locs[n - 1] == l then [n - 1] else [];
    }
  }

  lemma {:induction false} IndexesAtHas(locs: seq<string>, n: nat, l: string, k: nat)
    requires k < n <= |locs| && locs[k] == l
    ensures k in IndexesAt(locs, n, l)
  {
    if k < n - 1 {
      IndexesAtHas(locs, n - 1, l, k);
    }
  }

  lemma IndexesAtNext(locs: seq<string>, n: nat, l: string)
    requires n < |locs|
    ensures IndexesAt(locs, n + 1, l) == IndexesAt(locs, n, l) + if locs[n] == l then [n] else []
  {
  }

  ghost predicate Grouped(locs: seq<string>, n: nat, byLocation: map<string, nat>, groups: map<string, seq<nat>>)
    requires n <= |locs|
  {
    && (forall l | l in byLocation :: l in groups)
    && (forall l | l in groups :: l in byLocation && l != "" && groups[l] != [] && groups[l] == IndexesAt(locs, n, l) && byLocation[l] == groups[l][0])
    && (forall k | 0 <= k < n :: locs[k] != "" ==> locs[k] in groups)
  }

  lemma GroupHead(locs: seq<string>, l: string, group: seq<nat>)
    requires group == IndexesAt(locs, |locs|, l) && group != []
    ensures forall a | 0 <= a < |group| :: group[a] < |locs| && locs[group[a]] == l
    ensures First(locs, group[0]) && (|group| > 1 <==> Shared(locs, group[0]))
  {
    var same := IndexesAtAre(locs, |locs|, l);
    forall k | 0 <= k < |locs| && locs[k] == l
      ensures group[0] <= k && (|group| == 1 ==> k == group[0])
    {
      IndexesAtHas(locs, |locs|, l, k);
      var a :| 0 <= a < |group| && group[a] == k;
    }
    if |group| > 1 {
      assert group[1] != group[0] && locs[group[1]] == l;
    }
  }

  /** The first partition at each location. */
  ghost predicate Indexed(locs: seq<string>, byLocation: map<string, nat>) {
    && (forall l | l in byLocation :: l != "" && byLocation[l] < |locs| && locs[byLocation[l]] == l && First(locs, byLocation[l]))
    && (forall k | 0 <= k < |locs| :: locs[k] != "" ==> locs[k] in byLocation)
  }

  /** For each location with several partitions, all of them by the first. */
  ghost predicate SharedIndexed(locs: seq<string>, shared: map<nat, seq<nat>>) {
    && (forall w | w in shared :: w < |locs| && shared[w] == IndexesAt(locs, |locs|, locs[w]) && |shared[w]| > 1)
    && (forall w | 0 <= w < |locs| :: locs[w] != "" && First(locs, w) && Shared(locs, w) ==> w in shared)
  }

  lemma {:induction false} NoneAt(locs: seq<string>, n: nat, l: string)
    requires n <= |locs| && forall k | 0 <= k < n :: locs[k] != l
    ensures IndexesAt(locs, n, l) == []
  {
    if n > 0 {
      NoneAt(locs, n - 1, l);
    }
  }

  lemma NoGroupYet(locs: seq<string>, n: nat, byLocation: map<string, nat>, groups: map<string, seq<nat>>, l: string)
    requires n <= |locs| && Grouped(locs, n, byLocation, groups) && l != "" && l !in groups
    ensures IndexesAt(locs, n, l) == []
  {
    forall k | 0 <= k < n
      ensures locs[k] != l
    {
    }
    NoneAt(locs, n, l);
  }

  lemma NewGroup(locs: seq<string>, n: nat, byLocation: map<string, nat>, groups: map<string, seq<nat>>)
    requires n < |locs| && Grouped(locs, n, byLocation, groups) && locs[n] != "" && locs[n] !in groups
    ensures Grouped(locs, n + 1, byLocation[locs[n] := n], groups[locs[n] := [n]])
  {
    hide IndexesAt;
    var here := locs[n];
    NoGroupYet(locs, n, byLocation, groups, here);
    IndexesAtNext(locs, n, here);
    forall l | l in groups
      ensures l != here && groups[l] == IndexesAt(locs, n + 1, l)
    {
      IndexesAtNext(locs, n, l);
    }
  }

  lemma GrownGroup(locs: seq<string>, n: nat, byLocation: map<string, nat>, groups: map<string, seq<nat>>)
    requires n < |locs| && Grouped(locs, n, byLocation, groups) && locs[n] in groups
    ensures Grouped(locs, n + 1, byLocation, groups[locs[n] := groups[locs[n]] + [n]])
  {
    hide IndexesAt;
    var grown := groups[locs[n] := groups[locs[n]] + [n]];
    forall l | l in grown
      ensures grown[l] == IndexesAt(locs, n + 1, l)
    {
      IndexesAtNext(locs, n, l);
    }
  }

  lemma NoneGrouped(locs: seq<string>)
    ensures Grouped(locs, 0, map[], map[])
  {
  }

  lemma GroupedKeys(locs: seq<string>, n: nat, byLocation: map<string, nat>, groups: map<string, seq<nat>>)
    requires n < |locs| && Grouped(locs, n, byLocation, groups)
    ensures locs[n] in byLocation <==> locs[n] in groups
    ensures locs[n] == "" ==> Grouped(locs, n + 1, byLocation, groups)
  {
  }

  method GroupByLocation(locs: seq<string>) returns (byLocation: map<string, nat>, groups: map<string, seq<nat>>)
    ensures Grouped(locs, |locs|, byLocation, groups)
  {
    hide Grouped, IndexesAt;
    byLocation, groups := map[], map[];
    NoneGrouped(locs);
    for i := 0 to |locs|
      invariant Grouped(locs, i, byLocation, groups)
    {
      GroupedKeys(locs, i, byLocation, groups);
      if locs[i] != "" {
        if locs[i] in byLocation {
          GrownGroup(locs, i, byLocation, groups);
          groups := groups[locs[i] := groups[locs[i]] + [i]];
        } else {
          NewGroup(locs, i, byLocation, groups);
          byLocation := byLocation[locs[i] := i];
          groups := groups[locs[i] := [i]];
        }
      }
    }
  }

  lemma GroupsIndexed(locs: seq<string>, byLocation: map<string, nat>, groups: map<string, seq<nat>>)
    requires Grouped(locs, |locs|, byLocation, groups)
    ensures Indexed(locs, byLocation)
    ensures forall w | 0 <= w < |locs| :: locs[w] != "" && First(locs, w) && Shared(locs, w) ==>
              locs[w] in groups && |groups[locs[w]]| > 1 && groups[locs[w]][0] == w
  {
    forall l | l in groups
      ensures groups[l][0] < |locs| && locs[groups[l][0]] == l
      ensures First(locs, groups[l][0]) && (|groups[l]| > 1 <==> Shared(locs, groups[l][0]))
    {
      GroupHead(locs, l, groups[l]);
    }
    forall k | 0 <= k < |locs| && locs[k] != ""
      ensures locs[k] in groups
    {
      IndexesAtHas(locs, |locs|, locs[k], k);
    }
    forall w | 0 <= w < |locs| && locs[w] != "" && First(locs, w)
      ensures locs[w] in groups && groups[locs[w]][0] == w
    {
      IndexesAtHas(locs, |locs|, locs[w], w);
      var group := groups[locs[w]];
      assert locs[group[0]] == locs[w];
    }
  }

  method BuildPartitionLocations(locs: seq<string>) returns (byLocation: map<string, nat>, shared: map<nat, seq<nat>>)
    ensures Indexed(locs, byLocation) && SharedIndexed(locs, shared)
  {
    var groups;
    byLocation, groups := GroupByLocation(locs);
    GroupsIndexed(locs, byLocation, groups);
    shared := map[];
    var todo := groups.Keys;
    while todo != {}
      invariant todo <= groups.Keys
      invariant forall w | w in shared :: w < |locs| && shared[w] == IndexesAt(locs, |locs|, locs[w]) && |shared[w]| > 1
      invariant forall l | l in groups && l !in todo :: |groups[l]| > 1 ==> groups[l][0] in shared
      decreases |todo|
    {
      var l :| l in todo;
      todo := todo - {l};
      if |groups[l]| > 1 {
        assert groups[l] == IndexesAt(locs, |locs|, l) && locs[groups[l][0]] == l;
        shared := shared[groups[l][0] := groups[l]];
      }
    }
  }

  method AnyRead(sharing: seq<nat>, reading: seq<nat>) returns (read: bool)
    ensures read <==> exists a | 0 <= a < |sharing| :: sharing[a] in reading
  {
    read := false;
    for n := 0 to |sharing|
      invariant read <==> exists a | 0 <= a < n :: sharing[a] in reading
    {
      read := read || sharing[n] in reading;
    }
  }

  predicate SharedWithRead(locs: seq<string>, owner: nat, reading: seq<nat>)
    requires owner < |locs|
  {
    Shared(locs, owner) && exists k | 0 <= k < |locs| :: locs[k] == locs[owner] && k in reading
  }

  /** Whether a file of 'owner' must be refused: its location is registered by a partition being read too. */
  method LocationShared(locs: seq<string>, shared: map<nat, seq<nat>>, owner: nat, reading: seq<nat>)
    returns (refuse: bool)
    requires SharedIndexed(locs, shared) && owner < |locs| && First(locs, owner) && locs[owner] != ""
    ensures refuse <==> SharedWithRead(locs, owner, reading)
  {
    if owner !in shared {
      return false;
    }
    refuse := AnyRead(shared[owner], reading);
    SharedMeans(locs, shared, owner, reading);
  }

  lemma SharedMeans(locs: seq<string>, shared: map<nat, seq<nat>>, owner: nat, reading: seq<nat>)
    requires SharedIndexed(locs, shared) && owner < |locs| && owner in shared && First(locs, owner)
    ensures SharedWithRead(locs, owner, reading) <==>
            exists a | 0 <= a < |shared[owner]| :: shared[owner][a] in reading
  {
    var sharing := shared[owner];
    GroupHead(locs, locs[owner], sharing);
    IndexesAtHas(locs, |locs|, locs[owner], owner);
    if k :| 0 <= k < |locs| && locs[k] == locs[owner] && k in reading {
      IndexesAtHas(locs, |locs|, locs[owner], k);
    }
  }

  lemma HolderEndsAtSlash(locs: seq<string>, i: nat, path: string)
    requires Holds(locs, i, path)
    ensures |locs[i]| < |path| && path[|locs[i]|] == '/' && path[..|locs[i]|] == locs[i]
  {
    var l := locs[i];
    assert path[..|l| + 1] == l + "/";
    assert (l + "/")[|l|] == '/';
    assert path[..|l|] == (l + "/")[..|l|];
  }

  ghost predicate HoldersWithin(locs: seq<string>, path: string, size: int) {
    forall i | 0 <= i < |locs| :: Holds(locs, i, path) ==> |locs[i]| <= size
  }

  lemma HoldersWithinParent(locs: seq<string>, path: string, size: int, separator: int)
    requires 0 <= size < |path| && -1 <= separator && HoldersWithin(locs, path, size)
    requires forall k :: separator < k < size ==> path[k] != '/'
    requires forall i | 0 <= i < |locs| :: Holds(locs, i, path) ==> |locs[i]| != size
    ensures HoldersWithin(locs, path, separator)
  {
    forall i | 0 <= i < |locs| && Holds(locs, i, path)
      ensures |locs[i]| <= separator
    {
      HolderEndsAtSlash(locs, i, path);
    }
  }

  /** Climbs from the file's directory towards the root, no shorter than the given size. */
  method OwningPartition(locs: seq<string>, byLocation: map<string, nat>, filePath: string, minDirectorySize: nat)
    returns (owner: Option<nat>)
    requires Indexed(locs, byLocation)
    ensures owner.Some? ==> Owns(locs, owner.value, ComparableLocation(filePath)) && First(locs, owner.value)
    ensures owner.Some? ==> |locs[owner.value]| >= minDirectorySize
    ensures owner.None? ==> HoldersWithin(locs, ComparableLocation(filePath), minDirectorySize - 1)
  {
    var path := ComparableLocation(filePath);
    owner := DeepestLocation(locs, byLocation, path, minDirectorySize);
  }

  method DeepestLocation(locs: seq<string>, byLocation: map<string, nat>, path: string, minDirectorySize: nat)
    returns (owner: Option<nat>)
    requires Indexed(locs, byLocation)
    ensures owner.Some? ==> Owns(locs, owner.value, path) && First(locs, owner.value)
    ensures owner.Some? ==> |locs[owner.value]| >= minDirectorySize
    ensures owner.None? ==> HoldersWithin(locs, path, minDirectorySize - 1)
  {
    var separator := LastIndexOf(path, '/');
    forall i | 0 <= i < |locs| && Holds(locs, i, path)
      ensures |locs[i]| <= separator
    {
      HolderEndsAtSlash(locs, i, path);
    }
    if separator < 0 {
      return None;
    }
    var directory := path[..separator];
    while |directory| >= minDirectorySize
      invariant |directory| < |path| && directory == path[..|directory|] && path[|directory|] == '/'
      invariant HoldersWithin(locs, path, |directory|)
      decreases |directory|
    {
      if directory in byLocation {
        owner := Some(byLocation[directory]);
        assert path[..|directory| + 1] == directory + "/";
        return;
      }
      forall i | 0 <= i < |locs| && Holds(locs, i, path)
        ensures |locs[i]| != |directory|
      {
        HolderEndsAtSlash(locs, i, path);
      }
      var parent := LastIndexOf(directory, '/');
      HoldersWithinParent(locs, path, |directory|, parent);
      if parent < 0 {
        return None;
      }
      assert directory[..parent] == path[..parent];
      directory := directory[..parent];
    }
    return None;
  }
}
