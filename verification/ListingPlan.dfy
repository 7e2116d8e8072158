/** Which listings a scan makes: the table root once, or the partitions in batches. */
module ListingPlan {
  import opened Outcomes
  import opened Text
  import opened Locations
  import opened ListingSpec

  datatype Job = Job(root: bool, partitions: seq<nat>)

  const KEYS_PER_LIST_PAGE := 1000
  const ROOT_REQUESTS_SAVED := 10

  function CeilDiv(a: nat, b: nat): nat
    requires b > 0
  {
    (a + b - 1) / b
  }

  predicate HasDoubleSlashFrom(s: string, from: nat) {
    exists i | from <= i < |s| - 1 :: s[i] == '/' && s[i + 1] == '/'
  }

  /** Whether a location is listed together with the root. The search for an empty segment starts after the root's
      slash, so it does not see one directly below the root. */
  predicate ListedWithRoot(location: string, root: string) {
    root != "" && |location| > |root| + 1 && Below(location, root) && !HasDoubleSlashFrom(location, |root| + 1)
  }

  function BelowRoot(locs: seq<string>, root: string, read: seq<nat>): (r: seq<nat>)
    requires Indexes(locs, read)
    ensures forall i :: i in r <==> i in read && ListedWithRoot(locs[i], root)
    ensures |r| <= |read|
  {
    if read == [] then []
    else
      var i := read[|read| - 1];
      assert read == read[..|read| - 1] + [i];
      BelowRoot(locs, root, read[..|read| - 1]) + if ListedWithRoot(locs[i], root) then [i] else []
  }

  function Elsewhere(locs: seq<string>, root: string, read: seq<nat>): (r: seq<nat>)
    requires Indexes(locs, read)
    ensures forall i :: i in r <==> i in read && !ListedWithRoot(locs[i], root)
    ensures |r| + |BelowRoot(locs, root, read)| == |read|
  {
    if read == [] then []
    else
      var i := read[|read| - 1];
      assert read == read[..|read| - 1] + [i];
      Elsewhere(locs, root, read[..|read| - 1]) + if ListedWithRoot(locs[i], root) then [] else [i]
  }

  /** The partitions whose location, as spelled, starts with the root. */
  function CountBelow(spelled: seq<string>, root: string): nat {
    if spelled == [] then 0
    else
      var location := spelled[|spelled| - 1];
      CountBelow(spelled[..|spelled| - 1], root) +
      if root != "" && |location| > |root| + 1 && Below(location, root) then 1 else 0
  }

  predicate ListsRoot(below: nat, partitionsBelow: nat, together: nat, threshold: Option<nat>)
    requires together > 0
  {
    var pages, rounds := CeilDiv(partitionsBelow, KEYS_PER_LIST_PAGE), CeilDiv(below, together);
    below > 0 &&
    match threshold
    case Some(least) => below >= least
    case None => pages < rounds || (pages == rounds && below >= ROOT_REQUESTS_SAVED * pages)
  }

  function Batches(s: seq<nat>, n: nat): seq<Job>
    requires n > 0
  {
    if s == [] then []
    else
      var end := if n < |s| then n else |s|;
      [Job(false, s[..end])] + Batches(s[end..], n)
  }

  function Plan(locs: seq<string>, spelled: seq<string>, root: string, read: seq<nat>, together: nat, threshold: Option<nat>): seq<Job>
    requires Indexes(locs, read) && together > 0
  {
    var below, elsewhere := BelowRoot(locs, root, read), Elsewhere(locs, root, read);
    if ListsRoot(|below|, CountBelow(spelled, root), together, threshold)
    then [Job(true, below)] + Batches(elsewhere, together)
    else Batches(below + elsewhere, together)
  }

  function Concatenated(jobs: seq<Job>): seq<nat> {
    if jobs == [] then [] else jobs[0].partitions + Concatenated(jobs[1..])
  }

  lemma {:induction false} ConcatenatedHas(jobs: seq<Job>, i: nat)
    ensures i in Concatenated(jobs) <==> exists j :: j in jobs && i in j.partitions
  {
    if jobs != [] {
      ConcatenatedHas(jobs[1..], i);
    }
  }

  lemma OneMoreJob(first: Job, rest: seq<Job>)
    ensures Concatenated([first] + rest) == first.partitions + Concatenated(rest)
    ensures forall j :: j in [first] + rest ==> j == first || j in rest
  {
    assert ([first] + rest)[1..] == rest;
  }

  lemma {:induction false} BatchesOf(s: seq<nat>, n: nat)
    requires n > 0
    ensures Concatenated(Batches(s, n)) == s
    ensures forall j :: j in Batches(s, n) ==> !j.root && 1 <= |j.partitions| <= n
    decreases |s|
  {
    if s != [] {
      hide Batches, Concatenated;
      var end := if n < |s| then n else |s|;
      BatchesOf(s[end..], n);
      BatchesNext(s, n, end);
      OneMoreJob(Job(false, s[..end]), Batches(s[end..], n));
      assert s[..end] + s[end..] == s;
    }
  }

  lemma BatchesNext(s: seq<nat>, n: nat, end: nat)
    requires 0 < n && s != [] && end == if n < |s| then n else |s|
    ensures Batches(s, n) == [Job(false, s[..end])] + Batches(s[end..], n)
  {
  }

  lemma {:induction false} BatchCount(s: seq<nat>, n: nat)
    requires n > 0
    ensures |Batches(s, n)| == CeilDiv(|s|, n)
    decreases |s|
  {
    hide CeilDiv;
    if s == [] {
      CeilOfNone(n);
    } else if |s| <= n {
      CeilOfOne(|s|, n);
      assert Batches(s[|s|..], n) == [];
    } else {
      BatchCount(s[n..], n);
      CeilOfMore(|s|, n);
    }
  }

  lemma ProductAtLeast(b: int, d: int)
    requires b >= 0
    ensures d >= 1 ==> b * d >= b
    ensures d <= -1 ==> b * d <= -b
  {
    if d >= 1 {
      assert b * d == b + b * (d - 1);
    } else if d <= -1 {
      assert b * d == -b + b * (d + 1);
    }
  }

  lemma QuotientIs(a: nat, b: nat, q: nat, r: nat)
    requires b > 0 && r < b && a == b * q + r
    ensures a / b == q
  {
    var p, d := a / b, a / b - q;
    assert b * p == b * q + b * d;
    ProductAtLeast(b, d);
  }

  lemma CeilOfNone(b: nat)
    requires b > 0
    ensures CeilDiv(0, b) == 0
  {
    QuotientIs(b - 1, b, 0, b - 1);
  }

  lemma CeilOfOne(a: nat, b: nat)
    requires 1 <= a <= b
    ensures CeilDiv(a, b) == 1
  {
    QuotientIs(a + b - 1, b, 1, a - 1);
  }

  lemma DivStep(x: nat, n: nat)
    requires 0 < n <= x
    ensures x / n == (x - n) / n + 1
  {
    var q := (x - n) / n;
    assert n * (q + 1) == n * q + n;
    QuotientIs(x, n, q + 1, (x - n) % n);
  }

  lemma CeilOfMore(a: nat, b: nat)
    requires 0 < b <= a
    ensures CeilDiv(a, b) == 1 + CeilDiv(a - b, b)
  {
    DivStep(a + b - 1, b);
  }

  lemma {:induction false} CeilAdds(a: nat, b: nat, n: nat)
    requires n > 0
    ensures CeilDiv(a + b, n) <= CeilDiv(a, n) + CeilDiv(b, n)
    decreases a
  {
    if a >= n {
      CeilOfMore(a, n);
      CeilOfMore(a + b, n);
      CeilAdds(a - n, b, n);
    } else if a > 0 {
      CeilOfOne(a, n);
      CeilOfMore(b + n, n);
      assert (a + b + n - 1) / n <= (b + n + n - 1) / n by {
        DivMonotone(a + b + n - 1, b + n + n - 1, n);
      }
    }
  }

  lemma {:induction false} DivMonotone(x: nat, y: nat, n: nat)
    requires x <= y && n > 0
    ensures x / n <= y / n
    decreases x
  {
    if x < n {
      QuotientIs(x, n, 0, x);
    } else {
      DivMonotone(x - n, y - n, n);
      DivStep(x, n);
      DivStep(y, n);
    }
  }

  /** Every partition read is in exactly one listing, no batch lists more than can be listed together, and planning makes
      no more listings than listing both kinds apart would. */
  lemma PlanCovers(locs: seq<string>, spelled: seq<string>, root: string, read: seq<nat>, together: nat,
                   threshold: Option<nat>)
    requires Indexes(locs, read) && together > 0
    ensures var jobs := Plan(locs, spelled, root, read, together, threshold);
            && (multiset(Concatenated(jobs)) == multiset(read))
            && (forall j :: j in jobs && !j.root ==> 1 <= |j.partitions| <= together)
            && (forall k :: 0 <= k < |jobs| && jobs[k].root ==> k == 0 && jobs[k].partitions == BelowRoot(locs, root, read))
            && |jobs| <= CeilDiv(|BelowRoot(locs, root, read)|, together) + CeilDiv(|Elsewhere(locs, root, read)|, together)
  {
    hide ListedWithRoot, Batches, CeilDiv, BelowRoot, Elsewhere, Plan, Concatenated;
    PlanParts(locs, spelled, root, read, together, threshold);
    PlanCount(locs, spelled, root, read, together, threshold);
    SplitKeepsAll(locs, root, read);
  }

  lemma PlanParts(locs: seq<string>, spelled: seq<string>, root: string, read: seq<nat>, together: nat,
                  threshold: Option<nat>)
    requires Indexes(locs, read) && together > 0
    ensures var jobs := Plan(locs, spelled, root, read, together, threshold);
            && Concatenated(jobs) == BelowRoot(locs, root, read) + Elsewhere(locs, root, read)
            && (forall j :: j in jobs && !j.root ==> 1 <= |j.partitions| <= together)
            && (forall k :: 0 <= k < |jobs| && jobs[k].root ==> k == 0 && jobs[k].partitions == BelowRoot(locs, root, read))
  {
    hide ListedWithRoot, Batches, BelowRoot, Elsewhere, ListsRoot;
    var below, elsewhere := BelowRoot(locs, root, read), Elsewhere(locs, root, read);
    BatchesOf(below + elsewhere, together);
    BatchesOf(elsewhere, together);
    assert ([Job(true, below)] + Batches(elsewhere, together))[1..] == Batches(elsewhere, together);
  }

  lemma PlanCount(locs: seq<string>, spelled: seq<string>, root: string, read: seq<nat>, together: nat,
                  threshold: Option<nat>)
    requires Indexes(locs, read) && together > 0
    ensures |Plan(locs, spelled, root, read, together, threshold)|
            <= CeilDiv(|BelowRoot(locs, root, read)|, together) + CeilDiv(|Elsewhere(locs, root, read)|, together)
  {
    hide ListedWithRoot, Batches, BelowRoot, Elsewhere, CeilDiv;
    var below, elsewhere := BelowRoot(locs, root, read), Elsewhere(locs, root, read);
    BatchCount(below + elsewhere, together);
    BatchCount(elsewhere, together);
    CeilAdds(|below|, |elsewhere|, together);
    if below != [] {
      CeilPositive(|below|, together);
    }
  }

  lemma CeilPositive(a: nat, b: nat)
    requires a > 0 && b > 0
    ensures CeilDiv(a, b) >= 1
  {
    if a <= b { CeilOfOne(a, b); } else { CeilOfMore(a, b); }
  }

  lemma {:induction false} SplitKeepsAll(locs: seq<string>, root: string, read: seq<nat>)
    requires Indexes(locs, read)
    ensures multiset(BelowRoot(locs, root, read) + Elsewhere(locs, root, read)) == multiset(read)
  {
    if read != [] {
      var rest := read[..|read| - 1];
      assert read == rest + [read[|read| - 1]];
      SplitKeepsAll(locs, root, rest);
    }
  }

  /** The rounds of requests a plan needs for the partitions below the root. */
  function RoundsBelow(below: nat, partitionsBelow: nat, together: nat, threshold: Option<nat>): nat
    requires together > 0
  {
    if ListsRoot(below, partitionsBelow, together, threshold) then CeilDiv(partitionsBelow, KEYS_PER_LIST_PAGE)
    else CeilDiv(below, together)
  }

  /** Without a threshold the cheaper of the two is chosen. */
  lemma FewestRounds(below: nat, partitionsBelow: nat, together: nat)
    requires together > 0
    ensures var pages, rounds := CeilDiv(partitionsBelow, KEYS_PER_LIST_PAGE), CeilDiv(below, together);
            RoundsBelow(below, partitionsBelow, together, None) == if pages < rounds then pages else rounds
  {
    if below == 0 {
      assert CeilDiv(below, together) == 0;
    }
  }

  /** With one page of partitions below the root it is listed exactly when ten partitions are read, or more than can be
      listed together. */
  lemma OnePageRoot(below: nat, partitionsBelow: nat, together: nat)
    requires together > 0 && 1 <= partitionsBelow <= 1000
    ensures ListsRoot(below, partitionsBelow, together, None) <==> below >= 10 || below >= together + 1
  {
    CeilOfOne(partitionsBelow, 1000);
    if below > together {
      CeilOfMore(below, together);
      CeilPositive(below - together, together);
    } else if below > 0 {
      CeilOfOne(below, together);
    }
  }

  lemma CeilAtMost(a: nat, b: nat, p: nat)
    requires b > 0
    ensures CeilDiv(a, b) <= p <==> a <= b * p
  {
    var q := CeilDiv(a, b);
    assert b * q <= a + b - 1 < b * q + b;
    var d := q - p;
    assert b * q == b * p + b * d;
    ProductAtLeast(b, d);
  }

  /** With p pages of partitions below the root, of a thousand each, it is listed exactly when more are read than p times
      as many as can be listed together, or more than p - 1 times as many and ten for each page. */
  lemma PagesRoot(below: nat, partitionsBelow: nat, together: nat, p: nat)
    requires together > 0 && p >= 1 && 1000 * (p - 1) < partitionsBelow <= 1000 * p
    ensures ListsRoot(below, partitionsBelow, together, None) <==>
            below > together * p || (below > together * (p - 1) && below >= 10 * p)
  {
    hide CeilDiv;
    CeilAtMost(partitionsBelow, 1000, p);
    CeilAtMost(partitionsBelow, 1000, p - 1);
    CeilAtMost(below, together, p);
    CeilAtMost(below, together, p - 1);
  }

  /** For locations in canonical spelling (spelled as they are compared) every partition listed with the root counts towards its pages. */
  lemma {:induction false} CountCoversCanonical(locs: seq<string>, root: string, read: seq<nat>)
    requires Indexes(locs, read) && forall a, b :: 0 <= a < b < |read| ==> read[a] != read[b]
    ensures |BelowRoot(locs, root, read)| <= CountBelow(locs, root)
    decreases |locs|
  {
    hide BelowRoot, HasDoubleSlashFrom, Below;
    if locs == [] {
      NoneBelow(locs, root, read);
    } else {
      var last := |locs| - 1;
      var front := locs[..last];
      if k: nat :| k < |read| && read[k] == last {
        var others := read[..k] + read[k + 1..];
        CountCoversCanonical(front, root, others);
        BelowOfRemoved(locs, root, read, k);
        BelowOfFront(locs, root, others);
      } else {
        CountCoversCanonical(front, root, read);
        BelowOfFront(locs, root, read);
      }
    }
  }

  lemma NoneBelow(locs: seq<string>, root: string, read: seq<nat>)
    requires Indexes(locs, read) && locs == []
    ensures BelowRoot(locs, root, read) == []
  {
  }

  lemma {:induction false} BelowOfFront(locs: seq<string>, root: string, read: seq<nat>)
    requires locs != [] && Indexes(locs[..|locs| - 1], read)
    ensures BelowRoot(locs, root, read) == BelowRoot(locs[..|locs| - 1], root, read)
  {
    if read != [] {
      assert read == read[..|read| - 1] + [read[|read| - 1]];
      assert read[|read| - 1] in read;
      BelowOfFront(locs, root, read[..|read| - 1]);
    }
  }

  lemma {:induction false} BelowOfRemoved(locs: seq<string>, root: string, read: seq<nat>, k: nat)
    requires Indexes(locs, read) && k < |read|
    ensures |BelowRoot(locs, root, read)| ==
            |BelowRoot(locs, root, read[..k] + read[k + 1..])| + if ListedWithRoot(locs[read[k]], root) then 1 else 0
    decreases |read|
  {
    var last := |read| - 1;
    assert read == read[..last] + [read[last]];
    if k == last {
      assert read[..k] + read[k + 1..] == read[..last];
    } else {
      var others := read[..k] + read[k + 1..];
      BelowOfRemoved(locs, root, read[..last], k);
      assert others[..|others| - 1] == read[..last][..k] + read[..last][k + 1..];
      assert others[|others| - 1] == read[last];
    }
  }

  /** With a threshold the root is listed exactly when one partition below it is read and as many as the threshold says. */
  lemma ThresholdDecides(locs: seq<string>, spelled: seq<string>, root: string, read: seq<nat>, together: nat, least: nat)
    requires Indexes(locs, read) && together > 0
    ensures var jobs := Plan(locs, spelled, root, read, together, Some(least));
            (exists job :: job in jobs && job.root) <==>
            |BelowRoot(locs, root, read)| >= 1 && |BelowRoot(locs, root, read)| >= least
  {
    hide ListedWithRoot, Batches, BelowRoot, Elsewhere, CeilDiv;
    var below, elsewhere := BelowRoot(locs, root, read), Elsewhere(locs, root, read);
    BatchesOf(below + elsewhere, together);
    BatchesOf(elsewhere, together);
    var jobs := Plan(locs, spelled, root, read, together, Some(least));
    assert |below| >= 1 && |below| >= least ==> jobs[0] == Job(true, below);
  }

  lemma {:induction false} DoubleSlashOfJoin(parts: seq<string>)
    requires parts != [] && forall p | p in parts :: '/' !in p
    ensures HasDoubleSlashFrom(Join(parts, '/'), 0) <==> exists k :: 1 <= k < |parts| - 1 && parts[k] == ""
    ensures Join(parts, '/') != "" && Join(parts, '/')[0] == '/' <==> |parts| > 1 && parts[0] == ""
  {
    if |parts| == 1 {
      forall i | 0 <= i < |parts[0]|
        ensures parts[0][i] != '/'
      {
        assert parts[0][i] in parts[0];
      }
    } else {
      var first, rest := parts[0], parts[1..];
      assert forall k | 0 <= k < |rest| :: rest[k] == parts[k + 1];
      DoubleSlashOfJoin(rest);
      DoubleSlashAfter(first, Join(rest, '/'));
      if HasDoubleSlashFrom(Join(rest, '/'), 0) {
        var k :| 1 <= k < |rest| - 1 && rest[k] == "";
        assert parts[k + 1] == "";
      }
      if k :| 1 <= k < |parts| - 1 && parts[k] == "" {
        if k > 1 {
          assert rest[k - 1] == "";
        }
      }
    }
  }

  lemma DoubleSlashAfter(first: string, rest: string)
    requires '/' !in first
    ensures HasDoubleSlashFrom(first + "/" + rest, 0) <==> (rest != "" && rest[0] == '/') || HasDoubleSlashFrom(rest, 0)
    ensures (first + "/" + rest)[0] == '/' <==> first == ""
  {
    var s, n := first + "/" + rest, |first|;
    assert forall i | 0 <= i < n :: s[i] == first[i] && first[i] in first;
    assert s[n] == '/' && forall i | 0 <= i < |rest| :: s[n + 1 + i] == rest[i];
    if i :| 0 <= i < |s| - 1 && s[i] == '/' && s[i + 1] == '/' {
      if i > n {
        assert rest[i - n - 1] == '/' && rest[i - n - 1 + 1] == '/';
      }
    }
    if i :| 0 <= i < |rest| - 1 && rest[i] == '/' && rest[i + 1] == '/' {
      assert s[n + 1 + i] == '/' && s[n + 1 + i + 1] == '/';
    }
  }

  /** A location below the root is listed with it unless it has an empty component that is neither its first nor its
      last below the root. */
  lemma ListedWithRootExactlyWhen(root: string, parts: seq<string>)
    requires root != "" && parts != [] && (forall p | p in parts :: '/' !in p) && Join(parts, '/') != ""
    ensures ListedWithRoot(root + "/" + Join(parts, '/'), root) <==> forall k | 1 <= k < |parts| - 1 :: parts[k] != ""
  {
    hide Join;
    var rest := Join(parts, '/');
    var location, n := root + "/" + rest, |root| + 1;
    assert location[..n] == root + "/";
    DoubleSlashOfJoin(parts);
    assert forall i | 0 <= i < |rest| :: location[n + i] == rest[i];
    if i :| n <= i < |location| - 1 && location[i] == '/' && location[i + 1] == '/' {
      assert rest[i - n] == '/' && rest[i - n + 1] == '/';
    }
    if i :| 0 <= i < |rest| - 1 && rest[i] == '/' && rest[i + 1] == '/' {
      assert location[n + i] == '/' && location[n + i + 1] == '/';
    }
  }
}
