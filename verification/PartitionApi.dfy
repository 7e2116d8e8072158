/** The batch requests for partitions, with the parts a request leaves undone sent again. */
module PartitionApi {
  import opened Outcomes
  import opened GlueService

  const MAX_ATTEMPTS := 4
  const GET_BATCH := 1000
  const CREATE_BATCH := 100
  const DELETE_BATCH := 25

  // Looking partitions up.

  /** At some request since, Glue had the partition there, or did not have it. */
  ghost predicate Seen(history: seq<Partitions>, since: nat, key: Values, found: Option<string>) {
    exists n :: since <= n < |history| && (if key in history[n] then found == Some(history[n][key]) else found == None)
  }

  function Found(existing: Partitions, key: Values): Option<string> {
    if key in existing then Some(existing[key]) else None
  }

  /** The answer is what Glue had at some moment of the lookup, key by key. */
  ghost predicate Answers(existing: Partitions, keys: seq<Values>, history: seq<Partitions>, since: nat) {
    forall k | 0 <= k < |keys| :: Seen(history, since, keys[k], Found(existing, keys[k]))
  }

  lemma SeenLater(history: seq<Partitions>, later: seq<Partitions>, since: nat, sinceBefore: nat, key: Values, found: Option<string>)
    requires history <= later && sinceBefore <= since && Seen(history, since, key, found)
    ensures Seen(later, sinceBefore, key, found)
  {
    var n :| since <= n < |history| && (if key in history[n] then found == Some(history[n][key]) else found == None);
    assert later[n] == history[n];
  }

  /** The keys of a batch answered so far: those not left. */
  ghost predicate BatchAnswers(found: Partitions, keys: seq<Values>, left: seq<Values>, history: seq<Partitions>, since: nat) {
    && (forall k | k in left :: k in keys && k !in found) && (forall k | k in found :: k in keys)
    && (forall k | k in keys && k !in left :: Seen(history, since, k, Found(found, k)))
  }

  lemma BatchStep(found: Partitions, keys: seq<Values>, left: seq<Values>, history: seq<Partitions>, since: nat,
                  answer: Partitions, unprocessed: seq<Values>, now: Partitions)
    requires BatchAnswers(found, keys, left, history, since) && since <= |history|
    requires forall k :: k in answer <==> k in left && k !in unprocessed && k in now
    requires forall k | k in answer :: answer[k] == now[k]
    requires forall k | k in unprocessed :: k in left
    ensures BatchAnswers(answer + found, keys, unprocessed, history + [now], since)
  {
    var later := history + [now];
    assert later[|history|] == now;
    forall k | k in keys && k !in unprocessed
      ensures Seen(later, since, k, Found(answer + found, k))
    {
      if k !in left {
        SeenLater(history, later, since, since, k, Found(found, k));
      }
    }
  }

  /** While nobody else writes, lookups see the same partitions all along. */
  ghost predicate Unmoved(before: Partitions, now: Partitions, since: nat, history: seq<Partitions>) {
    now == before && forall n | since <= n < |history| :: history[n] == before
  }

  lemma NothingAnswered(keys: seq<Values>, history: seq<Partitions>)
    ensures BatchAnswers(map[], keys, keys, history, |history|)
  {
  }

  lemma UnprocessedIsFault(keys: seq<Values>, turn: Turn)
    requires |Unprocessed(keys, turn.verdict)| == |keys| && keys != []
    ensures Faulty(turn)
  {
    var left := Unprocessed(keys, turn.verdict);
    assert left[0] in left;
  }

  /** Between a stretch of lookups and each of their requests, others alone act. */
  ghost predicate SparesAll(server: GlueServer, from: nat, to: nat, start: Partitions, now: Partitions, history: seq<Partitions>, since: nat) {
    forall n | since <= n < |history| ::
      Spares(server, from, to, start, history[n], []) && Spares(server, from, to, history[n], now, [])
  }

  lemma SparesFirst(server: GlueServer, from: nat, to: nat, start: Partitions, now: Partitions, before: seq<Partitions>)
    requires Spares(server, from, to, start, now, [])
    ensures SparesAll(server, from, to, start, now, before + [now], |before|)
    ensures SparesAll(server, from, from, start, start, before, |before|)
  {
  }

  lemma SparesAllNext(server: GlueServer, from: nat, middle: nat, to: nat, start: Partitions, was: Partitions, now: Partitions,
                      before: seq<Partitions>, history: seq<Partitions>, since: nat)
    requires from <= middle <= to && since <= |before| && before <= history
    requires Spares(server, from, middle, start, was, []) && Spares(server, middle, to, was, now, [])
    requires SparesAll(server, from, middle, start, was, before, since)
    requires SparesAll(server, middle, to, was, now, history, |before|)
    ensures SparesAll(server, from, to, start, now, history, since)
  {
    hide Spares;
    forall n | since <= n < |history|
      ensures Spares(server, from, to, start, history[n], []) && Spares(server, from, to, history[n], now, [])
    {
      if n < |before| {
        assert history[n] == before[n];
        SparesWithin(server, from, from, middle, to, start, history[n]);
        SparesMore(server, from, middle, to, history[n], was, now, [], [], []);
      } else {
        SparesMore(server, from, middle, to, start, was, history[n], [], [], []);
        SparesWithin(server, from, middle, to, to, history[n], now);
      }
    }
  }

  lemma SparesWithin(server: GlueServer, from: nat, a: nat, b: nat, to: nat, before: Partitions, after: Partitions)
    requires from <= a <= b <= to && Spares(server, a, b, before, after, [])
    ensures Spares(server, from, to, before, after, [])
  {
  }

  /** One request for the keys left: what it found, and the keys it did not get to. */
  method LookUpOnce(server: GlueServer, ghost batch: seq<Values>, keys: seq<Values>, found: Partitions, ghost since: nat)
    returns (more: Option<Partitions>, left: seq<Values>)
    requires since <= |server.history| && keys != [] && |keys| <= 1000
    requires BatchAnswers(found, batch, keys, server.history, since)
    modifies server`partitions, server`calls, server`history
    ensures old(server.history) <= server.history && server.calls == old(server.calls) + 1
    ensures server.Quiet() ==> Unmoved(old(server.partitions), server.partitions, |old(server.history)|, server.history)
    ensures Spares(server, old(server.calls), server.calls, old(server.partitions), server.partitions, [])
    ensures SparesAll(server, old(server.calls), server.calls, old(server.partitions), server.partitions, server.history, |old(server.history)|)
    ensures if more.None? then Fatal(server.script(old(server.calls))) else BatchAnswers(more.value, batch, left, server.history, since)
    ensures |left| <= |keys| && (more.Some? && |left| == |keys| ==> Faulty(server.script(old(server.calls))))
  {
    hide BatchAnswers;
    ghost var request, before, was := server.calls, server.history, server.partitions;
    var answer, unprocessed := server.BatchGetPartition(keys);
    OthersAct(server, request, was);
    SparesFirst(server, request, server.calls, was, server.partitions, before);
    left := unprocessed;
    if answer.None? {
      return None, left;
    }
    if |unprocessed| == |keys| {
      UnprocessedIsFault(keys, server.script(request));
    }
    BatchStep(found, batch, keys, before, since, answer.value, unprocessed, server.partitions);
    more := Some(answer.value + found);
  }

  /** Only requests that process none of the keys left count as failed attempts. */
  method LookUpBatch(server: GlueServer, batch: seq<Values>) returns (existing: Option<Partitions>)
    requires |batch| <= 1000
    modifies server`partitions, server`calls, server`history
    ensures old(server.history) <= server.history && old(server.calls) <= server.calls
    ensures server.calls <= old(server.calls) + 4 * |batch|
    ensures server.Quiet() ==> Unmoved(old(server.partitions), server.partitions, |old(server.history)|, server.history)
    ensures existing.Some? ==> BatchAnswers(existing.value, batch, [], server.history, |old(server.history)|)
    ensures existing.None? ==> server.Troubled(old(server.calls), server.calls)
    ensures Spares(server, old(server.calls), server.calls, old(server.partitions), server.partitions, [])
    ensures SparesAll(server, old(server.calls), server.calls, old(server.partitions), server.partitions, server.history, |old(server.history)|)
  {
    ghost var from, since, start := server.calls, |server.history|, server.partitions;
    NothingDone(server, from, start, []);
    SparesFirst(server, from, from, start, start, server.history);
    NothingAnswered(batch, server.history);
    hide SparesAll, Spares, BatchAnswers, Faulty, Fatal, Unmoved, AllFaulty, GlueServer.Quiet, GlueServer.Troubled;
    var found: Partitions := map[];
    var keys := batch;
    var attempt := 0;
    QuietSoFar(server, start, server.history);
    while keys != []
      invariant old(server.history) <= server.history && |keys| <= |batch| && attempt <= MAX_ATTEMPTS
      invariant from + attempt <= server.calls <= from + 4 * (|batch| - |keys|) + attempt
      invariant keys == [] ==> attempt == 0
      invariant AllFaulty(server, server.calls - attempt, server.calls)
      invariant BatchAnswers(found, batch, keys, server.history, since)
      invariant server.Quiet() ==> Unmoved(start, server.partitions, since, server.history)
      invariant Spares(server, from, server.calls, start, server.partitions, [])
      invariant SparesAll(server, from, server.calls, start, server.partitions, server.history, since)
      decreases |keys|, MAX_ATTEMPTS - attempt
    {
      if attempt == MAX_ATTEMPTS {
        FourTries(server, from);
        return None;
      }
      ghost var request, before, was := server.calls, server.history, server.partitions;
      var more, left := LookUpOnce(server, batch, keys, found, since);
      SparesAllNext(server, from, request, server.calls, start, was, server.partitions, before, server.history, since);
      SparesMore(server, from, request, server.calls, start, was, server.partitions, [], [], []);
      UnmovedOn(start, was, server.partitions, since, before, server.history);
      if more.None? {
        FatalIsTrouble(server, from, request);
        return None;
      }
      found := more.value;
      FaultyMore(server, request - attempt, request);
      attempt := if |left| < |keys| then 0 else attempt + 1;
      keys := left;
    }
    existing := Some(found);
  }

  ghost predicate AllFaulty(server: GlueServer, from: nat, to: nat) {
    forall n | from <= n < to :: Faulty(server.script(n))
  }

  lemma FaultyMore(server: GlueServer, from: nat, to: nat)
    requires AllFaulty(server, from, to)
    ensures Faulty(server.script(to)) ==> AllFaulty(server, from, to + 1)
    ensures AllFaulty(server, to + 1, to + 1)
  {
  }

  lemma QuietSoFar(server: GlueServer, now: Partitions, history: seq<Partitions>)
    ensures Unmoved(now, now, |history|, history) && AllFaulty(server, server.calls, server.calls)
  {
  }

  lemma UnmovedOn(start: Partitions, was: Partitions, now: Partitions, since: nat, before: seq<Partitions>, history: seq<Partitions>)
    requires since <= |before| && before <= history
    ensures Unmoved(start, was, since, before) && Unmoved(was, now, |before|, history) ==> Unmoved(start, now, since, history)
  {
  }

  lemma FourTries(server: GlueServer, from: nat)
    requires from + 4 <= server.calls && AllFaulty(server, server.calls - 4, server.calls)
    ensures server.Troubled(from, server.calls)
  {
    assert server.FourFaulty(server.calls - 4);
  }

  lemma FatalIsTrouble(server: GlueServer, from: nat, request: nat)
    requires from <= request < server.calls && Fatal(server.script(request))
    ensures server.Troubled(from, server.calls)
  {
  }

  lemma Combined(found: Partitions, answer: Partitions, partitions: seq<Values>, offset: nat, end: nat,
                 before: seq<Partitions>, history: seq<Partitions>, since: nat, sinceBatch: nat)
    requires offset <= end <= |partitions| && before <= history && since <= sinceBatch
    requires Answers(found, partitions[..offset], before, since) && forall k | k in found :: k in partitions[..offset]
    requires BatchAnswers(answer, partitions[offset..end], [], history, sinceBatch)
    ensures Answers(answer + found, partitions[..end], history, since)
    ensures forall k | k in answer + found :: k in partitions[..end]
  {
    var keys, all := partitions[offset..end], partitions[..end];
    assert all == partitions[..offset] + keys;
    forall k | 0 <= k < |all|
      ensures Seen(history, since, all[k], Found(answer + found, all[k]))
    {
      var key := all[k];
      if key in found {
        var m :| 0 <= m < offset && partitions[..offset][m] == key;
        SeenLater(before, history, since, since, key, Found(found, key));
      } else if key in keys {
        SeenLater(history, history, sinceBatch, since, key, Found(answer, key));
      } else {
        assert key in partitions[..offset];
        var m :| 0 <= m < offset && partitions[..offset][m] == key;
        SeenLater(before, history, since, since, key, Found(found, key));
      }
    }
  }

  method PartitionLocations(server: GlueServer, partitions: seq<Values>) returns (existing: Option<Partitions>)
    modifies server`partitions, server`calls, server`history
    ensures old(server.history) <= server.history && old(server.calls) <= server.calls
    ensures server.calls <= old(server.calls) + 4 * |partitions|
    ensures server.Quiet() ==> Unmoved(old(server.partitions), server.partitions, |old(server.history)|, server.history)
    ensures existing.Some? ==> Answers(existing.value, partitions, server.history, |old(server.history)|)
    ensures existing.Some? ==> forall k | k in existing.value :: k in partitions
    ensures existing.None? ==> server.Troubled(old(server.calls), server.calls)
    ensures Spares(server, old(server.calls), server.calls, old(server.partitions), server.partitions, [])
    ensures SparesAll(server, old(server.calls), server.calls, old(server.partitions), server.partitions, server.history, |old(server.history)|)
  {
    NothingDone(server, server.calls, server.partitions, []);
    SparesFirst(server, server.calls, server.calls, server.partitions, server.partitions, server.history);
    hide Spares, SparesAll;
    var found: Partitions := map[];
    var offset := 0;
    while offset < |partitions|
      invariant offset <= |partitions| && old(server.history) <= server.history && old(server.calls) <= server.calls
      invariant server.calls <= old(server.calls) + 4 * offset
      invariant server.Quiet() ==> Unmoved(old(server.partitions), server.partitions, |old(server.history)|, server.history)
      invariant Answers(found, partitions[..offset], server.history, |old(server.history)|)
      invariant forall k | k in found :: k in partitions[..offset]
      invariant Spares(server, old(server.calls), server.calls, old(server.partitions), server.partitions, [])
      invariant SparesAll(server, old(server.calls), server.calls, old(server.partitions), server.partitions, server.history, |old(server.history)|)
    {
      var end := if offset + GET_BATCH < |partitions| then offset + GET_BATCH else |partitions|;
      var keys := partitions[offset..end];
      ghost var before, middle, was := server.history, server.calls, server.partitions;
      var batch := LookUpBatch(server, keys);
      SparesAllNext(server, old(server.calls), middle, server.calls, old(server.partitions), was, server.partitions, before,
                    server.history, |old(server.history)|);
      SparesMore(server, old(server.calls), middle, server.calls, old(server.partitions), was, server.partitions, [], [], []);
      if batch.None? {
        TroubledWithin(server, old(server.calls), middle, server.calls, server.calls);
        return None;
      }
      Combined(found, batch.value, partitions, offset, end, before, server.history, |old(server.history)|, |before|);
      found := batch.value + found;
      offset := end;
    }
    assert partitions[..|partitions|] == partitions;
    existing := Some(found);
  }

  /** Without other writers the lookup is Glue's map on the keys. */
  lemma LookupIsExact(existing: Partitions, keys: seq<Values>, history: seq<Partitions>, since: nat, partitions: Partitions)
    requires Answers(existing, keys, history, since) && forall k | k in existing :: k in keys
    requires forall n | since <= n < |history| :: history[n] == partitions
    ensures existing == map k | k in keys && k in partitions :: partitions[k]
  {
    forall k | k in keys
      ensures Found(existing, k) == Found(partitions, k)
    {
      var m :| 0 <= m < |keys| && keys[m] == k;
      assert Seen(history, since, keys[m], Found(existing, keys[m]));
    }
    forall k | k in existing
      ensures k in partitions && existing[k] == partitions[k]
    {
      assert Found(existing, k) == Found(partitions, k);
    }
    forall k | k in keys && k in partitions
      ensures k in existing
    {
      assert Found(existing, k) == Found(partitions, k);
    }
  }

  // Deleting.

  /** The partition is gone, unless another client added it since. */
  ghost predicate Gone(server: GlueServer, from: nat, to: nat, now: Partitions, v: Values) {
    v in now ==> server.AddedBetween(from, to, v)
  }

  ghost predicate AllGone(server: GlueServer, from: nat, to: nat, now: Partitions, named: seq<Values>) {
    forall v | v in named :: Gone(server, from, to, now, v)
  }

  /** What was gone stays gone while another batch is deleted. */
  lemma GoneStays(server: GlueServer, from: nat, middle: nat, to: nat, before: Partitions, now: Partitions, named: seq<Values>,
                  batch: seq<Values>)
    requires from <= middle <= to && AllGone(server, from, middle, before, named)
    requires Spares(server, middle, to, before, now, batch)
    ensures AllGone(server, from, to, now, named)
  {
    Within(server, from, middle, to);
  }

  lemma GoneWithin(server: GlueServer, from: nat, middle: nat, to: nat, now: Partitions, named: seq<Values>)
    requires from <= middle <= to && AllGone(server, middle, to, now, named)
    ensures AllGone(server, from, to, now, named)
  {
    Within(server, from, middle, to);
  }

  lemma GoneJoined(server: GlueServer, from: nat, to: nat, now: Partitions, partitions: seq<Values>, offset: nat, end: nat)
    requires offset <= end <= |partitions| && AllGone(server, from, to, now, partitions[..offset])
    requires AllGone(server, from, to, now, partitions[offset..end])
    ensures AllGone(server, from, to, now, partitions[..end])
  {
    assert partitions[..end] == partitions[..offset] + partitions[offset..end];
  }

  /** Partitions not named are left alone, and none appears, except by others. */
  ghost predicate Spares(server: GlueServer, from: nat, to: nat, before: Partitions, after: Partitions, named: seq<Values>) {
    && (forall v | v in before && v !in named ::
         (v in after && after[v] == before[v]) || server.RemovedBetween(from, to, v))
    && (forall v | v in after :: (v in before && after[v] == before[v]) || server.AddedBetween(from, to, v))
  }

  lemma OthersAct(server: GlueServer, request: nat, before: Partitions)
    ensures Spares(server, request, request + 1, before, AfterOthers(before, server.script(request)), [])
  {
  }

  lemma NothingDone(server: GlueServer, from: nat, now: Partitions, named: seq<Values>)
    ensures Spares(server, from, from, now, now, named)
  {
  }

  lemma SparesMore(server: GlueServer, from: nat, middle: nat, to: nat, a: Partitions, b: Partitions, c: Partitions,
                   first: seq<Values>, second: seq<Values>, all: seq<Values>)
    requires from <= middle <= to && Spares(server, from, middle, a, b, first) && Spares(server, middle, to, b, c, second)
    requires (forall v | v in first :: v in all) && forall v | v in second :: v in all
    ensures Spares(server, from, to, a, c, all)
  {
    Within(server, from, middle, to);
  }

  /** The request's errors were a reason to stop. */
  ghost predicate Gave(turn: Turn, last: bool) {
    Fatal(turn) || (last && Faulty(turn))
  }

  /** One request; what is left to be sent again. */
  method SendDeletes(server: GlueServer, keys: seq<Values>, last: bool) returns (ok: bool, again: seq<Values>)
    requires server.Valid() && |keys| <= 25
    modifies server`partitions, server`calls, server`history
    ensures server.calls == old(server.calls) + 1
    ensures ok ==> forall v :: v in again ==> v in keys
    ensures ok && last ==> again == []
    ensures ok ==> forall v | v in keys && v !in again :: v !in server.partitions
    ensures forall v | v in server.partitions :: v in old(server.partitions) || v in server.script(old(server.calls)).added
    ensures |again| <= |keys|
    ensures Spares(server, old(server.calls), server.calls, old(server.partitions), server.partitions, keys)
    ensures !ok ==> Gave(server.script(old(server.calls)), last)
    ensures ok && again != [] ==> Faulty(server.script(old(server.calls)))
  {
    ghost var turn := server.script(server.calls);
    ghost var before := AfterOthers(server.partitions, turn);
    var answer := server.BatchDeletePartition(keys);
    DeleteAllMeans(before, keys, turn.verdict);
    DeleteErrors(before, keys, turn.verdict);
    assert Honest(turn);
    again := [];
    if answer.None? {
      return false, again;
    }
    var errors := answer.value;
    for k := 0 to |errors|
      invariant |again| <= k && (forall v | v in again :: v in keys) && (last ==> again == [])
      invariant forall m | 0 <= m < k && errors[m].code != NOT_FOUND :: errors[m].values in again
      invariant again != [] ==> Faulty(turn)
    {
      var error := errors[k];
      assert error in errors;
      if error.code != NOT_FOUND {
        if !IsTransientPartitionError(error.code) || last {
          return false, again;
        }
        again := again + [error.values];
      }
    }
    ok := true;
  }

  lemma StoppedAfter(server: GlueServer, from: nat, request: nat)
    requires from <= request < from + 4 && Gave(server.script(request), request + 1 == from + 4)
    requires forall n | from <= n < request :: Faulty(server.script(n))
    ensures server.Troubled(from, request + 1)
  {
    assert request + 1 == from + 4 && !Fatal(server.script(request)) ==> server.FourFaulty(from);
  }

  method DeleteBatch(server: GlueServer, batch: seq<Values>) returns (ok: bool)
    requires server.Valid() && |batch| <= 25
    modifies server`partitions, server`calls, server`history
    ensures server.calls <= old(server.calls) + MAX_ATTEMPTS && server.calls >= old(server.calls)
    ensures ok ==> AllGone(server, old(server.calls), server.calls, server.partitions, batch)
    ensures Spares(server, old(server.calls), server.calls, old(server.partitions), server.partitions, batch)
    ensures !ok ==> server.Troubled(old(server.calls), server.calls)
  {
    var pending := batch;
    var attempt := 0;
    ghost var from, gone := server.calls, [];
    NothingDone(server, from, server.partitions, batch);
    hide Spares, AllGone;
    NoneGone(server, from, server.partitions);
    while pending != []
      invariant attempt <= MAX_ATTEMPTS && (pending != [] ==> attempt < MAX_ATTEMPTS)
      invariant server.calls == from + attempt && |pending| <= |batch| && forall v | v in pending :: v in batch
      invariant pending != [] ==> forall n | from <= n < server.calls :: Faulty(server.script(n))
      invariant AllGone(server, from, server.calls, server.partitions, gone) && forall v | v in batch :: v in pending || v in gone
      invariant Spares(server, from, server.calls, old(server.partitions), server.partitions, batch)
      decreases MAX_ATTEMPTS - attempt
    {
      ghost var middle, before := server.calls, server.partitions;
      var again;
      ok, again := SendDeletes(server, pending, attempt + 1 == MAX_ATTEMPTS);
      SparesMore(server, from, middle, server.calls, old(server.partitions), before, server.partitions, batch, pending, batch);
      if !ok {
        StoppedAfter(server, from, middle);
        return;
      }
      GoneStays(server, from, middle, server.calls, before, server.partitions, gone, pending);
      gone := GoneMore(server, from, server.calls, server.partitions, gone, pending, again);
      pending := again;
      attempt := attempt + 1;
    }
    ok := true;
    AllOf(server, from, server.calls, server.partitions, gone, batch);
  }

  lemma NoneGone(server: GlueServer, from: nat, now: Partitions)
    ensures AllGone(server, from, from, now, [])
  {
  }

  lemma AllOf(server: GlueServer, from: nat, to: nat, now: Partitions, gone: seq<Values>, batch: seq<Values>)
    requires AllGone(server, from, to, now, gone) && forall v | v in batch :: v in gone
    ensures AllGone(server, from, to, now, batch)
  {
  }

  lemma {:induction false} GoneMore(server: GlueServer, from: nat, to: nat, now: Partitions, gone: seq<Values>, pending: seq<Values>,
                                    again: seq<Values>)
    returns (more: seq<Values>)
    requires AllGone(server, from, to, now, gone) && forall v | v in pending && v !in again :: v !in now
    ensures AllGone(server, from, to, now, more)
    ensures (forall v | v in gone :: v in more) && forall v | v in pending :: v in again || v in more
  {
    if pending == [] {
      more := gone;
    } else {
      more := GoneMore(server, from, to, now, gone, pending[1..], again);
      if pending[0] !in again {
        more := more + [pending[0]];
      }
    }
  }

  lemma Within(server: GlueServer, from: nat, middle: nat, to: nat)
    requires from <= middle <= to
    ensures forall v: Values | server.AddedBetween(from, middle, v) || server.AddedBetween(middle, to, v) ::
              server.AddedBetween(from, to, v)
    ensures forall v: Values | server.RemovedBetween(from, middle, v) || server.RemovedBetween(middle, to, v) ::
              server.RemovedBetween(from, to, v)
  {
  }

  /** On normal return every partition to delete is gone, with at most four requests for each 25. */
  method BatchDeletePartitions(server: GlueServer, partitions: seq<Values>) returns (ok: bool)
    requires server.Valid()
    modifies server`partitions, server`calls, server`history
    ensures old(server.calls) <= server.calls
    ensures server.calls <= old(server.calls) + 4 * ((|partitions| + 24) / 25)
    ensures !ok ==> server.Troubled(old(server.calls), server.calls)
    ensures ok ==> AllGone(server, old(server.calls), server.calls, server.partitions, partitions)
    ensures Spares(server, old(server.calls), server.calls, old(server.partitions), server.partitions, partitions)
  {
    ghost var from := server.calls;
    var offset := 0;
    ghost var batches := 0;
    NothingDone(server, from, server.partitions, partitions);
    NoneGone(server, from, server.partitions);
    hide Spares, AllGone;
    while offset < |partitions|
      invariant offset <= |partitions| && offset <= DELETE_BATCH * batches
      invariant offset < |partitions| ==> offset == DELETE_BATCH * batches
      invariant DELETE_BATCH * batches < |partitions| + DELETE_BATCH
      invariant from <= server.calls <= from + MAX_ATTEMPTS * batches
      invariant AllGone(server, from, server.calls, server.partitions, partitions[..offset])
      invariant Spares(server, from, server.calls, old(server.partitions), server.partitions, partitions)
    {
      var end := if offset + DELETE_BATCH < |partitions| then offset + DELETE_BATCH else |partitions|;
      var batch := partitions[offset..end];
      ghost var middle, before := server.calls, server.partitions;
      ok := DeleteBatch(server, batch);
      SparesMore(server, from, middle, server.calls, old(server.partitions), before, server.partitions, partitions, batch, partitions);
      batches := batches + 1;
      if !ok {
        BatchesBound(|partitions|, DELETE_BATCH, batches);
        TroubledWithin(server, from, middle, server.calls, server.calls);
        return;
      }
      GoneStays(server, from, middle, server.calls, before, server.partitions, partitions[..offset], batch);
      GoneWithin(server, from, middle, server.calls, server.partitions, batch);
      GoneJoined(server, from, server.calls, server.partitions, partitions, offset, end);
      offset := end;
    }
    BatchesBound(|partitions|, DELETE_BATCH, batches);
    assert partitions[..|partitions|] == partitions;
    ok := true;
  }

  lemma BatchesBound(n: nat, size: nat, batches: nat)
    requires size > 0 && size * batches < n + size
    ensures batches <= (n + size - 1) / size
  {
    var q := (n + size - 1) / size;
    assert size * (q + 1) == size * q + size;
    if q + 1 <= batches {
      Multiples(size, q + 1, batches);
    }
  }

  lemma {:induction false} Multiples(size: nat, a: nat, b: nat)
    requires a <= b
    ensures size * a <= size * b
    decreases b - a
  {
    if a < b {
      Multiples(size, a, b - 1);
      assert size * b == size * (b - 1) + size;
    }
  }

  // Creating.

  /** The partition is in Glue, unless another client removed it before one of the requests of this stretch. */
  ghost predicate Present(server: GlueServer, from: nat, to: nat, now: Partitions, v: Values) {
    v in now || server.RemovedBetween(from, to, v)
  }

  /** ... as this client asked for it. */
  ghost predicate Ours(server: GlueServer, from: nat, to: nat, now: Partitions, input: PartitionInput) {
    (input.values in now && now[input.values] == input.location) || server.RemovedBetween(from, to, input.values)
  }

  predicate Indexes(pending: seq<nat>, partitions: seq<PartitionInput>) {
    forall k | 0 <= k < |pending| :: pending[k] < |partitions|
  }

  function InputsOf(pending: seq<nat>, partitions: seq<PartitionInput>): (r: seq<PartitionInput>)
    requires Indexes(pending, partitions)
    ensures |r| == |pending| && forall k | 0 <= k < |r| :: r[k] == partitions[pending[k]]
  {
    seq(|pending|, k requires 0 <= k < |pending| => partitions[pending[k]])
  }

  /** The first index sent with each values. */
  method SentIndexes(pending: seq<nat>, partitions: seq<PartitionInput>) returns (sent: map<Values, nat>)
    requires Indexes(pending, partitions)
    ensures forall v | v in sent :: sent[v] in pending && partitions[sent[v]].values == v
    ensures forall k | 0 <= k < |pending| :: partitions[pending[k]].values in sent
    ensures forall k | 0 <= k < |pending| && (forall m | 0 <= m < k :: partitions[pending[m]].values != partitions[pending[k]].values) ::
              sent[partitions[pending[k]].values] == pending[k]
  {
    sent := map[];
    for k := 0 to |pending|
      invariant forall v | v in sent :: exists m | 0 <= m < k :: partitions[pending[m]].values == v
      invariant forall n | 0 <= n < k && (forall m | 0 <= m < n :: partitions[pending[m]].values != partitions[pending[n]].values) ::
                  partitions[pending[n]].values in sent && sent[partitions[pending[n]].values] == pending[n]
      invariant forall v | v in sent :: sent[v] in pending && sent[v] < |partitions| && partitions[sent[v]].values == v
      invariant forall m | 0 <= m < k :: partitions[pending[m]].values in sent
    {
      var values := partitions[pending[k]].values;
      if values !in sent {
        sent := sent[values := pending[k]];
      }
    }
  }

  /** Some index in the list has these values. */
  predicate Among(v: Values, indexes: seq<nat>, partitions: seq<PartitionInput>) {
    exists k | 0 <= k < |indexes| :: indexes[k] < |partitions| && partitions[indexes[k]].values == v
  }

  predicate ErrorsDiffer(errors: seq<PartitionError>) {
    forall i, j | 0 <= i < j < |errors| :: errors[i].values != errors[j].values
  }

  predicate Unrepeated(s: seq<nat>) {
    forall i, j | 0 <= i < j < |s| :: s[i] != s[j]
  }

  /** The index comes from an error before n that says the partition is there, or that it is not. */
  ghost predicate FromError(errors: seq<PartitionError>, n: nat, sent: map<Values, nat>, x: nat, there: bool) {
    exists m | 0 <= m < n <= |errors| :: errors[m].values in sent && sent[errors[m].values] == x && (errors[m].code == ALREADY_EXISTS) == there
  }

  /** One list of indexes, of the errors that say the one or the other. */
  ghost predicate SortedInto(errors: seq<PartitionError>, n: nat, sent: map<Values, nat>, list: seq<nat>, there: bool)
    requires n <= |errors|
  {
    && (forall k | 0 <= k < n && (errors[k].code == ALREADY_EXISTS) == there :: errors[k].values in sent && sent[errors[k].values] in list)
    && (forall x | x in list :: FromError(errors, n, sent, x, there))
    && (ErrorsDiffer(errors) ==> Unrepeated(list))
  }

  /** The first n errors of a response sorted into what is sent again and what was there already. */
  ghost predicate Sorted(errors: seq<PartitionError>, n: nat, sent: map<Values, nat>, again: seq<nat>, existing: seq<nat>)
    requires n <= |errors|
  {
    SortedInto(errors, n, sent, again, false) && SortedInto(errors, n, sent, existing, true)
  }

  lemma SortedNext(errors: seq<PartitionError>, n: nat, sent: map<Values, nat>, list: seq<nat>, there: bool,
                   partitions: seq<PartitionInput>)
    requires n < |errors| && SortedInto(errors, n, sent, list, there) && errors[n].values in sent
    requires forall v | v in sent :: sent[v] < |partitions| && partitions[sent[v]].values == v
    ensures SortedInto(errors, n + 1, sent,
              if (errors[n].code == ALREADY_EXISTS) == there then list + [sent[errors[n].values]] else list, there)
  {
    var index := sent[errors[n].values];
    forall x | x in list
      ensures FromError(errors, n + 1, sent, x, there) && (ErrorsDiffer(errors) ==> x != index)
    {
      FromErrorGrows(errors, n, sent, partitions, x, there);
    }
    if (errors[n].code == ALREADY_EXISTS) == there {
      assert FromError(errors, n + 1, sent, index, there);
      hide FromError, ErrorsDiffer;
      var grown := list + [index];
      assert grown[|list|] == index && forall j | 0 <= j < |list| :: grown[j] == list[j] && list[j] in list;
      assert forall x | x in list :: x in grown;
    }
  }

  lemma FromErrorGrows(errors: seq<PartitionError>, n: nat, sent: map<Values, nat>, partitions: seq<PartitionInput>, x: nat, there: bool)
    requires n < |errors| && FromError(errors, n, sent, x, there) && errors[n].values in sent
    requires forall v | v in sent :: sent[v] < |partitions| && partitions[sent[v]].values == v
    ensures FromError(errors, n + 1, sent, x, there)
    ensures ErrorsDiffer(errors) ==> x != sent[errors[n].values]
  {
    var m :| 0 <= m < n && errors[m].values in sent && sent[errors[m].values] == x && (errors[m].code == ALREADY_EXISTS) == there;
    assert ErrorsDiffer(errors) ==> errors[m].values != errors[n].values;
  }

  lemma SortedBoth(errors: seq<PartitionError>, n: nat, sent: map<Values, nat>, again: seq<nat>, existing: seq<nat>,
                   partitions: seq<PartitionInput>)
    requires n < |errors| && Sorted(errors, n, sent, again, existing) && errors[n].values in sent
    requires Indexes(again, partitions) && Indexes(existing, partitions)
    requires forall v | v in sent :: sent[v] < |partitions| && partitions[sent[v]].values == v
    ensures var index := sent[errors[n].values]; Indexes(again + [index], partitions) && Indexes(existing + [index], partitions)
    ensures var index := sent[errors[n].values];
            if errors[n].code == ALREADY_EXISTS then Sorted(errors, n + 1, sent, again, existing + [index])
            else Sorted(errors, n + 1, sent, again + [index], existing)
  {
    hide SortedInto;
    SortedNext(errors, n, sent, again, false, partitions);
    SortedNext(errors, n, sent, existing, true, partitions);
  }

  lemma NothingSorted(errors: seq<PartitionError>, sent: map<Values, nat>, partitions: seq<PartitionInput>)
    ensures Sorted(errors, 0, sent, [], []) && Indexes([], partitions)
  {
  }

  /** An error that ends the statement. */
  predicate Stops(e: PartitionError, sent: map<Values, nat>, last: bool) {
    e.values !in sent || (e.code != ALREADY_EXISTS && (last || !IsTransientPartitionError(e.code)))
  }

  predicate SomeStops(errors: seq<PartitionError>, sent: map<Values, nat>, last: bool) {
    exists e :: e in errors && Stops(e, sent, last)
  }

  /** Some error is not that the partition exists. */
  predicate SomeOther(errors: seq<PartitionError>) {
    exists e :: e in errors && e.code != ALREADY_EXISTS
  }

  lemma ErrorAt(errors: seq<PartitionError>, k: nat, sent: map<Values, nat>, last: bool)
    requires k < |errors|
    ensures Stops(errors[k], sent, last) ==> SomeStops(errors, sent, last)
    ensures errors[k].code != ALREADY_EXISTS ==> SomeOther(errors)
  {
  }

  method SortErrors(errors: seq<PartitionError>, sent: map<Values, nat>, partitions: seq<PartitionInput>, last: bool)
    returns (ok: bool, again: seq<nat>, existing: seq<nat>)
    requires forall v | v in sent :: sent[v] < |partitions| && partitions[sent[v]].values == v
    ensures Indexes(again, partitions) && Indexes(existing, partitions) && (last ==> again == []) && |again| <= |errors|
    ensures ok ==> Sorted(errors, |errors|, sent, again, existing)
    ensures !ok ==> SomeStops(errors, sent, last)
    ensures ok && again != [] ==> SomeOther(errors)
  {
    hide Sorted, SortedInto, Indexes, IsTransientPartitionError, SomeStops, SomeOther;
    again, existing := [], [];
    NothingSorted(errors, sent, partitions);
    for k := 0 to |errors|
      invariant Indexes(again, partitions) && Indexes(existing, partitions) && (last ==> again == [])
      invariant Sorted(errors, k, sent, again, existing) && |again| <= k
      invariant again != [] ==> SomeOther(errors)
    {
      var error := errors[k];
      ErrorAt(errors, k, sent, last);
      if error.values !in sent {
        return false, again, existing;
      }
      SortedBoth(errors, k, sent, again, existing, partitions);
      var index := sent[error.values];
      if error.code == ALREADY_EXISTS {
        existing := existing + [index];
      } else if !IsTransientPartitionError(error.code) || last {
        return false, again, existing;
      } else {
        again := again + [index];
      }
    }
    ok := true;
  }

  /** What one request did with the partitions sent, the map of Glue before and after it. */
  ghost predicate Sent(partitions: seq<PartitionInput>, pending: seq<nat>, again: seq<nat>, existing: seq<nat>, after: Partitions) {
    && Indexes(pending, partitions) && Indexes(again, partitions) && Indexes(existing, partitions)
    && (forall x | x in again :: x in pending) && (forall x | x in existing :: x in pending)
    && (forall k | 0 <= k < |pending| :: partitions[pending[k]].values in after || Among(partitions[pending[k]].values, again, partitions))
    && (DistinctInputs(partitions) && Unrepeated(pending) ==>
         && Unrepeated(existing) && Unrepeated(again) && (forall x | x in existing :: x !in again)
         && (forall x | x in pending && x !in again && x !in existing ::
               partitions[x].values in after && after[partitions[x].values] == partitions[x].location))
  }

  lemma SentPresent(partitions: seq<PartitionInput>, pending: seq<nat>, sent: map<Values, nat>, before: Partitions, turn: Turn,
                    again: seq<nat>, existing: seq<nat>, k: nat)
    requires Indexes(pending, partitions) && Indexes(again, partitions) && Honest(turn) && k < |pending|
    requires forall v | v in sent :: sent[v] in pending && partitions[sent[v]].values == v
    requires var errors := CreateAll(before, InputsOf(pending, partitions), turn.verdict).1;
             Sorted(errors, |errors|, sent, again, existing)
    ensures var v := partitions[pending[k]].values;
            v in CreateAll(before, InputsOf(pending, partitions), turn.verdict).0 || Among(v, again, partitions)
  {
    var inputs := InputsOf(pending, partitions);
    var (after, errors) := CreateAll(before, inputs, turn.verdict);
    CreateAllMeans(before, inputs, turn.verdict);
    var v := inputs[k].values;
    if v !in after {
      var e := PartitionError(v, turn.verdict(v).code);
      var m :| 0 <= m < |errors| && errors[m] == e;
      var j :| 0 <= j < |again| && again[j] == sent[v];
    }
  }

  lemma SentDisjoint(partitions: seq<PartitionInput>, sent: map<Values, nat>, errors: seq<PartitionError>, again: seq<nat>,
                     existing: seq<nat>, x: nat)
    requires forall v | v in sent :: sent[v] < |partitions| && partitions[sent[v]].values == v
    requires Sorted(errors, |errors|, sent, again, existing) && ErrorsDiffer(errors) && x in existing
    ensures x !in again
  {
    var m :| 0 <= m < |errors| && errors[m].values in sent && sent[errors[m].values] == x && errors[m].code == ALREADY_EXISTS;
    assert forall n | 0 <= n < |errors| && n != m :: errors[n].values != errors[m].values;
  }

  lemma SentOurs(partitions: seq<PartitionInput>, pending: seq<nat>, sent: map<Values, nat>, before: Partitions, turn: Turn,
                 again: seq<nat>, existing: seq<nat>, x: nat)
    requires Indexes(pending, partitions) && DistinctInputs(partitions) && Unrepeated(pending)
    requires forall v | v in sent :: sent[v] in pending && partitions[sent[v]].values == v
    requires forall k | 0 <= k < |pending| :: partitions[pending[k]].values in sent
    requires var errors := CreateAll(before, InputsOf(pending, partitions), turn.verdict).1;
             Sorted(errors, |errors|, sent, again, existing)
    requires x in pending && x !in again && x !in existing
    ensures var after := CreateAll(before, InputsOf(pending, partitions), turn.verdict).0;
            partitions[x].values in after && after[partitions[x].values] == partitions[x].location
  {
    var inputs := InputsOf(pending, partitions);
    var errors := CreateAll(before, inputs, turn.verdict).1;
    var k :| 0 <= k < |pending| && pending[k] == x;
    DistinctPending(partitions, pending);
    DistinctCreated(before, inputs, turn.verdict, k);
    SentIsOwn(partitions, pending, sent, x);
  }

  lemma SentMeans(partitions: seq<PartitionInput>, pending: seq<nat>, sent: map<Values, nat>, before: Partitions, turn: Turn,
                  again: seq<nat>, existing: seq<nat>)
    requires Indexes(pending, partitions) && Indexes(again, partitions) && Indexes(existing, partitions) && Honest(turn)
    requires forall v | v in sent :: sent[v] in pending && partitions[sent[v]].values == v
    requires forall k | 0 <= k < |pending| :: partitions[pending[k]].values in sent
    requires var errors := CreateAll(before, InputsOf(pending, partitions), turn.verdict).1;
             Sorted(errors, |errors|, sent, again, existing)
    ensures Sent(partitions, pending, again, existing, CreateAll(before, InputsOf(pending, partitions), turn.verdict).0)
  {
    hide Among, CreateAll;
    var inputs := InputsOf(pending, partitions);
    var errors := CreateAll(before, inputs, turn.verdict).1;
    forall k | 0 <= k < |pending|
      ensures partitions[pending[k]].values in CreateAll(before, inputs, turn.verdict).0 ||
              Among(partitions[pending[k]].values, again, partitions)
    {
      SentPresent(partitions, pending, sent, before, turn, again, existing, k);
    }
    if DistinctInputs(partitions) && Unrepeated(pending) {
      DistinctPending(partitions, pending);
      DistinctErrors(before, inputs, turn.verdict);
      assert ErrorsDiffer(errors);
      forall x | x in existing
        ensures x !in again
      {
        SentDisjoint(partitions, sent, errors, again, existing, x);
      }
      forall x | x in pending && x !in again && x !in existing
        ensures var after := CreateAll(before, inputs, turn.verdict).0;
                partitions[x].values in after && after[partitions[x].values] == partitions[x].location
      {
        SentOurs(partitions, pending, sent, before, turn, again, existing, x);
      }
    }
  }

  /** With distinct inputs the index sent with a partition's values is its own. */
  lemma SentIsOwn(partitions: seq<PartitionInput>, pending: seq<nat>, sent: map<Values, nat>, x: nat)
    requires Indexes(pending, partitions) && DistinctInputs(partitions) && x in pending
    requires forall v | v in sent :: sent[v] in pending && partitions[sent[v]].values == v
    requires partitions[x].values in sent
    ensures sent[partitions[x].values] == x
  {
    var y := sent[partitions[x].values];
  }

  lemma DistinctPending(partitions: seq<PartitionInput>, pending: seq<nat>)
    requires Indexes(pending, partitions) && DistinctInputs(partitions) && Unrepeated(pending)
    ensures DistinctInputs(InputsOf(pending, partitions))
  {
    forall i, j | 0 <= i < j < |pending|
      ensures partitions[pending[i]].values != partitions[pending[j]].values
    {
      var a, b := pending[i], pending[j];
      assert a != b;
    }
  }

  /** Glue had the partition at one of the requests, before it acted. */
  ghost predicate WasThere(history: seq<Partitions>, since: nat, v: Values) {
    exists n :: since <= n < |history| && v in history[n]
  }

  ghost predicate Reports(history: seq<Partitions>, since: nat, partitions: seq<PartitionInput>, existing: seq<nat>) {
    forall x | x in existing && x < |partitions| :: WasThere(history, since, partitions[x].values)
  }

  lemma ReportsBoth(before: seq<Partitions>, history: seq<Partitions>, since: nat, middle: nat, partitions: seq<PartitionInput>,
                    existing: seq<nat>, more: seq<nat>)
    requires before <= history && since <= middle
    requires Reports(before, since, partitions, existing) && Reports(history, middle, partitions, more)
    ensures Reports(history, since, partitions, existing + more)
  {
    forall x | x in existing && x < |partitions|
      ensures WasThere(history, since, partitions[x].values)
    {
      var n :| since <= n < |before| && partitions[x].values in before[n];
      assert partitions[x].values in history[n];
    }
  }

  /** One request. */
  method SendCreates(server: GlueServer, partitions: seq<PartitionInput>, pending: seq<nat>, last: bool)
    returns (ok: bool, again: seq<nat>, existing: seq<nat>)
    requires server.Valid() && Indexes(pending, partitions) && |pending| <= 100
    modifies server`partitions, server`calls, server`history
    ensures server.calls == old(server.calls) + 1 && old(server.history) <= server.history && |again| <= |pending|
    ensures ok ==> Sent(partitions, pending, again, existing, server.partitions) && (last ==> again == [])
    ensures Survives(server, old(server.calls), server.calls, old(server.partitions), server.partitions, partitions)
    ensures !ok ==> Gave(server.script(old(server.calls)), last)
    ensures ok && again != [] ==> Faulty(server.script(old(server.calls)))
    ensures ok && DistinctInputs(partitions) && Unrepeated(pending) ==>
              Reports(server.history, |old(server.history)|, partitions, existing)
  {
    hide Sent, Sorted, CreateAll, Survives, Honest, Gave, Reports;
    var sent := SentIndexes(pending, partitions);
    var inputs := InputsOf(pending, partitions);
    ghost var request, before := server.calls, server.partitions;
    var answer := server.BatchCreatePartition(inputs);
    OneRequest(server, request, before, partitions, pending);
    if answer.None? {
      return false, [], [];
    }
    ok, again, existing := SortErrors(answer.value, sent, partitions, last);
    ghost var turn := server.script(request);
    if ok {
      SentMeans(partitions, pending, sent, AfterOthers(before, turn), turn, again, existing);
      SentReports(partitions, pending, sent, AfterOthers(before, turn), turn, again, existing, server.history, |old(server.history)|);
    }
    ErrorsAreFaults(AfterOthers(before, turn), partitions, pending, turn, sent, answer.value, last);
  }

  /** With distinct inputs a partition reported as existing was there before the request acted. */
  lemma SentReports(partitions: seq<PartitionInput>, pending: seq<nat>, sent: map<Values, nat>, before: Partitions, turn: Turn,
                    again: seq<nat>, existing: seq<nat>, history: seq<Partitions>, since: nat)
    requires Indexes(pending, partitions) && Honest(turn) && since < |history| && history[since] == before
    requires forall v | v in sent :: sent[v] in pending && partitions[sent[v]].values == v
    requires var errors := CreateAll(before, InputsOf(pending, partitions), turn.verdict).1;
             Sorted(errors, |errors|, sent, again, existing)
    ensures DistinctInputs(partitions) && Unrepeated(pending) ==> Reports(history, since, partitions, existing)
  {
    hide CreateAll, Honest;
    if DistinctInputs(partitions) && Unrepeated(pending) {
      var errors := CreateAll(before, InputsOf(pending, partitions), turn.verdict).1;
      DistinctPending(partitions, pending);
      ExistingWere(before, InputsOf(pending, partitions), turn);
      forall x | x in existing && x < |partitions|
        ensures WasThere(history, since, partitions[x].values)
      {
        assert FromError(errors, |errors|, sent, x, true);
        var m :| 0 <= m < |errors| && errors[m].values in sent && sent[errors[m].values] == x && errors[m].code == ALREADY_EXISTS;
        assert errors[m] in errors && errors[m].values in history[since];
      }
    }
  }

  /** What a request leaves, whatever it answers. */
  lemma OneRequest(server: GlueServer, request: nat, before: Partitions, partitions: seq<PartitionInput>, pending: seq<nat>)
    requires server.Valid() && Indexes(pending, partitions)
    ensures var turn := server.script(request);
            && Honest(turn) && (turn.fails ==> Gave(turn, false) && Gave(turn, true))
            && |CreateAll(AfterOthers(before, turn), InputsOf(pending, partitions), turn.verdict).1| <= |pending|
            && Survives(server, request, request + 1, before, AfterOthers(before, turn), partitions)
            && Survives(server, request, request + 1, before,
                        CreateAll(AfterOthers(before, turn), InputsOf(pending, partitions), turn.verdict).0, partitions)
  {
    hide CreateAll, Honest;
    var turn, inputs := server.script(request), InputsOf(pending, partitions);
    assert Honest(turn);
    CreateAllMeans(AfterOthers(before, turn), inputs, turn.verdict);
    CreateAllAdds(AfterOthers(before, turn), inputs, turn.verdict);
  }

  /** An error that ends the statement, or has a partition sent again, is the request's. */
  lemma ErrorsAreFaults(before: Partitions, partitions: seq<PartitionInput>, pending: seq<nat>, turn: Turn,
                        sent: map<Values, nat>, errors: seq<PartitionError>, last: bool)
    requires Indexes(pending, partitions) && errors == CreateAll(before, InputsOf(pending, partitions), turn.verdict).1
    requires forall k | 0 <= k < |pending| :: partitions[pending[k]].values in sent
    ensures SomeStops(errors, sent, last) ==> Gave(turn, last)
    ensures SomeOther(errors) ==> Faulty(turn)
  {
    hide CreateAll;
    CreateErrors(before, InputsOf(pending, partitions), turn.verdict);
  }

  /** A batch so far: each partition is in Glue or still to be sent; and with distinct inputs each is as asked for, was
      reported once, or is still to be sent. */
  ghost predicate Progress(server: GlueServer, from: nat, to: nat, now: Partitions, partitions: seq<PartitionInput>,
                           start: nat, end: nat, pending: seq<nat>, existing: seq<nat>)
  {
    && start <= end <= |partitions| && Indexes(pending, partitions) && Indexes(existing, partitions)
    && (forall x | x in pending || x in existing :: start <= x < end)
    && (forall i | start <= i < end ::
         Present(server, from, to, now, partitions[i].values) || Among(partitions[i].values, pending, partitions))
    && (DistinctInputs(partitions) ==>
         && Unrepeated(pending) && Unrepeated(existing) && (forall x | x in existing :: x !in pending)
         && (forall i: nat | start <= i < end :: i in pending || i in existing || Ours(server, from, to, now, partitions[i])))
  }

  /** Between two moments others only removed what was there, and what appeared is as asked for or added by others. */
  ghost predicate Survives(server: GlueServer, from: nat, to: nat, before: Partitions, after: Partitions,
                           inputs: seq<PartitionInput>)
  {
    && (forall v | v in before :: (v in after && after[v] == before[v]) || server.RemovedBetween(from, to, v))
    && (forall v | v in after :: (v in before && after[v] == before[v]) || server.AddedBetween(from, to, v) ||
                                 PartitionInput(v, after[v]) in inputs)
  }

  lemma ProgressSurvives(server: GlueServer, from: nat, middle: nat, to: nat, before: Partitions, after: Partitions,
                         partitions: seq<PartitionInput>, start: nat, end: nat, pending: seq<nat>, existing: seq<nat>)
    requires Progress(server, from, middle, before, partitions, start, end, pending, existing)
    requires from <= middle <= to && Survives(server, middle, to, before, after, partitions)
    ensures Progress(server, from, to, after, partitions, start, end, pending, existing)
  {
    Within(server, from, middle, to);
  }

  lemma ProgressStep(server: GlueServer, from: nat, to: nat, now: Partitions, partitions: seq<PartitionInput>,
                     start: nat, end: nat, pending: seq<nat>, existing: seq<nat>, again: seq<nat>, reported: seq<nat>)
    requires Progress(server, from, to, now, partitions, start, end, pending, existing)
    requires Sent(partitions, pending, again, reported, now)
    ensures Progress(server, from, to, now, partitions, start, end, again, existing + reported)
  {
    forall i | start <= i < end
      ensures Present(server, from, to, now, partitions[i].values) || Among(partitions[i].values, again, partitions)
    {
      if !Present(server, from, to, now, partitions[i].values) {
        var k :| 0 <= k < |pending| && partitions[pending[k]].values == partitions[i].values;
      }
    }
    if DistinctInputs(partitions) {
      var all := existing + reported;
      forall i, j | 0 <= i < j < |all|
        ensures all[i] != all[j]
      {
        if i < |existing| <= j {
          assert existing[i] in existing && reported[j - |existing|] in reported;
        }
      }
      forall i: nat | start <= i < end
        ensures i in again || i in all || Ours(server, from, to, now, partitions[i])
      {
      }
    }
  }

  method CreateBatch(server: GlueServer, partitions: seq<PartitionInput>, start: nat, end: nat)
    returns (ok: bool, existing: seq<nat>)
    requires server.Valid() && start <= end <= |partitions| && end - start <= 100
    modifies server`partitions, server`calls, server`history
    ensures old(server.calls) <= server.calls <= old(server.calls) + MAX_ATTEMPTS
    ensures old(server.history) <= server.history
    ensures ok ==> Progress(server, old(server.calls), server.calls, server.partitions, partitions, start, end, [], existing)
    ensures Survives(server, old(server.calls), server.calls, old(server.partitions), server.partitions, partitions)
    ensures !ok ==> server.Troubled(old(server.calls), server.calls)
    ensures ok && DistinctInputs(partitions) ==> Reports(server.history, |old(server.history)|, partitions, existing)
  {
    var pending: seq<nat> := seq(end - start, k requires 0 <= k < end - start => start + k);
    existing := [];
    var attempt := 0;
    ghost var from := server.calls;
    AllPending(server, from, server.partitions, partitions, start, end, pending);
    hide Progress, Sent, Survives, Reports, DistinctInputs;
    NothingReported(server.history, partitions);
    while pending != []
      invariant attempt <= MAX_ATTEMPTS && (pending != [] ==> attempt < MAX_ATTEMPTS)
      invariant pending != [] ==> forall n | from <= n < server.calls :: Faulty(server.script(n))
      invariant server.calls == from + attempt && Indexes(pending, partitions) && |pending| <= end - start
      invariant old(server.history) <= server.history
      invariant Progress(server, from, server.calls, server.partitions, partitions, start, end, pending, existing)
      invariant DistinctInputs(partitions) ==> Unrepeated(pending) && Reports(server.history, |old(server.history)|, partitions, existing)
      invariant Survives(server, from, server.calls, old(server.partitions), server.partitions, partitions)
      decreases MAX_ATTEMPTS - attempt
    {
      ghost var before, middle, seen := server.partitions, server.calls, server.history;
      var again, reported;
      ok, again, reported := SendCreates(server, partitions, pending, attempt + 1 == MAX_ATTEMPTS);
      SurvivesTwice(server, from, middle, server.calls, old(server.partitions), before, server.partitions, partitions);
      if !ok {
        StoppedAfter(server, from, middle);
        return;
      }
      ProgressSurvives(server, from, middle, server.calls, before, server.partitions, partitions, start, end, pending, existing);
      ProgressStep(server, from, server.calls, server.partitions, partitions, start, end, pending, existing, again, reported);
      SentIndexed(partitions, pending, again, reported, server.partitions);
      if DistinctInputs(partitions) {
        ReportsBoth(seen, server.history, |old(server.history)|, |seen|, partitions, existing, reported);
      }
      pending, existing := again, existing + reported;
      attempt := attempt + 1;
    }
    ok := true;
  }

  lemma AllPending(server: GlueServer, from: nat, now: Partitions, partitions: seq<PartitionInput>, start: nat, end: nat,
                   pending: seq<nat>)
    requires start <= end <= |partitions| && |pending| == end - start && forall k | 0 <= k < |pending| :: pending[k] == start + k
    ensures Progress(server, from, from, now, partitions, start, end, pending, [])
    ensures Survives(server, from, from, now, now, partitions)
  {
    forall i: nat | start <= i < end
      ensures i in pending && Among(partitions[i].values, pending, partitions)
    {
      assert pending[i - start] == i;
    }
  }

  lemma SentIndexed(partitions: seq<PartitionInput>, pending: seq<nat>, again: seq<nat>, existing: seq<nat>, after: Partitions)
    requires Sent(partitions, pending, again, existing, after)
    ensures Indexes(again, partitions) && (DistinctInputs(partitions) && Unrepeated(pending) ==> Unrepeated(again))
  {
  }

  lemma NothingReported(history: seq<Partitions>, partitions: seq<PartitionInput>)
    ensures Reports(history, |history|, partitions, [])
  {
  }

  lemma SurvivesTwice(server: GlueServer, from: nat, middle: nat, to: nat, a: Partitions, b: Partitions, c: Partitions,
                      inputs: seq<PartitionInput>)
    requires from <= middle <= to && Survives(server, from, middle, a, b, inputs) && Survives(server, middle, to, b, c, inputs)
    ensures Survives(server, from, to, a, c, inputs)
  {
    Within(server, from, middle, to);
  }

  /** On normal return every input's partition is in Glue. With distinct inputs the partitions reported as existing are
      inputs, each once, and every other one is in Glue as asked for. At most four requests are sent for each 100. */
  method BatchCreatePartitions(server: GlueServer, partitions: seq<PartitionInput>)
    returns (ok: bool, alreadyExisting: seq<PartitionInput>)
    requires server.Valid()
    modifies server`partitions, server`calls, server`history
    ensures old(server.calls) <= server.calls && old(server.history) <= server.history
    ensures server.calls <= old(server.calls) + 4 * ((|partitions| + 99) / 100)
    ensures ok ==> forall i | 0 <= i < |partitions| ::
              Present(server, old(server.calls), server.calls, server.partitions, partitions[i].values)
    ensures ok && DistinctInputs(partitions) ==> DistinctInputs(alreadyExisting)
    ensures forall a | a in alreadyExisting :: a in partitions
    ensures ok && DistinctInputs(partitions) ==> forall i | 0 <= i < |partitions| ::
              partitions[i] in alreadyExisting || Ours(server, old(server.calls), server.calls, server.partitions, partitions[i])
    ensures Survives(server, old(server.calls), server.calls, old(server.partitions), server.partitions, partitions)
    ensures !ok ==> server.Troubled(old(server.calls), server.calls)
    ensures ok && DistinctInputs(partitions) ==> forall a | a in alreadyExisting :: WasThere(server.history, |old(server.history)|, a.values)
  {
    hide Progress, Survives, DistinctInputs, Reports, WasThere, Present, Ours, Indexes, GlueServer.Troubled, GlueServer.Valid;
    var existing: seq<nat> := [];
    ghost var from := server.calls;
    var offset := 0;
    ghost var batches := 0;
    AllPending(server, from, server.partitions, partitions, 0, 0, []);
    NothingReported(server.history, partitions);
    while offset < |partitions|
      invariant offset <= |partitions| && offset <= CREATE_BATCH * batches
      invariant offset < |partitions| ==> offset == CREATE_BATCH * batches
      invariant CREATE_BATCH * batches < |partitions| + CREATE_BATCH
      invariant from <= server.calls <= from + MAX_ATTEMPTS * batches && old(server.history) <= server.history
      invariant Progress(server, from, server.calls, server.partitions, partitions, 0, offset, [], existing)
      invariant DistinctInputs(partitions) ==> Reports(server.history, |old(server.history)|, partitions, existing)
      invariant Survives(server, from, server.calls, old(server.partitions), server.partitions, partitions)
    {
      var end := if offset + CREATE_BATCH < |partitions| then offset + CREATE_BATCH else |partitions|;
      ghost var before, middle, seen := server.partitions, server.calls, server.history;
      var reported;
      ok, reported := CreateBatch(server, partitions, offset, end);
      batches := batches + 1;
      SurvivesTwice(server, from, middle, server.calls, old(server.partitions), before, server.partitions, partitions);
      if !ok {
        BatchesBound(|partitions|, CREATE_BATCH, batches);
        TroubledWithin(server, from, middle, server.calls, server.calls);
        return false, [];
      }
      ProgressSurvives(server, from, middle, server.calls, before, server.partitions, partitions, 0, offset, [], existing);
      ProgressBoth(server, from, middle, server.calls, server.partitions, partitions, offset, end, existing, reported);
      if DistinctInputs(partitions) {
        ReportsBoth(seen, server.history, |old(server.history)|, |seen|, partitions, existing, reported);
      }
      existing := existing + reported;
      offset := end;
    }
    BatchesBound(|partitions|, CREATE_BATCH, batches);
    ok := true;
    ExistingIndexed(server, from, server.calls, server.partitions, partitions, existing);
    alreadyExisting := InputsOf(existing, partitions);
    Reported(server, from, server.calls, server.partitions, partitions, existing);
    ReportedWere(server.history, |old(server.history)|, partitions, existing);
  }

  lemma ProgressBoth(server: GlueServer, from: nat, middle: nat, to: nat, now: Partitions, partitions: seq<PartitionInput>,
                     offset: nat, end: nat, existing: seq<nat>, reported: seq<nat>)
    requires from <= middle <= to && Progress(server, from, to, now, partitions, 0, offset, [], existing)
    requires Progress(server, middle, to, now, partitions, offset, end, [], reported)
    ensures Progress(server, from, to, now, partitions, 0, end, [], existing + reported)
  {
    Within(server, from, middle, to);
    var all := existing + reported;
    if DistinctInputs(partitions) {
      forall i, j | 0 <= i < j < |all|
        ensures all[i] != all[j]
      {
        assert i < |existing| ==> existing[i] in existing;
        assert j >= |existing| ==> reported[j - |existing|] in reported;
      }
    }
  }

  lemma ExistingIndexed(server: GlueServer, from: nat, to: nat, now: Partitions, partitions: seq<PartitionInput>, existing: seq<nat>)
    requires Progress(server, from, to, now, partitions, 0, |partitions|, [], existing)
    ensures Indexes(existing, partitions)
  {
  }

  lemma ReportedWere(history: seq<Partitions>, since: nat, partitions: seq<PartitionInput>, existing: seq<nat>)
    requires Indexes(existing, partitions)
    ensures Reports(history, since, partitions, existing) ==>
              forall a | a in InputsOf(existing, partitions) :: WasThere(history, since, a.values)
  {
    forall a | a in InputsOf(existing, partitions) && Reports(history, since, partitions, existing)
      ensures WasThere(history, since, a.values)
    {
      var k :| 0 <= k < |existing| && partitions[existing[k]] == a;
      assert existing[k] in existing;
    }
  }

  lemma Reported(server: GlueServer, from: nat, to: nat, now: Partitions, partitions: seq<PartitionInput>, existing: seq<nat>)
    requires Progress(server, from, to, now, partitions, 0, |partitions|, [], existing) && Indexes(existing, partitions)
    ensures var already := InputsOf(existing, partitions);
            && (forall i | 0 <= i < |partitions| :: Present(server, from, to, now, partitions[i].values))
            && (DistinctInputs(partitions) ==> DistinctInputs(already) && forall a | a in already :: a in partitions)
            && (DistinctInputs(partitions) ==>
                  forall i | 0 <= i < |partitions| :: partitions[i] in already || Ours(server, from, to, now, partitions[i]))
  {
    var already := InputsOf(existing, partitions);
    if DistinctInputs(partitions) {
      DistinctPending(partitions, existing);
      forall i: nat | 0 <= i < |partitions|
        ensures partitions[i] in already || Ours(server, from, to, now, partitions[i])
      {
        if i in existing {
          var k :| 0 <= k < |existing| && existing[k] == i;
          assert already[k] == partitions[i];
        }
      }
    }
  }
}
