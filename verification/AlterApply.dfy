/** ALTER TABLE against a Glue that other clients write to as well: what the statement leaves, and that it means its
    actions when no other client writes. */
module AlterApply {
  import opened Outcomes
  import opened GlueService
  import opened PartitionApi
  import opened AlterTable

  datatype Outcome = Applied | Refused | Failed

  // The statement.

  /** The values whose presence the checks need, which are looked up together. */
  function LookedUp(step: Step): Option<Values> {
    match step
    case Add(v, _, ifNotExists) => if ifNotExists then None else Some(v)
    case Drop(v, ifExists) => if ifExists then None else Some(v)
    case Rename(_, w) => Some(w)
    case _ => None
  }

  method Lookups(steps: seq<Step>) returns (values: seq<Values>)
    ensures forall i | 0 <= i < |steps| && LookedUp(steps[i]).Some? :: LookedUp(steps[i]).value in values
  {
    values := [];
    for i := 0 to |steps|
      invariant forall k | 0 <= k < i && LookedUp(steps[k]).Some? :: LookedUp(steps[k]).value in values
    {
      match LookedUp(steps[i])
      case None =>
      case Some(v) =>
        if v !in values {
          values := values + [v];
        }
    }
  }

  // What the checks saw, at some moment each.

  /** Glue was seen in a state the action can not be done in. */
  ghost predicate SeenRefusing(history: seq<Partitions>, since: nat, step: Step) {
    exists n :: since <= n < |history| && Refuses(history[n], step)
  }

  /** Each of the facts the action needs was seen, and what it rewrites is as it was seen. */
  ghost predicate Passed(history: seq<Partitions>, since: nat, step: Step, checked: Option<string>) {
    match step
    case Add(v, _, ifNotExists) => checked.None? && (!ifNotExists ==> Seen(history, since, v, None))
    case Drop(v, ifExists) => checked.None? && (!ifExists ==> exists l :: Seen(history, since, v, Some(l)))
    case Rename(v, w) => checked.Some? && Seen(history, since, v, checked) && Seen(history, since, w, None)
    case SetPartitionLocation(v, _, ifExists) => if ifExists then checked.None? else checked.Some? && Seen(history, since, v, checked)
    case SetTableLocation(_) => checked.None?
  }

  lemma PassedLater(history: seq<Partitions>, later: seq<Partitions>, since: nat, step: Step, checked: Option<string>)
    requires history <= later && Passed(history, since, step, checked)
    ensures Passed(later, since, step, checked)
  {
    forall v, found | Seen(history, since, v, found)
      ensures Seen(later, since, v, found)
    {
      SeenLater(history, later, since, since, v, found);
    }
  }

  /** While nobody else writes, what was seen is so. */
  lemma QuietPassed(history: seq<Partitions>, since: nat, partitions: Partitions, step: Step, checked: Option<string>)
    requires forall n | since <= n < |history| :: history[n] == partitions
    ensures Passed(history, since, step, checked) ==> !Refuses(partitions, step) && (step.Rename? ==> checked == CheckedLocation(partitions, step))
    ensures SeenRefusing(history, since, step) ==> Refuses(partitions, step)
  {
  }

  method CheckStep(server: GlueServer, step: Step, existing: Partitions, ghost since: nat)
    returns (outcome: Outcome, checked: Option<string>)
    requires since <= |server.history|
    requires LookedUp(step).Some? ==> Seen(server.history, since, LookedUp(step).value, Found(existing, LookedUp(step).value))
    modifies server`partitions, server`calls, server`history
    ensures old(server.calls) <= server.calls && old(server.history) <= server.history
    ensures outcome == Refused ==> SeenRefusing(server.history, since, step)
    ensures outcome == Applied ==> Passed(server.history, since, step, checked)
    ensures outcome == Failed ==> server.Troubled(old(server.calls), server.calls)
    ensures server.Quiet() ==> Unmoved(old(server.partitions), server.partitions, |old(server.history)|, server.history)
    ensures Spares(server, old(server.calls), server.calls, old(server.partitions), server.partitions, [])
  {
    ghost var request, before, seen := server.calls, server.partitions, server.history;
    NothingDone(server, request, server.partitions, []);
    match step
    case Add(v, _, ifNotExists) => outcome, checked := if !ifNotExists && v in existing then Refused else Applied, None;
    case Drop(v, ifExists) => outcome, checked := if !ifExists && v !in existing then Refused else Applied, None;
    case SetTableLocation(_) => outcome, checked := Applied, None;
    case SetPartitionLocation(v, _, ifExists) =>
      if ifExists {
        return Applied, None;
      }
      var found := server.GetPartition(v);
      OneAnswer(server, request, before, seen, since, v);
      outcome := if found.None? then Failed else if found.value.None? then Refused else Applied;
      checked := if found.Some? then found.value else None;
    case Rename(v, w) =>
      var found := server.GetPartition(v);
      OneAnswer(server, request, before, seen, since, v);
      SeenLater(seen, server.history, since, since, w, Found(existing, w));
      outcome := if found.None? then Failed else if found.value.None? || w in existing then Refused else Applied;
      checked := if found.Some? then found.value else None;
  }

  /** A request that changes nothing: what it sees, and what others did before it. */
  lemma OneAnswer(server: GlueServer, request: nat, before: Partitions, history: seq<Partitions>, since: nat, v: Values)
    requires since <= |history|
    ensures var now := AfterOthers(before, server.script(request));
            && Seen(history + [now], since, v, Found(now, v))
            && Spares(server, request, request + 1, before, now, [])
            && (server.Quiet() ==> now == before)
            && (server.script(request).fails ==> server.Troubled(request, request + 1))
  {
    var now := AfterOthers(before, server.script(request));
    assert (history + [now])[|history|] == now;
    assert server.script(request).fails ==> Fatal(server.script(request));
  }

  /** Everything that can fail against the catalog is checked before anything is changed. */
  method CheckAll(server: GlueServer, steps: seq<Step>) returns (outcome: Outcome, checked: seq<Option<string>>)
    modifies server`partitions, server`calls, server`history
    ensures old(server.calls) <= server.calls && old(server.history) <= server.history
    ensures outcome == Refused ==> exists i | 0 <= i < |steps| :: SeenRefusing(server.history, |old(server.history)|, steps[i])
    ensures outcome == Applied ==> |checked| == |steps|
    ensures outcome == Applied ==> forall i | 0 <= i < |steps| :: Passed(server.history, |old(server.history)|, steps[i], checked[i])
    ensures outcome == Failed ==> server.Troubled(old(server.calls), server.calls)
    ensures server.Quiet() ==> Unmoved(old(server.partitions), server.partitions, |old(server.history)|, server.history)
    ensures Spares(server, old(server.calls), server.calls, old(server.partitions), server.partitions, [])
  {
    hide Passed, SeenRefusing, Spares, Seen;
    ghost var from, since := server.calls, |server.history|;
    checked := [];
    var values := Lookups(steps);
    var existing := PartitionLocations(server, values);
    if existing.None? {
      return Failed, checked;
    }
    for i := 0 to |steps|
      invariant from <= server.calls && old(server.history) <= server.history && |checked| == i
      invariant Answers(existing.value, values, server.history, since)
      invariant forall k | 0 <= k < i :: Passed(server.history, since, steps[k], checked[k])
      invariant server.Quiet() ==> Unmoved(old(server.partitions), server.partitions, since, server.history)
      invariant Spares(server, from, server.calls, old(server.partitions), server.partitions, [])
    {
      var fetched;
      ghost var middle, before, seen := server.calls, server.partitions, server.history;
      if LookedUp(steps[i]).Some? {
        var k :| 0 <= k < |values| && values[k] == LookedUp(steps[i]).value;
        assert Seen(server.history, since, values[k], Found(existing.value, values[k]));
      }
      outcome, fetched := CheckStep(server, steps[i], existing.value, since);
      SparesMore(server, from, middle, server.calls, old(server.partitions), before, server.partitions, [], [], []);
      AnswersLater(existing.value, values, seen, server.history, since);
      forall k | 0 <= k < i
        ensures Passed(server.history, since, steps[k], checked[k])
      {
        PassedLater(seen, server.history, since, steps[k], checked[k]);
      }
      if outcome != Applied {
        if outcome == Failed {
          TroubledWithin(server, from, middle, server.calls, server.calls);
        }
        return;
      }
      checked := checked + [fetched];
    }
    outcome := Applied;
  }

  lemma AnswersLater(existing: Partitions, keys: seq<Values>, history: seq<Partitions>, later: seq<Partitions>, since: nat)
    requires history <= later && Answers(existing, keys, history, since)
    ensures Answers(existing, keys, later, since)
  {
    forall k | 0 <= k < |keys|
      ensures Seen(later, since, keys[k], Found(existing, keys[k]))
    {
      SeenLater(history, later, since, since, keys[k], Found(existing, keys[k]));
    }
  }

  // What an action leaves, whatever others do.

  predicate Named(steps: seq<Step>, v: Values) {
    exists i | 0 <= i < |steps| :: Names(steps[i], v)
  }

  /** Partitions no action names are left alone, and none of those appears, except by others. */
  ghost predicate Others(server: GlueServer, from: nat, to: nat, before: Partitions, after: Partitions, steps: seq<Step>) {
    && (forall v | v in before && !Named(steps, v) :: (v in after && after[v] == before[v]) || server.RemovedBetween(from, to, v))
    && (forall v | v in after && !Named(steps, v) :: (v in before && after[v] == before[v]) || server.AddedBetween(from, to, v))
  }

  lemma OthersTwice(server: GlueServer, from: nat, middle: nat, to: nat, a: Partitions, b: Partitions, c: Partitions,
                    first: seq<Step>, second: seq<Step>, all: seq<Step>)
    requires from <= middle <= to && Others(server, from, middle, a, b, first) && Others(server, middle, to, b, c, second)
    requires (forall v: Values | Named(first, v) :: Named(all, v)) && forall v: Values | Named(second, v) :: Named(all, v)
    ensures Others(server, from, to, a, c, all)
  {
    Within(server, from, middle, to);
  }

  /** What the action asked for is so, unless another client undid it. */
  ghost predicate Holds(server: GlueServer, from: nat, to: nat, now: Partitions, step: Step) {
    match step
    case Add(v, _, _) => Present(server, from, to, now, v)
    case Drop(v, _) => Gone(server, from, to, now, v)
    case Rename(v, w) => Present(server, from, to, now, w) && (v != w ==> Gone(server, from, to, now, v))
    case SetPartitionLocation(v, location, _) => (v in now && now[v] == location) || server.RemovedBetween(from, to, v)
    case SetTableLocation(_) => true
  }

  /** It stays so while actions that name none of its partitions are taken. */
  lemma HoldsOn(server: GlueServer, from: nat, middle: nat, to: nat, before: Partitions, after: Partitions, step: Step, later: seq<Step>)
    requires from <= middle <= to && Holds(server, from, middle, before, step) && Others(server, middle, to, before, after, later)
    requires forall v: Values | Names(step, v) :: !Named(later, v)
    ensures Holds(server, from, to, after, step)
  {
    Within(server, from, middle, to);
  }

  /** No action from the next one on, before the end, names one of its partitions. */
  ghost predicate Final(steps: seq<Step>, j: nat, end: nat)
    requires j < end <= |steps|
  {
    forall m, v: Values | j < m < end && Names(steps[j], v) :: !Names(steps[m], v)
  }

  /** What the first actions left: what they do not name is left alone, and those no later one undoes hold. */
  ghost predicate Kept(server: GlueServer, from: nat, to: nat, start: Partitions, now: Partitions, steps: seq<Step>, sent: nat)
    requires sent <= |steps|
  {
    && Others(server, from, to, start, now, steps[..sent])
    && forall j | 0 <= j < sent && Final(steps, j, sent) :: Holds(server, from, to, now, steps[j])
  }

  lemma NamedParts(steps: seq<Step>, sent: nat, end: nat)
    requires sent <= end <= |steps|
    ensures forall v: Values | Named(steps[..sent], v) || Named(steps[sent..end], v) :: Named(steps[..end], v) && Named(steps, v)
    ensures forall v: Values | Named(steps[..end], v) :: Named(steps, v)
  {
    assert forall k | 0 <= k < sent :: steps[..sent][k] == steps[..end][k];
    assert forall k | 0 <= k < end - sent :: steps[sent..end][k] == steps[..end][sent + k];
    assert forall k | 0 <= k < end :: steps[..end][k] == steps[k];
    forall v: Values | Named(steps[sent..end], v)
      ensures Named(steps[..end], v)
    {
      var k :| 0 <= k < end - sent && Names(steps[sent..end][k], v);
      assert Names(steps[..end][sent + k], v);
    }
  }

  lemma KeptMore(server: GlueServer, from: nat, middle: nat, to: nat, start: Partitions, before: Partitions, after: Partitions,
                 steps: seq<Step>, sent: nat, end: nat)
    requires sent <= end <= |steps| && from <= middle <= to && Kept(server, from, middle, start, before, steps, sent)
    requires Others(server, middle, to, before, after, steps[sent..end])
    requires forall j | sent <= j < end && Final(steps, j, end) :: Holds(server, middle, to, after, steps[j])
    ensures Kept(server, from, to, start, after, steps, end)
  {
    hide Others, Holds, Names;
    NamedParts(steps, sent, end);
    OthersTwice(server, from, middle, to, start, before, after, steps[..sent], steps[sent..end], steps[..end]);
    forall j | 0 <= j < end && Final(steps, j, end)
      ensures Holds(server, from, to, after, steps[j])
    {
      if j < sent {
        assert Final(steps, j, sent);
        forall v: Values | Names(steps[j], v)
          ensures !Named(steps[sent..end], v)
        {
          forall k | 0 <= k < end - sent
            ensures !Names(steps[sent..end][k], v)
          {
            assert steps[sent..end][k] == steps[sent + k];
          }
        }
        HoldsOn(server, from, middle, to, before, after, steps[j], steps[sent..end]);
      } else {
        HoldsWithin(server, from, middle, to, after, steps[j]);
      }
    }
  }

  lemma HoldsWithin(server: GlueServer, from: nat, middle: nat, to: nat, now: Partitions, step: Step)
    requires from <= middle <= to && Holds(server, middle, to, now, step)
    ensures Holds(server, from, to, now, step)
  {
    Within(server, from, middle, to);
  }

  /** The actions that wait are the adds, or the drops, to be sent. */
  ghost predicate Waits(steps: seq<Step>, sent: nat, i: nat, adds: seq<PartitionInput>, drops: seq<Values>) {
    && sent <= i <= |steps| && (adds == [] || drops == [])
    && (forall j | sent <= j < i :: (steps[j].Add? && PartitionInput(steps[j].values, steps[j].location) in adds) ||
                                    (steps[j].Drop? && steps[j].values in drops))
    && (forall a | a in adds :: Named(steps[sent..i], a.values)) && (forall v | v in drops :: Named(steps[sent..i], v))
  }

  lemma WaitsMore(steps: seq<Step>, sent: nat, i: nat, adds: seq<PartitionInput>, drops: seq<Values>)
    requires Waits(steps, sent, i, adds, drops) && i < |steps|
    ensures steps[i].Add? && drops == [] ==> Waits(steps, sent, i + 1, adds + [PartitionInput(steps[i].values, steps[i].location)], [])
    ensures steps[i].Drop? && adds == [] ==>
              Waits(steps, sent, i + 1, [], if steps[i].values in drops then drops else drops + [steps[i].values])
  {
    hide Names;
    var now, later := steps[sent..i], steps[sent..i + 1];
    assert later == now + [steps[i]];
    forall v: Values | Named(now, v)
      ensures Named(later, v)
    {
      var k :| 0 <= k < |now| && Names(now[k], v);
      assert Names(later[k], v);
    }
    assert later[i - sent] == steps[i];
    if steps[i].Add? || steps[i].Drop? {
      NamesOwn(steps[i]);
      assert Named(later, steps[i].values);
    }
  }

  lemma NamesOwn(step: Step)
    requires step.Add? || step.Drop?
    ensures Names(step, step.values)
  {
  }

  /** What waited was sent. */
  lemma AddsHold(server: GlueServer, from: nat, to: nat, before: Partitions, after: Partitions, steps: seq<Step>, sent: nat, i: nat,
                 adds: seq<PartitionInput>)
    requires Waits(steps, sent, i, adds, []) && Survives(server, from, to, before, after, adds)
    ensures Others(server, from, to, before, after, steps[sent..i])
    ensures (forall k | 0 <= k < |adds| :: Present(server, from, to, after, adds[k].values)) ==>
              forall j | sent <= j < i :: Holds(server, from, to, after, steps[j])
  {
    hide Names;
    forall v | v in after && PartitionInput(v, after[v]) in adds
      ensures Named(steps[sent..i], v)
    {
      var a := PartitionInput(v, after[v]);
      assert Named(steps[sent..i], a.values);
    }
  }

  lemma DropsHold(server: GlueServer, from: nat, to: nat, before: Partitions, after: Partitions, steps: seq<Step>, sent: nat, i: nat,
                  drops: seq<Values>)
    requires Waits(steps, sent, i, [], drops) && Spares(server, from, to, before, after, drops)
    ensures Others(server, from, to, before, after, steps[sent..i])
    ensures AllGone(server, from, to, after, drops) ==> forall j | sent <= j < i :: Holds(server, from, to, after, steps[j])
  {
    hide Names;
  }

  // What the statement means when nobody else writes.

  /** Where the statement is: the steps taken mean what the partitions are once what waits is sent. */
  ghost predicate InStep(start: Definition, partitions: Partitions, tableLocation: string, steps: seq<Step>, i: nat,
                         adds: seq<PartitionInput>, drops: seq<Values>)
    requires i <= |steps|
  {
    && AsTaken(start, steps[..i]) == Some(Definition(Flushed(partitions, adds, drops), tableLocation))
    && (adds == [] || drops == []) && DistinctInputs(adds)
    && |adds| <= i && (forall k | 0 <= k < |adds| :: WaitingAdd(steps[i - |adds| + k], adds[k]))
    && (drops != [] ==> i > 0 && steps[i - 1].Drop?)
  }

  predicate WaitingAdd(step: Step, input: PartitionInput) {
    step.Add? && input == PartitionInput(step.values, step.location)
  }

  /** An action that can not be done ends the statement. */
  lemma {:induction false} NoneStays(start: Definition, steps: seq<Step>, i: nat)
    requires i <= |steps| && AsTaken(start, steps[..i]).None?
    ensures AsTaken(start, steps).None?
    decreases |steps| - i
  {
    if i < |steps| {
      OneMoreTaken(start, steps, i);
      NoneStays(start, steps, i + 1);
    } else {
      assert steps[..i] == steps;
    }
  }

  /** Sending some of what waits changes nothing in what the steps taken mean. */
  lemma Sent(start: Definition, before: Partitions, after: Partitions, tableLocation: string, steps: seq<Step>, i: nat,
             adds: seq<PartitionInput>, drops: seq<Values>, addsLeft: seq<PartitionInput>, dropsLeft: seq<Values>)
    requires i <= |steps| && InStep(start, before, tableLocation, steps, i, adds, drops)
    requires (addsLeft == adds || addsLeft == []) && (dropsLeft == drops || dropsLeft == [])
    requires Flushed(after, addsLeft, dropsLeft) == Flushed(before, adds, drops)
    ensures InStep(start, after, tableLocation, steps, i, addsLeft, dropsLeft)
  {
    hide Flushed, AsTaken;
  }

  lemma AllTaken(start: Definition, partitions: Partitions, tableLocation: string, steps: seq<Step>)
    requires InStep(start, partitions, tableLocation, steps, |steps|, [], [])
    ensures AsTaken(start, steps) == Some(Definition(partitions, tableLocation))
  {
    hide AsTaken;
    NothingWaits(partitions);
    assert steps[..|steps|] == steps;
  }

  lemma NothingWaits(partitions: Partitions)
    ensures Flushed(partitions, [], []) == partitions
  {
  }

  lemma NothingTaken(start: Definition, steps: seq<Step>)
    ensures InStep(start, start.partitions, start.tableLocation, steps, 0, [], [])
  {
  }

  lemma AddWaits(start: Definition, partitions: Partitions, tableLocation: string, steps: seq<Step>, i: nat, adds: seq<PartitionInput>)
    requires i < |steps| && steps[i].Add? && DistinctAdds(steps) && InStep(start, partitions, tableLocation, steps, i, adds, [])
    ensures InStep(start, partitions, tableLocation, steps, i + 1, adds + [PartitionInput(steps[i].values, steps[i].location)], [])
  {
    var input := PartitionInput(steps[i].values, steps[i].location);
    var more := adds + [input];
    assert DistinctInputs(more) by {
      AddsDiffer(steps, i, adds);
    }
    assert forall k | 0 <= k < |adds| :: more[k] == adds[k];
    hide DistinctInputs, DistinctAdds;
    OneMoreTaken(start, steps, i);
    assert more[..|more| - 1] == adds;
  }

  lemma AddsDiffer(steps: seq<Step>, i: nat, adds: seq<PartitionInput>)
    requires i < |steps| && steps[i].Add? && DistinctAdds(steps) && DistinctInputs(adds)
    requires |adds| <= i && forall k | 0 <= k < |adds| :: WaitingAdd(steps[i - |adds| + k], adds[k])
    ensures DistinctInputs(adds + [PartitionInput(steps[i].values, steps[i].location)])
  {
    var n := |adds|;
    forall k | 0 <= k < n
      ensures adds[k].values != steps[i].values
    {
      forall m | i - n <= m < i
        ensures steps[m].Add?
      {
        assert WaitingAdd(steps[i - n + (m - (i - n))], adds[m - (i - n)]);
      }
      assert steps[i - n + k].values == adds[k].values;
    }
  }

  lemma DropWaits(start: Definition, partitions: Partitions, tableLocation: string, steps: seq<Step>, i: nat, drops: seq<Values>)
    requires i < |steps| && steps[i].Drop? && InStep(start, partitions, tableLocation, steps, i, [], drops)
    ensures InStep(start, partitions, tableLocation, steps, i + 1, [],
                   if steps[i].values in drops then drops else drops + [steps[i].values])
  {
    OneMoreTaken(start, steps, i);
    var v := steps[i].values;
    var more := if v in drops then drops else drops + [v];
    assert (set x | x in more) == (set x | x in drops) + {v};
    assert partitions - (set x | x in more) == (partitions - (set x | x in drops)) - {v};
    assert drops == [] ==> partitions - {v} == partitions - (set x | x in more);
  }


  /** Where the statement is when nobody else writes; in any case the waiting actions wait, and the others were taken. */
  ghost predicate Under(server: GlueServer, exact: bool, from: nat, to: nat, start: Definition, now: Definition, steps: seq<Step>,
                        sent: nat, i: nat, adds: seq<PartitionInput>, drops: seq<Values>)
  {
    && Waits(steps, sent, i, adds, drops) && Kept(server, from, to, start.partitions, now.partitions, steps, sent)
    && (exact ==> InStep(start, now.partitions, now.tableLocation, steps, i, adds, drops))
  }

  method FlushAdds(server: GlueServer, adds: seq<PartitionInput>) returns (ok: bool)
    requires server.Valid()
    modifies server`partitions, server`calls, server`history
    ensures old(server.calls) <= server.calls && (!ok ==> server.Troubled(old(server.calls), server.calls))
    ensures Survives(server, old(server.calls), server.calls, old(server.partitions), server.partitions, adds)
    ensures ok ==> forall k | 0 <= k < |adds| :: Present(server, old(server.calls), server.calls, server.partitions, adds[k].values)
    ensures ok && server.Quiet() && DistinctInputs(adds) ==> server.partitions == Created(old(server.partitions), adds)
  {
    hide Created;
    var already;
    ghost var from := server.calls;
    ok, already := BatchCreatePartitions(server, adds);
    if ok && server.Quiet() && DistinctInputs(adds) {
      QuietCreated(server, from, server.calls, old(server.partitions), server.partitions, adds);
    }
  }

  method FlushDrops(server: GlueServer, drops: seq<Values>) returns (ok: bool)
    requires server.Valid()
    modifies server`partitions, server`calls, server`history
    ensures old(server.calls) <= server.calls && (!ok ==> server.Troubled(old(server.calls), server.calls))
    ensures Spares(server, old(server.calls), server.calls, old(server.partitions), server.partitions, drops)
    ensures ok ==> AllGone(server, old(server.calls), server.calls, server.partitions, drops)
    ensures ok && server.Quiet() ==> server.partitions == Flushed(old(server.partitions), [], drops)
  {
    ghost var from := server.calls;
    ok := BatchDeletePartitions(server, drops);
    if ok && server.Quiet() {
      QuietDeleted(server, from, server.calls, old(server.partitions), server.partitions, drops);
    }
  }

  /** One request that replaces a partition. */
  lemma OneUpdate(server: GlueServer, request: nat, before: Partitions, after: Partitions, v: Values, w: Values, location: string,
                  ok: bool, step: Step)
    requires var now := AfterOthers(before, server.script(request));
             && ok == (!server.script(request).fails && Updatable(now, v, w))
             && after == if server.script(request).Acts() && Updatable(now, v, w) then (now - {v})[w := location] else now
    requires Names(step, v) && Names(step, w)
    ensures Others(server, request, request + 1, before, after, [step])
    ensures ok ==> w in after && after[w] == location && (v != w ==> v !in after)
    ensures server.script(request).fails ==> server.Troubled(request, request + 1)
  {
    assert [step][0] == step;
    assert server.script(request).fails ==> Fatal(server.script(request));
  }

  /** What a request that changes nothing leaves, as what others leave. */
  lemma NoneNamed(server: GlueServer, from: nat, to: nat, before: Partitions, after: Partitions, steps: seq<Step>)
    requires Spares(server, from, to, before, after, [])
    ensures Others(server, from, to, before, after, steps)
  {
  }

  method RenamePartition(server: GlueServer, step: Step, location: string) returns (ok: bool)
    requires step.Rename?
    modifies server`partitions, server`calls, server`history
    ensures old(server.calls) <= server.calls
    ensures Others(server, old(server.calls), server.calls, old(server.partitions), server.partitions, [step])
    ensures ok ==> Holds(server, old(server.calls), server.calls, server.partitions, step)
    ensures server.Quiet() ==> RewritesOnly(server, old(server.calls), old(server.partitions), step, Some(location), ok)
  {
    ghost var request, before := server.calls, server.partitions;
    ok := server.UpdatePartition(step.values, PartitionInput(step.newValues, location));
    OneUpdate(server, request, before, server.partitions, step.values, step.newValues, location, ok, step);
    if server.Quiet() {
      QuietStays(server, before, request);
    }
  }

  /** While nobody else writes: the action as it means, or trouble, or it can not be done. */
  ghost predicate RewritesOnly(server: GlueServer, from: nat, before: Partitions, step: Step, checked: Option<string>, ok: bool)
    reads server
    requires step.Rename? || step.SetPartitionLocation?
  {
    var meant := Taken(Definition(before, server.tableLocation), step, checked);
    if ok then meant == Some(Definition(server.partitions, server.tableLocation))
    else server.Troubled(from, server.calls) || meant.None?
  }

  /** Fetches the partition whole, if it is there. */
  method FetchPartition(server: GlueServer, v: Values) returns (found: Option<string>)
    modifies server`partitions, server`calls, server`history
    ensures server.calls == old(server.calls) + 1
    ensures Others(server, old(server.calls), server.calls, old(server.partitions), server.partitions, [])
    ensures server.Quiet() ==> server.partitions == old(server.partitions)
    ensures server.Quiet() && found.None? ==> server.Troubled(old(server.calls), server.calls) || v !in old(server.partitions)
  {
    hide Others;
    ghost var request, before := server.calls, server.partitions;
    var answer := server.GetPartition(v);
    OneAnswer(server, request, before, [], 0, v);
    NoneNamed(server, request, server.calls, before, server.partitions, []);
    found := if answer.None? then None else answer.value;
  }

  method SetLocationOfPartition(server: GlueServer, step: Step, checked: Option<string>) returns (ok: bool)
    requires step.SetPartitionLocation?
    modifies server`partitions, server`calls, server`history
    ensures old(server.calls) <= server.calls
    ensures ok || checked.Some? ==> server.calls == old(server.calls) + if checked.None? then 2 else 1
    ensures Others(server, old(server.calls), server.calls, old(server.partitions), server.partitions, [step])
    ensures ok ==> Holds(server, old(server.calls), server.calls, server.partitions, step)
    ensures server.Quiet() ==> RewritesOnly(server, old(server.calls), old(server.partitions), step, checked, ok)
  {
    hide Others, Holds, RewritesOnly;
    ghost var from, start := server.calls, server.partitions;
    NothingOthers(server, from, start);
    if checked.None? {
      var found := FetchPartition(server, step.values);
      if found.None? {
        OthersTwice(server, from, server.calls, server.calls, start, server.partitions, server.partitions, [], [], [step]) by {
          NothingOthers(server, server.calls, server.partitions);
        }
        NotThere(server, from, start, step, checked);
        return false;
      }
    }
    ghost var request, before := server.calls, server.partitions;
    ok := server.UpdatePartition(step.values, PartitionInput(step.values, step.location));
    NewLocation(server, from, request, start, before, step, checked, ok);
  }

  lemma NothingOthers(server: GlueServer, from: nat, now: Partitions)
    ensures Others(server, from, from, now, now, [])
  {
  }

  lemma NotThere(server: GlueServer, from: nat, start: Partitions, step: Step, checked: Option<string>)
    requires step.SetPartitionLocation? && (server.Quiet() ==> server.Troubled(from, server.calls) || step.values !in start)
    ensures server.Quiet() ==> RewritesOnly(server, from, start, step, checked, false)
  {
  }

  /** The partition was replaced at its new location, or could not be. */
  lemma NewLocation(server: GlueServer, from: nat, request: nat, start: Partitions, before: Partitions, step: Step,
                    checked: Option<string>, ok: bool)
    requires step.SetPartitionLocation? && from <= request && server.calls == request + 1
    requires Others(server, from, request, start, before, []) && (server.Quiet() ==> before == start)
    requires var now := AfterOthers(before, server.script(request));
             && ok == (!server.script(request).fails && Updatable(now, step.values, step.values))
             && server.partitions == if server.script(request).Acts() && Updatable(now, step.values, step.values) then (now - {step.values})[step.values := step.location] else now
    ensures Others(server, from, server.calls, start, server.partitions, [step])
    ensures ok ==> Holds(server, from, server.calls, server.partitions, step)
    ensures server.Quiet() ==> RewritesOnly(server, from, start, step, checked, ok)
  {
    hide Others;
    var v := step.values;
    OneUpdate(server, request, before, server.partitions, v, v, step.location, ok, step);
    OthersTwice(server, from, request, server.calls, start, before, server.partitions, [], [step], [step]);
    if server.Quiet() {
      QuietStays(server, before, request);
      assert v in before ==> (before - {v})[v := step.location] == before[v := step.location];
      if server.Troubled(request, server.calls) {
        TroubledWithin(server, from, request, server.calls, server.calls);
      }
    }
  }

  method FetchVersion(server: GlueServer) returns (version: Option<nat>)
    modifies server`partitions, server`calls, server`history
    ensures server.calls == old(server.calls) + 1
    ensures Others(server, old(server.calls), server.calls, old(server.partitions), server.partitions, [])
    ensures server.Quiet() ==> server.partitions == old(server.partitions)
    ensures if version.None? then server.Troubled(old(server.calls), server.calls) else version.value == server.tableVersion
  {
    hide Others;
    ghost var request, before := server.calls, server.partitions;
    version := server.GetTable();
    OneAnswer(server, request, before, [], 0, []);
    NoneNamed(server, request, server.calls, before, server.partitions, []);
  }

  /** The table is fetched again when an earlier action of the statement replaced it, so its version is the one Glue has. */
  method SetLocationOfTable(server: GlueServer, location: string, boundVersion: nat, tableUpdated: bool) returns (ok: bool)
    modifies server
    ensures old(server.calls) <= server.calls
    ensures Others(server, old(server.calls), server.calls, old(server.partitions), server.partitions, [])
    ensures server.tableLocation == location || (!ok && server.tableLocation == old(server.tableLocation))
    ensures !ok ==> server.Troubled(old(server.calls), server.calls) || (!tableUpdated && old(server.tableVersion) != boundVersion)
    ensures ok ==> tableUpdated || old(server.tableVersion) == boundVersion
    ensures server.Quiet() ==> server.partitions == old(server.partitions)
  {
    hide Others;
    ghost var from, start := server.calls, server.partitions;
    NothingOthers(server, from, start);
    var version := boundVersion;
    if tableUpdated {
      var fetched := FetchVersion(server);
      if fetched.None? {
        return false;
      }
      version := fetched.value;
    }
    ghost var request, before := server.calls, server.partitions;
    ok := server.UpdateTable(version, location);
    OneAnswer(server, request, before, [], 0, []);
    hide GlueServer.Troubled, AfterOthers;
    NoneNamed(server, request, server.calls, before, server.partitions, []);
    OthersTwice(server, from, request, server.calls, start, before, server.partitions, [], [], []);
    if server.Troubled(request, server.calls) {
      TroubledWithin(server, from, request, server.calls, server.calls);
    }
  }

  /** One rewriting action, with everything before it sent. */
  method Rewrite(server: GlueServer, step: Step, checked: Option<string>, boundVersion: nat, tableUpdated: bool) returns (ok: bool)
    requires !step.Add? && !step.Drop? && (step.Rename? ==> checked.Some?)
    modifies server
    ensures old(server.calls) <= server.calls
    ensures Others(server, old(server.calls), server.calls, old(server.partitions), server.partitions, [step])
    ensures ok ==> Holds(server, old(server.calls), server.calls, server.partitions, step)
    ensures !step.SetTableLocation? ==> server.tableLocation == old(server.tableLocation)
    ensures step.SetTableLocation? ==> server.tableLocation == step.location || (!ok && server.tableLocation == old(server.tableLocation))
    ensures !step.SetTableLocation? ==> server.tableVersion == old(server.tableVersion)
    ensures var meant := Taken(Definition(old(server.partitions), old(server.tableLocation)), step, checked);
            server.Quiet() && (!tableUpdated ==> old(server.tableVersion) == boundVersion) ==>
              if ok then meant == Some(Definition(server.partitions, server.tableLocation))
              else server.Troubled(old(server.calls), server.calls) || meant.None?
  {
    hide Others;
    match step
    case Rename(_, _) => ok := RenamePartition(server, step, checked.value);
    case SetPartitionLocation(_, _, _) => ok := SetLocationOfPartition(server, step, checked);
    case SetTableLocation(location) =>
      ghost var from, start := server.calls, server.partitions;
      ok := SetLocationOfTable(server, location, boundVersion, tableUpdated);
      NothingDone(server, server.calls, server.partitions, []);
      NoneNamed(server, server.calls, server.calls, server.partitions, server.partitions, []);
      OthersTwice(server, from, server.calls, server.calls, start, server.partitions, server.partitions, [], [], [step]);
  }

  lemma OthersOfAll(server: GlueServer, from: nat, middle: nat, to: nat, start: Partitions, before: Partitions, after: Partitions,
                    steps: seq<Step>, sent: nat, end: nat)
    requires sent <= end <= |steps| && from <= middle <= to && Kept(server, from, middle, start, before, steps, sent)
    requires Others(server, middle, to, before, after, steps[sent..end])
    ensures Others(server, from, to, start, after, steps)
  {
    hide Others, Named;
    NamedParts(steps, sent, end);
    NamedParts(steps, sent, |steps|);
    OthersTwice(server, from, middle, to, start, before, after, steps[..sent], steps[sent..end], steps);
  }

  /** Sends what waits and can not go out together with the step. */
  method FlushOthers(server: GlueServer, ghost exact: bool, ghost from: nat, ghost start: Definition, steps: seq<Step>, ghost sent: nat,
                     i: nat, step: Step, adds: seq<PartitionInput>, drops: seq<Values>)
    returns (ok: bool, addsLeft: seq<PartitionInput>, dropsLeft: seq<Values>, ghost sentAfter: nat)
    requires server.Valid() && from <= server.calls && (exact ==> server.Quiet())
    requires Under(server, exact, from, server.calls, start, Definition(server.partitions, server.tableLocation), steps, sent, i, adds, drops)
    modifies server`partitions, server`calls, server`history
    ensures old(server.calls) <= server.calls && (!ok ==> server.Troubled(old(server.calls), server.calls))
    ensures addsLeft == (if step.Add? then adds else []) && dropsLeft == if step.Drop? then drops else []
    ensures ok ==> Under(server, exact, from, server.calls, start, Definition(server.partitions, server.tableLocation), steps,
                         sentAfter, i, addsLeft, dropsLeft)
    ensures !ok ==> Others(server, from, server.calls, start.partitions, server.partitions, steps)
  {
    hide InStep, Flushed, Kept, Survives, Spares, Others, Holds, AllGone;
    ok, addsLeft, dropsLeft, sentAfter := true, if step.Add? then adds else [], if step.Drop? then drops else [], sent;
    ghost var middle, before, location := server.calls, server.partitions, server.tableLocation;
    if adds != [] && !step.Add? {
      ok := FlushAdds(server, adds);
      AddsHold(server, middle, server.calls, before, server.partitions, steps, sent, i, adds);
    } else if drops != [] && !step.Drop? {
      ok := FlushDrops(server, drops);
      DropsHold(server, middle, server.calls, before, server.partitions, steps, sent, i, drops);
    } else {
      return;
    }
    if ok {
      KeptMore(server, from, middle, server.calls, start.partitions, before, server.partitions, steps, sent, i);
      sentAfter := i;
      if exact {
        SentIs(start, before, server.partitions, location, steps, i, adds, drops);
      }
    } else {
      OthersOfAll(server, from, middle, server.calls, start.partitions, before, server.partitions, steps, sent, i);
    }
  }

  /** Sent whole, what waited is in the partitions. */
  lemma SentIs(start: Definition, before: Partitions, after: Partitions, tableLocation: string, steps: seq<Step>, i: nat,
               adds: seq<PartitionInput>, drops: seq<Values>)
    requires i <= |steps| && InStep(start, before, tableLocation, steps, i, adds, drops)
    requires (drops == [] && (DistinctInputs(adds) ==> after == Created(before, adds))) || (adds == [] && after == Flushed(before, [], drops))
    ensures InStep(start, after, tableLocation, steps, i, [], [])
  {
    hide AsTaken;
    NothingWaits(after);
  }

  /** An add or a drop waits to be sent with its neighbours; any other action is taken at once. */
  method TakeStep(server: GlueServer, ghost exact: bool, ghost from: nat, ghost start: Definition, steps: seq<Step>, ghost sent: nat,
                  i: nat, adds: seq<PartitionInput>, drops: seq<Values>, checked: Option<string>, boundVersion: nat, tableUpdated: bool)
    returns (ok: bool, moreAdds: seq<PartitionInput>, moreDrops: seq<Values>, updated: bool, ghost sentAfter: nat)
    requires server.Valid() && i < |steps| && from <= server.calls
    requires exact ==> server.Quiet() && DistinctAdds(steps) && (!tableUpdated ==> server.tableVersion == boundVersion)
    requires Under(server, exact, from, server.calls, start, Definition(server.partitions, server.tableLocation), steps, sent, i, adds, drops)
    requires (!steps[i].Add? ==> adds == []) && (!steps[i].Drop? ==> drops == [])
    requires steps[i].Rename? ==> checked.Some? && (exact ==> checked == CheckedLocation(start.partitions, steps[i]))
    modifies server
    ensures old(server.calls) <= server.calls
    ensures ok ==> Under(server, exact, from, server.calls, start, Definition(server.partitions, server.tableLocation), steps,
                         sentAfter, i + 1, moreAdds, moreDrops)
    ensures ok ==> server.tableLocation == if steps[i].SetTableLocation? then steps[i].location else old(server.tableLocation)
    ensures !ok ==> Others(server, from, server.calls, start.partitions, server.partitions, steps)
    ensures exact ==> !updated ==> server.tableVersion == boundVersion
    ensures exact && !ok ==> server.Troubled(old(server.calls), server.calls) || AsTaken(start, steps[..i + 1]).None?
  {
    hide Kept, Others, Holds, Flushed, DistinctAdds;
    ok, moreAdds, moreDrops, updated, sentAfter := true, adds, drops, tableUpdated, sent;
    var step := steps[i];
    WaitsMore(steps, sent, i, adds, drops);
    match step
    case Add(v, location, _) =>
      if exact {
        AddWaits(start, server.partitions, server.tableLocation, steps, i, adds);
      }
      moreAdds := adds + [PartitionInput(v, location)];
    case Drop(v, _) =>
      if exact {
        DropWaits(start, server.partitions, server.tableLocation, steps, i, drops);
      }
      if v !in drops {
        moreDrops := drops + [v];
      }
    case _ =>
      NoneWaits(steps, sent, i);
      ok := TakeRewrite(server, exact, from, start, steps, i, checked, boundVersion, tableUpdated);
      updated, sentAfter := tableUpdated || step.SetTableLocation?, i + 1;
  }

  method TakeRewrite(server: GlueServer, ghost exact: bool, ghost from: nat, ghost start: Definition, steps: seq<Step>, i: nat,
                     checked: Option<string>, boundVersion: nat, tableUpdated: bool)
    returns (ok: bool)
    requires i < |steps| && from <= server.calls && !steps[i].Add? && !steps[i].Drop?
    requires exact ==> server.Quiet() && (!tableUpdated ==> server.tableVersion == boundVersion)
    requires Under(server, exact, from, server.calls, start, Definition(server.partitions, server.tableLocation), steps, i, i, [], [])
    requires steps[i].Rename? ==> checked.Some? && (exact ==> checked == CheckedLocation(start.partitions, steps[i]))
    modifies server
    ensures old(server.calls) <= server.calls
    ensures ok ==> Under(server, exact, from, server.calls, start, Definition(server.partitions, server.tableLocation), steps,
                         i + 1, i + 1, [], [])
    ensures ok ==> server.tableLocation == if steps[i].SetTableLocation? then steps[i].location else old(server.tableLocation)
    ensures !ok ==> Others(server, from, server.calls, start.partitions, server.partitions, steps)
    ensures !steps[i].SetTableLocation? ==> server.tableVersion == old(server.tableVersion)
    ensures exact && !ok ==> server.Troubled(old(server.calls), server.calls) || AsTaken(start, steps[..i + 1]).None?
  {
    hide Kept, Others, Holds, Flushed, DistinctAdds, AsTaken, Taken, CheckedLocation;
    ghost var middle, before := server.calls, Definition(server.partitions, server.tableLocation);
    if exact {
      TakenSoFar(start, before, steps, i);
    }
    ok := Rewrite(server, steps[i], checked, boundVersion, tableUpdated);
    assert steps[i..i + 1] == [steps[i]];
    if ok {
      KeptMore(server, from, middle, server.calls, start.partitions, before.partitions, server.partitions, steps, i, i + 1);
      if exact {
        NextTaken(start, Definition(server.partitions, server.tableLocation), steps, i);
      }
    } else {
      OthersOfAll(server, from, middle, server.calls, start.partitions, before.partitions, server.partitions, steps, i, i + 1);
    }
  }

  lemma TakenSoFar(start: Definition, now: Definition, steps: seq<Step>, i: nat)
    requires i < |steps| && InStep(start, now.partitions, now.tableLocation, steps, i, [], [])
    ensures AsTaken(start, steps[..i]) == Some(now)
    ensures AsTaken(start, steps[..i + 1]) == Taken(now, steps[i], CheckedLocation(start.partitions, steps[i]))
    ensures !steps[i].Rename? ==> forall checked :: Taken(now, steps[i], checked) == Taken(now, steps[i], None)
  {
    NothingWaits(now.partitions);
    OneMoreTaken(start, steps, i);
  }

  lemma NextTaken(start: Definition, now: Definition, steps: seq<Step>, i: nat)
    requires i < |steps| && AsTaken(start, steps[..i + 1]) == Some(now)
    ensures InStep(start, now.partitions, now.tableLocation, steps, i + 1, [], [])
  {
    NothingWaits(now.partitions);
  }

  /** The table's location after the actions: the last one they give it. */
  function LocationAfter(tableLocation: string, steps: seq<Step>): string {
    if steps == [] then tableLocation
    else
      var last := steps[|steps| - 1];
      if last.SetTableLocation? then last.location else LocationAfter(tableLocation, steps[..|steps| - 1])
  }

  lemma LocationNext(tableLocation: string, steps: seq<Step>, i: nat)
    requires i < |steps|
    ensures LocationAfter(tableLocation, steps[..i + 1]) ==
            if steps[i].SetTableLocation? then steps[i].location else LocationAfter(tableLocation, steps[..i])
  {
    assert steps[..i + 1][..i] == steps[..i];
  }

  method ApplyAll(server: GlueServer, ghost exact: bool, steps: seq<Step>, checked: seq<Option<string>>, boundVersion: nat)
    returns (ok: bool, rows: seq<Step>)
    requires server.Valid() && |checked| == |steps|
    requires exact ==> server.Quiet() && DistinctAdds(steps) && server.tableVersion == boundVersion
    requires forall i | 0 <= i < |steps| && steps[i].Rename? ::
               checked[i].Some? && (exact ==> checked[i] == CheckedLocation(server.partitions, steps[i]))
    modifies server
    ensures old(server.calls) <= server.calls
    ensures Others(server, old(server.calls), server.calls, old(server.partitions), server.partitions, steps)
    ensures ok ==> rows == steps && server.tableLocation == LocationAfter(old(server.tableLocation), steps)
    ensures ok ==> Kept(server, old(server.calls), server.calls, old(server.partitions), server.partitions, steps, |steps|)
    ensures var start, end := Definition(old(server.partitions), old(server.tableLocation)), Definition(server.partitions, server.tableLocation);
            exact ==> if ok then AsTaken(start, steps) == Some(end)
                      else server.Troubled(old(server.calls), server.calls) || AsTaken(start, steps).None?
  {
    hide AsTaken, DistinctAdds, Under, Kept, Others, LocationAfter;
    ghost var from, start := server.calls, Definition(server.partitions, server.tableLocation);
    var adds: seq<PartitionInput>, drops: seq<Values> := [], [];
    NothingUnder(server, exact, from, start, steps);
    var tableUpdated := false;
    ghost var sent := 0;
    rows := [];
    for i := 0 to |steps|
      invariant from <= server.calls && rows == steps[..i]
      invariant Under(server, exact, from, server.calls, start, Definition(server.partitions, server.tableLocation), steps, sent, i, adds, drops)
      invariant exact ==> !tableUpdated ==> server.tableVersion == boundVersion
      invariant server.tableLocation == LocationAfter(start.tableLocation, steps[..i])
    {
      ghost var middle := server.calls;
      LocationNext(start.tableLocation, steps, i);
      ok, adds, drops, sent := FlushOthers(server, exact, from, start, steps, sent, i, steps[i], adds, drops);
      if ok {
        middle := server.calls;
        ok, adds, drops, tableUpdated, sent :=
          TakeStep(server, exact, from, start, steps, sent, i, adds, drops, checked[i], boundVersion, tableUpdated);
      }
      if !ok {
        if server.Troubled(middle, server.calls) {
          TroubledWithin(server, from, middle, server.calls, server.calls);
        } else if exact {
          NoneStays(start, steps, i + 1);
        }
        return;
      }
      rows := rows + [steps[i]];
    }
    assert steps[..|steps|] == steps;
    ghost var middle := server.calls;
    ok, adds, drops, sent := FlushOthers(server, exact, from, start, steps, sent, |steps|, SetTableLocation(""), adds, drops);
    if ok {
      AllUnder(server, exact, from, start, Definition(server.partitions, server.tableLocation), steps, sent);
    } else {
      TroubledWithin(server, from, middle, server.calls, server.calls);
    }
  }

  lemma NothingUnder(server: GlueServer, exact: bool, from: nat, start: Definition, steps: seq<Step>)
    ensures Under(server, exact, from, from, start, start, steps, 0, 0, [], [])
    ensures LocationAfter(start.tableLocation, steps[..0]) == start.tableLocation
  {
    NothingTaken(start, steps);
  }

  lemma SomeWaits(steps: seq<Step>, sent: nat, i: nat, adds: seq<PartitionInput>, drops: seq<Values>)
    requires Waits(steps, sent, i, adds, drops) && sent < i
    ensures adds != [] || drops != []
  {
    assert steps[sent].Add? || steps[sent].Drop?;
  }

  lemma NoneWaits(steps: seq<Step>, sent: nat, i: nat)
    requires Waits(steps, sent, i, [], [])
    ensures sent == i
  {
    if sent < i {
      SomeWaits(steps, sent, i, [], []);
    }
  }

  lemma AllUnder(server: GlueServer, exact: bool, from: nat, start: Definition, end: Definition, steps: seq<Step>, sent: nat)
    requires from <= server.calls && Under(server, exact, from, server.calls, start, end, steps, sent, |steps|, [], [])
    ensures Kept(server, from, server.calls, start.partitions, end.partitions, steps, |steps|)
    ensures Others(server, from, server.calls, start.partitions, end.partitions, steps)
    ensures exact ==> AsTaken(start, steps) == Some(end)
  {
    hide AsTaken, Holds;
    NoneWaits(steps, sent, |steps|);
    assert steps[..|steps|] == steps;
    if exact {
      AllTaken(start, end.partitions, end.tableLocation, steps);
    }
  }

  /** The action is the last word on its partitions, and it holds unless another client undid it. */
  ghost predicate LastWords(server: GlueServer, from: nat, to: nat, now: Partitions, steps: seq<Step>) {
    forall j | 0 <= j < |steps| && Final(steps, j, |steps|) :: Holds(server, from, to, now, steps[j])
  }

  /** The main result, whatever other clients write: a statement its checks refuse changed nothing; one that succeeds
      reports each action once, and each that no later one speaks to holds unless another client undid it; and no other
      partition is touched, on failure neither. When nobody else writes, and adds sent together differ, a statement that
      succeeds did what its actions do with renames as checked, which is what they do one by one exactly when no
      location is lost; and one that fails after its checks met trouble, or an action that can not be done. */
  method GlueAlterTableApply(server: GlueServer, steps: seq<Step>, boundVersion: nat) returns (outcome: Outcome, rows: seq<Step>)
    requires server.Valid()
    modifies server
    ensures old(server.calls) <= server.calls
    ensures outcome == Refused ==> exists i | 0 <= i < |steps| :: SeenRefusing(server.history, |old(server.history)|, steps[i])
    ensures outcome == Refused ==> Others(server, old(server.calls), server.calls, old(server.partitions), server.partitions, [])
    ensures outcome == Refused ==> server.tableLocation == old(server.tableLocation) && server.tableVersion == old(server.tableVersion)
    ensures Others(server, old(server.calls), server.calls, old(server.partitions), server.partitions, steps)
    ensures outcome == Applied ==> rows == steps && server.tableLocation == LocationAfter(old(server.tableLocation), steps)
    ensures outcome == Applied ==> LastWords(server, old(server.calls), server.calls, server.partitions, steps)
    ensures var start, end := Definition(old(server.partitions), old(server.tableLocation)), Definition(server.partitions, server.tableLocation);
            server.Quiet() && DistinctAdds(steps) && old(server.tableVersion) == boundVersion ==>
              match outcome
              case Refused => !Checked(start.partitions, steps) && end == start
              case Applied => Checked(start.partitions, steps) && AsTaken(start, steps) == Some(end)
                              && (OneByOne(start, steps) == Some(end) <==> Lost(start, steps) == {})
              case Failed => server.Troubled(old(server.calls), server.calls) ||
                             (Checked(start.partitions, steps) && OneByOne(start, steps).None?)
  {
    hide AsTaken, OneByOne, Lost, Others, Kept, Passed, Spares, SeenRefusing, DistinctAdds, Checked;
    ghost var from, start, since := server.calls, Definition(server.partitions, server.tableLocation), |server.history|;
    ghost var exact := server.Quiet() && DistinctAdds(steps) && server.tableVersion == boundVersion;
    rows := [];
    var checked;
    outcome, checked := CheckAll(server, steps);
    NoneNamed(server, from, server.calls, start.partitions, server.partitions, []);
    NoneNamed(server, from, server.calls, start.partitions, server.partitions, steps);
    QuietChecks(server.history, since, start.partitions, steps, checked);
    if outcome != Applied {
      return;
    }
    RenamesSeen(server.history, since, steps, checked);
    ghost var middle, before := server.calls, server.partitions;
    var ok;
    ok, rows := ApplyAll(server, exact, steps, checked, boundVersion);
    outcome := if ok then Applied else Failed;
    OthersTwice(server, from, middle, server.calls, start.partitions, before, server.partitions, [], steps, steps);
    if ok {
      LastWordsWithin(server, from, middle, server.calls, before, server.partitions, steps);
    } else if server.Troubled(middle, server.calls) {
      TroubledWithin(server, from, middle, server.calls, server.calls);
    }
    if exact {
      EndsOneByOneExactlyWhen(start, steps);
    }
  }

  lemma LastWordsWithin(server: GlueServer, from: nat, middle: nat, to: nat, start: Partitions, now: Partitions, steps: seq<Step>)
    requires from <= middle <= to && Kept(server, middle, to, start, now, steps, |steps|)
    ensures LastWords(server, from, to, now, steps)
  {
    hide Holds, Others;
    forall j | 0 <= j < |steps| && Final(steps, j, |steps|)
      ensures Holds(server, from, to, now, steps[j])
    {
      HoldsWithin(server, from, middle, to, now, steps[j]);
    }
  }

  lemma RenamesSeen(history: seq<Partitions>, since: nat, steps: seq<Step>, checked: seq<Option<string>>)
    requires |checked| == |steps| && forall i | 0 <= i < |steps| :: Passed(history, since, steps[i], checked[i])
    ensures forall i | 0 <= i < |steps| && steps[i].Rename? :: checked[i].Some?
  {
    hide Seen;
    forall i | 0 <= i < |steps| && steps[i].Rename?
      ensures checked[i].Some?
    {
      assert Passed(history, since, steps[i], checked[i]);
    }
  }

  /** The checks are exact when nobody else writes. */
  lemma QuietChecks(history: seq<Partitions>, since: nat, partitions: Partitions, steps: seq<Step>, checked: seq<Option<string>>)
    ensures (forall n | since <= n < |history| :: history[n] == partitions) ==>
              && ((exists i | 0 <= i < |steps| :: SeenRefusing(history, since, steps[i])) ==> !Checked(partitions, steps))
              && (|checked| == |steps| && (forall i | 0 <= i < |steps| :: Passed(history, since, steps[i], checked[i])) ==>
                    && Checked(partitions, steps)
                    && forall i | 0 <= i < |steps| && steps[i].Rename? :: checked[i] == CheckedLocation(partitions, steps[i]))
  {
    hide Passed, SeenRefusing, Refuses, CheckedLocation;
    if forall n | since <= n < |history| :: history[n] == partitions {
      forall i | 0 <= i < |steps|
        ensures SeenRefusing(history, since, steps[i]) ==> Refuses(partitions, steps[i])
        ensures |checked| == |steps| && Passed(history, since, steps[i], checked[i]) ==>
                  !Refuses(partitions, steps[i]) && (steps[i].Rename? ==> checked[i] == CheckedLocation(partitions, steps[i]))
      {
        QuietPassed(history, since, partitions, steps[i], if |checked| == |steps| then checked[i] else None);
      }
    }
  }
}
