/** Glue's partitions behind its batch requests. The server is not trusted: it may fail any request, refuse or leave
    unprocessed any of the partitions sent, even after doing what was asked, and other clients add and remove partitions
    between any two requests. What it will do is a script, so that every behaviour is one of its scripts. */
module GlueService {
  import opened Outcomes

  type Values = seq<string>

  datatype PartitionInput = PartitionInput(values: Values, location: string)

  datatype PartitionError = PartitionError(values: Values, code: string)

  /** What the server makes of one partition of a request. */
  datatype Verdict = Accept | Refuse(code: string) | ApplyAndRefuse(code: string)

  /** One request's turn: what others did before it, whether it fails as a whole, whether only its answer is lost then,
      and the verdicts on what it sends. */
  datatype Turn = Turn(removed: set<Values>, added: map<Values, string>, fails: bool, lost: bool, verdict: Values -> Verdict) {
    /** The request does what it asks for, whatever is answered. */
    predicate Acts() {
      !fails || lost
    }
  }

  type Partitions = map<Values, string>

  /** Codes that may pass when the partition is sent again. */
  predicate IsTransientPartitionError(code: string) {
    code == "ThrottlingException" || code == "InternalServiceException" || code == "OperationTimeoutException" ||
    code == "ConcurrentModificationException"
  }

  const ALREADY_EXISTS := "AlreadyExistsException"
  const NOT_FOUND := "EntityNotFoundException"

  function AfterOthers(partitions: Partitions, turn: Turn): Partitions {
    turn.added + (partitions - turn.removed)
  }

  function CreateOne(partitions: Partitions, input: PartitionInput, verdict: Verdict): (Partitions, seq<PartitionError>) {
    if input.values in partitions then (partitions, [PartitionError(input.values, ALREADY_EXISTS)])
    else
      match verdict
      case Accept => (partitions[input.values := input.location], [])
      case Refuse(code) => (partitions, [PartitionError(input.values, code)])
      case ApplyAndRefuse(code) => (partitions[input.values := input.location], [PartitionError(input.values, code)])
  }

  /** The server is free: of a partition it does not have it may create what it is sent or not, and say so or give any
      error; one it has it leaves, and says so. */
  lemma CreatesAtWill(partitions: Partitions, input: PartitionInput, code: string)
    ensures input.values in partitions ==> forall v: Verdict ::
              CreateOne(partitions, input, v) == (partitions, [PartitionError(input.values, "AlreadyExistsException")])
    ensures input.values !in partitions ==>
              && (exists v: Verdict :: CreateOne(partitions, input, v) == (partitions[input.values := input.location], []))
              && (exists v: Verdict :: CreateOne(partitions, input, v) == (partitions, [PartitionError(input.values, code)]))
              && (exists v: Verdict :: CreateOne(partitions, input, v) ==
                    (partitions[input.values := input.location], [PartitionError(input.values, code)]))
  {
    if input.values !in partitions {
      assert CreateOne(partitions, input, Accept) == (partitions[input.values := input.location], []);
      assert CreateOne(partitions, input, Refuse(code)) == (partitions, [PartitionError(input.values, code)]);
      assert CreateOne(partitions, input, ApplyAndRefuse(code)) ==
             (partitions[input.values := input.location], [PartitionError(input.values, code)]);
    }
  }

  /** The same for deletes. */
  lemma DeletesAtWill(partitions: Partitions, values: Values, code: string)
    ensures values !in partitions ==> forall v: Verdict ::
              DeleteOne(partitions, values, v) == (partitions, [PartitionError(values, "EntityNotFoundException")])
    ensures values in partitions ==>
              && (exists v: Verdict :: DeleteOne(partitions, values, v) == (partitions - {values}, []))
              && (exists v: Verdict :: DeleteOne(partitions, values, v) == (partitions, [PartitionError(values, code)]))
              && (exists v: Verdict :: DeleteOne(partitions, values, v) == (partitions - {values}, [PartitionError(values, code)]))
  {
    if values in partitions {
      assert DeleteOne(partitions, values, Accept) == (partitions - {values}, []);
      assert DeleteOne(partitions, values, Refuse(code)) == (partitions, [PartitionError(values, code)]);
      assert DeleteOne(partitions, values, ApplyAndRefuse(code)) == (partitions - {values}, [PartitionError(values, code)]);
    }
  }

  /** A request that fails may have been done or not. */
  lemma FailsAtWill(turn: Turn)
    ensures turn.(fails := true, lost := true).Acts() && !turn.(fails := true, lost := false).Acts()
    ensures turn.(fails := false).Acts()
  {
  }

  function CreateAll(partitions: Partitions, inputs: seq<PartitionInput>, verdict: Values -> Verdict)
    : (Partitions, seq<PartitionError>)
  {
    if inputs == [] then (partitions, [])
    else
      var (before, errors) := CreateAll(partitions, inputs[..|inputs| - 1], verdict);
      var last := inputs[|inputs| - 1];
      var (after, more) := CreateOne(before, last, verdict(last.values));
      (after, errors + more)
  }

  function DeleteOne(partitions: Partitions, values: Values, verdict: Verdict): (Partitions, seq<PartitionError>) {
    if values !in partitions then (partitions, [PartitionError(values, NOT_FOUND)])
    else
      match verdict
      case Accept => (partitions - {values}, [])
      case Refuse(code) => (partitions, [PartitionError(values, code)])
      case ApplyAndRefuse(code) => (partitions - {values}, [PartitionError(values, code)])
  }

  function DeleteAll(partitions: Partitions, keys: seq<Values>, verdict: Values -> Verdict)
    : (Partitions, seq<PartitionError>)
  {
    if keys == [] then (partitions, [])
    else
      var (before, errors) := DeleteAll(partitions, keys[..|keys| - 1], verdict);
      var last := keys[|keys| - 1];
      var (after, more) := DeleteOne(before, last, verdict(last));
      (after, errors + more)
  }

  /** The keys a lookup does not get to, in the order sent. */
  function Unprocessed(keys: seq<Values>, verdict: Values -> Verdict): (r: seq<Values>)
    ensures |r| <= |keys|
    ensures forall k :: k in r <==> k in keys && !verdict(k).Accept?
  {
    if keys == [] then []
    else
      var last := keys[|keys| - 1];
      assert keys == keys[..|keys| - 1] + [last];
      Unprocessed(keys[..|keys| - 1], verdict) + if verdict(last).Accept? then [] else [last]
  }

  lemma {:induction false} DeleteAllMeans(partitions: Partitions, keys: seq<Values>, verdict: Values -> Verdict)
    ensures var (after, errors) := DeleteAll(partitions, keys, verdict);
            && (forall k | k in after :: k in partitions && after[k] == partitions[k])
            && (forall k | k in partitions && k !in keys :: k in after)
            && (forall e | e in errors :: e.values in keys)
            && (forall v | v in keys && v in after :: verdict(v).Refuse? && PartitionError(v, verdict(v).code) in errors)
            && |errors| <= |keys|
  {
    if keys != [] {
      var front, last := keys[..|keys| - 1], keys[|keys| - 1];
      DeleteAllMeans(partitions, front, verdict);
      assert keys == front + [last];
    }
  }

  /** An error is about a partition sent, and says that there is none or what the verdict on it is. */
  lemma {:induction false} DeleteErrors(partitions: Partitions, keys: seq<Values>, verdict: Values -> Verdict)
    ensures forall e | e in DeleteAll(partitions, keys, verdict).1 ::
              e.values in keys && (e.code == NOT_FOUND || (!verdict(e.values).Accept? && verdict(e.values).code == e.code))
  {
    if keys != [] {
      var front, last := keys[..|keys| - 1], keys[|keys| - 1];
      DeleteErrors(partitions, front, verdict);
      assert keys == front + [last];
    }
  }

  lemma {:induction false} CreateErrors(partitions: Partitions, inputs: seq<PartitionInput>, verdict: Values -> Verdict)
    ensures forall e | e in CreateAll(partitions, inputs, verdict).1 ::
              && (exists i | 0 <= i < |inputs| :: inputs[i].values == e.values)
              && (e.code == ALREADY_EXISTS || (!verdict(e.values).Accept? && verdict(e.values).code == e.code))
  {
    if inputs != [] {
      var n := |inputs| - 1;
      var front, last := inputs[..n], inputs[n];
      CreateErrors(partitions, front, verdict);
      var (before, errors) := CreateAll(partitions, front, verdict);
      forall e | e in CreateAll(partitions, inputs, verdict).1
        ensures exists i | 0 <= i < |inputs| :: inputs[i].values == e.values
      {
        if e in errors {
          var i :| 0 <= i < |front| && front[i].values == e.values;
          assert inputs[i] == front[i];
        } else {
          assert inputs[n].values == e.values;
        }
      }
    }
  }

  predicate DistinctInputs(inputs: seq<PartitionInput>) {
    forall i, j | 0 <= i < j < |inputs| :: inputs[i].values != inputs[j].values
  }

  lemma {:induction false} CreateAllMeans(partitions: Partitions, inputs: seq<PartitionInput>, verdict: Values -> Verdict)
    ensures var (after, errors) := CreateAll(partitions, inputs, verdict);
            && (forall k | k in partitions :: k in after && after[k] == partitions[k])
            && |errors| <= |inputs|
            && (forall e | e in errors && e.code == ALREADY_EXISTS :: e.values in after || verdict(e.values).Refuse?)
            && (forall i | 0 <= i < |inputs| :: inputs[i].values in after ||
                  (verdict(inputs[i].values).Refuse? && PartitionError(inputs[i].values, verdict(inputs[i].values).code) in errors))
  {
    if inputs != [] {
      var front, last := inputs[..|inputs| - 1], inputs[|inputs| - 1];
      CreateAllMeans(partitions, front, verdict);
      assert forall i | 0 <= i < |front| :: front[i] == inputs[i];
    }
  }

  /** A request adds nothing but what it sends. */
  lemma {:induction false} CreateAllAdds(partitions: Partitions, inputs: seq<PartitionInput>, verdict: Values -> Verdict)
    ensures var after := CreateAll(partitions, inputs, verdict).0;
            forall k | k in after :: (k in partitions && after[k] == partitions[k]) || PartitionInput(k, after[k]) in inputs
  {
    if inputs != [] {
      var front, last := inputs[..|inputs| - 1], inputs[|inputs| - 1];
      CreateAllAdds(partitions, front, verdict);
      assert inputs == front + [last];
    }
  }

  predicate OneErrorEach(inputs: seq<PartitionInput>, errors: seq<PartitionError>) {
    && (forall k | 0 <= k < |errors| :: exists i | 0 <= i < |inputs| :: inputs[i].values == errors[k].values)
    && (forall i, j | 0 <= i < j < |errors| :: errors[i].values != errors[j].values)
  }

  /** The errors name partitions sent, each at most once when the inputs are distinct. */
  lemma {:induction false} DistinctErrors(partitions: Partitions, inputs: seq<PartitionInput>, verdict: Values -> Verdict)
    requires DistinctInputs(inputs)
    ensures OneErrorEach(inputs, CreateAll(partitions, inputs, verdict).1)
  {
    if inputs != [] {
      var front, last := inputs[..|inputs| - 1], inputs[|inputs| - 1];
      DistinctErrors(partitions, front, verdict);
      var (before, errors) := CreateAll(partitions, front, verdict);
      var more := CreateOne(before, last, verdict(last.values)).1;
      assert |more| <= 1 && (more != [] ==> more[0].values == last.values);
      ErrorAppended(front, last, errors, more);
      assert inputs == front + [last];
    }
  }

  lemma ErrorAppended(front: seq<PartitionInput>, last: PartitionInput, errors: seq<PartitionError>, more: seq<PartitionError>)
    requires OneErrorEach(front, errors) && |more| <= 1 && (more != [] ==> more[0].values == last.values)
    requires DistinctInputs(front + [last])
    ensures OneErrorEach(front + [last], errors + more)
  {
    var inputs, all := front + [last], errors + more;
    assert inputs[|front|] == last && forall i | 0 <= i < |front| :: inputs[i] == front[i];
    forall k | 0 <= k < |errors|
      ensures errors[k].values != last.values && exists i | 0 <= i < |inputs| :: inputs[i].values == errors[k].values
    {
      var i :| 0 <= i < |front| && front[i].values == errors[k].values;
      assert inputs[i].values != inputs[|front|].values;
    }
  }

  /** With distinct inputs, an error that says a partition exists is about one that was there before. */
  lemma {:induction false} ExistingWere(partitions: Partitions, inputs: seq<PartitionInput>, turn: Turn)
    requires DistinctInputs(inputs) && Honest(turn)
    ensures forall e | e in CreateAll(partitions, inputs, turn.verdict).1 && e.code == ALREADY_EXISTS :: e.values in partitions
  {
    if inputs != [] {
      var front, last := inputs[..|inputs| - 1], inputs[|inputs| - 1];
      ExistingWere(partitions, front, turn);
      CreateAllAdds(partitions, front, turn.verdict);
      assert forall i | 0 <= i < |front| :: front[i] == inputs[i];
    }
  }

  /** With distinct inputs, each is created as sent or has an error. */
  lemma {:induction false} DistinctCreated(partitions: Partitions, inputs: seq<PartitionInput>, verdict: Values -> Verdict, i: nat)
    requires DistinctInputs(inputs) && i < |inputs|
    ensures var (after, errors) := CreateAll(partitions, inputs, verdict);
            (exists e :: e in errors && e.values == inputs[i].values) ||
            (inputs[i].values in after && after[inputs[i].values] == inputs[i].location)
  {
    var front, last := inputs[..|inputs| - 1], inputs[|inputs| - 1];
    var (before, errors) := CreateAll(partitions, front, verdict);
    var (after, all) := CreateAll(partitions, inputs, verdict);
    if i < |front| {
      DistinctCreated(partitions, front, verdict, i);
      assert front[i] == inputs[i] && inputs[i].values != last.values;
      if e :| e in errors && e.values == front[i].values {
        assert e in all;
      }
    } else {
      var more := CreateOne(before, last, verdict(last.values)).1;
      assert all == errors + more;
      assert more != [] ==> more[0] in all;
    }
  }

  /** Errors that say a partition is there, or is not, are only given when that is so. */
  ghost predicate Honest(turn: Turn) {
    forall v: Values :: (turn.verdict(v).Refuse? || turn.verdict(v).ApplyAndRefuse?) ==>
      turn.verdict(v).code != ALREADY_EXISTS && turn.verdict(v).code != NOT_FOUND
  }

  /** Some partition of the request may be refused. */
  ghost predicate Faulty(turn: Turn) {
    turn.fails || exists v: Values :: !turn.verdict(v).Accept?
  }

  /** ... for good, or the request as a whole. */
  ghost predicate Fatal(turn: Turn) {
    turn.fails || exists v: Values :: !turn.verdict(v).Accept? && !IsTransientPartitionError(turn.verdict(v).code)
  }

  /** Throttling, an internal error, a timeout and a conflict may pass when sent again, and no other refusal. */
  lemma FatalExactlyWhen(turn: Turn)
    ensures Fatal(turn) <==>
            || turn.fails
            || (exists v: Values :: !turn.verdict(v).Accept? &&
                  turn.verdict(v).code !in {"ThrottlingException", "InternalServiceException", "OperationTimeoutException",
                                            "ConcurrentModificationException"})
  {
  }

  predicate Updatable(partitions: Partitions, values: Values, newValues: Values) {
    values in partitions && (newValues == values || newValues !in partitions)
  }

  class GlueServer {
    var partitions: Partitions
    var tableLocation: string
    var tableVersion: nat
    var calls: nat
    const script: nat -> Turn
    /** The partitions at each request. */
    ghost var history: seq<Partitions>

    ghost predicate Valid() {
      forall n: nat :: Honest(script(n))
    }

    /** Nobody else writes. */
    ghost predicate Quiet() {
      forall n: nat :: script(n).removed == {} && script(n).added == map[]
    }

    /** Others added, or removed, the partition before one of the requests of a stretch. */
    ghost predicate AddedBetween(from: nat, to: nat, v: Values) {
      exists n :: from <= n < to && v in script(n).added
    }

    ghost predicate RemovedBetween(from: nat, to: nat, v: Values) {
      exists n :: from <= n < to && v in script(n).removed
    }

    /** A request of the stretch failed for good, or as many in a row as are sent had errors that may pass. */
    ghost predicate Troubled(from: nat, to: nat) {
      || (exists n | from <= n < to :: Fatal(script(n)))
      || (exists m {:trigger FourFaulty(m)} | from <= m && m + 4 <= to :: FourFaulty(m))
    }

    ghost predicate FourFaulty(m: nat) {
      forall n | m <= n < m + 4 :: Faulty(script(n))
    }

    constructor (partitions: Partitions, tableLocation: string, script: nat -> Turn)
      ensures this.partitions == partitions && this.script == script && calls == 0 && history == []
      ensures this.tableLocation == tableLocation && tableVersion == 0
    {
      this.partitions, this.script, calls := partitions, script, 0;
      this.tableLocation, tableVersion := tableLocation, 0;
      history := [];
    }

    /** Others act; the request counts. */
    method BeginRequest() returns (turn: Turn)
      modifies this`partitions, this`calls, this`history
      ensures turn == script(old(calls)) && calls == old(calls) + 1
      ensures partitions == AfterOthers(old(partitions), turn)
      ensures history == old(history) + [partitions]
    {
      turn := script(calls);
      calls := calls + 1;
      partitions := turn.added + (partitions - turn.removed);
      history := history + [partitions];
    }

    /** At most 100 in a request. */
    method BatchCreatePartition(inputs: seq<PartitionInput>) returns (errors: Option<seq<PartitionError>>)
      requires |inputs| <= 100
      modifies this`partitions, this`calls, this`history
      ensures calls == old(calls) + 1 && history == old(history) + [AfterOthers(old(partitions), script(old(calls)))]
      ensures var turn := script(old(calls));
              var (after, all) := CreateAll(AfterOthers(old(partitions), turn), inputs, turn.verdict);
              && errors == (if turn.fails then None else Some(all))
              && partitions == if turn.Acts() then after else AfterOthers(old(partitions), turn)
    {
      var turn := BeginRequest();
      var answer := CreateAll(partitions, inputs, turn.verdict);
      errors := if turn.fails then None else Some(answer.1);
      if turn.Acts() {
        partitions := answer.0;
      }
    }

    /** At most 25 in a request. */
    method BatchDeletePartition(keys: seq<Values>) returns (errors: Option<seq<PartitionError>>)
      requires |keys| <= 25
      modifies this`partitions, this`calls, this`history
      ensures calls == old(calls) + 1 && history == old(history) + [AfterOthers(old(partitions), script(old(calls)))]
      ensures var turn := script(old(calls));
              var (after, all) := DeleteAll(AfterOthers(old(partitions), turn), keys, turn.verdict);
              && errors == (if turn.fails then None else Some(all))
              && partitions == if turn.Acts() then after else AfterOthers(old(partitions), turn)
    {
      var turn := BeginRequest();
      var answer := DeleteAll(partitions, keys, turn.verdict);
      errors := if turn.fails then None else Some(answer.1);
      if turn.Acts() {
        partitions := answer.0;
      }
    }

    /** The processed keys' partitions, and the keys left. */
    method BatchGetPartition(keys: seq<Values>) returns (found: Option<Partitions>, unprocessed: seq<Values>)
      requires |keys| <= 1000
      modifies this`partitions, this`calls, this`history
      ensures calls == old(calls) + 1 && partitions == AfterOthers(old(partitions), script(old(calls)))
      ensures history == old(history) + [partitions]
      ensures found.None? <==> script(old(calls)).fails
      ensures unprocessed == Unprocessed(keys, script(old(calls)).verdict)
      ensures found.Some? ==> forall k :: k in found.value <==> k in keys && k !in unprocessed && k in partitions
      ensures found.Some? ==> forall k | k in found.value :: found.value[k] == partitions[k]
    {
      var turn := BeginRequest();
      unprocessed := Unprocessed(keys, turn.verdict);
      found := if turn.fails then None
               else Some(map k | k in keys && k !in unprocessed && k in partitions :: partitions[k]);
    }

    /** One partition, whole; None is a request that failed. */
    method GetPartition(values: Values) returns (found: Option<Option<string>>)
      modifies this`partitions, this`calls, this`history
      ensures calls == old(calls) + 1 && partitions == AfterOthers(old(partitions), script(old(calls)))
      ensures history == old(history) + [partitions]
      ensures found == if script(old(calls)).fails then None
                       else Some(if values in partitions then Some(partitions[values]) else None)
    {
      var turn := BeginRequest();
      found := if turn.fails then None else Some(if values in partitions then Some(partitions[values]) else None);
    }

    /** Replaces a partition, under the same values or others that no partition has. */
    method UpdatePartition(values: Values, input: PartitionInput) returns (ok: bool)
      modifies this`partitions, this`calls, this`history
      ensures calls == old(calls) + 1 && history == old(history) + [AfterOthers(old(partitions), script(old(calls)))]
      ensures var turn := script(old(calls));
              var before := AfterOthers(old(partitions), turn);
              && (ok <==> !turn.fails && Updatable(before, values, input.values))
              && partitions == if turn.Acts() && Updatable(before, values, input.values) then (before - {values})[input.values := input.location] else before
    {
      var turn := BeginRequest();
      ok := !turn.fails && Updatable(partitions, values, input.values);
      if turn.Acts() && Updatable(partitions, values, input.values) {
        partitions := (partitions - {values})[input.values := input.location];
      }
    }

    /** Every partition, fetched page by page. */
    method GetPartitions() returns (found: Option<Partitions>)
      modifies this`partitions, this`calls, this`history
      ensures calls == old(calls) + 1 && partitions == AfterOthers(old(partitions), script(old(calls)))
      ensures history == old(history) + [partitions]
      ensures found == if script(old(calls)).fails then None else Some(partitions)
    {
      var turn := BeginRequest();
      found := if turn.fails then None else Some(partitions);
    }

    method GetTable() returns (found: Option<nat>)
      modifies this`partitions, this`calls, this`history
      ensures calls == old(calls) + 1 && partitions == AfterOthers(old(partitions), script(old(calls)))
      ensures history == old(history) + [partitions]
      ensures found == if script(old(calls)).fails then None else Some(tableVersion)
    {
      var turn := BeginRequest();
      found := if turn.fails then None else Some(tableVersion);
    }

    /** Replaces the table's definition, unless it changed since it was fetched. */
    method UpdateTable(version: nat, location: string) returns (ok: bool)
      modifies this
      ensures calls == old(calls) + 1 && partitions == AfterOthers(old(partitions), script(old(calls)))
      ensures history == old(history) + [partitions]
      ensures ok <==> !script(old(calls)).fails && version == old(tableVersion)
      ensures (tableLocation, tableVersion) == if script(old(calls)).Acts() && version == old(tableVersion) then (location, old(tableVersion) + 1) else (old(tableLocation), old(tableVersion))
    {
      var turn := BeginRequest();
      ok := !turn.fails && version == tableVersion;
      if turn.Acts() && version == tableVersion {
        tableLocation, tableVersion := location, tableVersion + 1;
      }
    }
  }

  lemma TroubledWithin(server: GlueServer, from: nat, a: nat, b: nat, to: nat)
    requires from <= a <= b <= to && server.Troubled(a, b)
    ensures server.Troubled(from, to)
  {
  }

  lemma QuietStays(server: GlueServer, partitions: Partitions, n: nat)
    requires server.Quiet()
    ensures AfterOthers(partitions, server.script(n)) == partitions
  {
  }
}
