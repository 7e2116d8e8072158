/** Catalog entries that running transactions may still use are kept after they are replaced, and freed afterwards. Each
    step is one section under a lock; the steps of different threads interleave in any order. */
module Reclamation {
  import opened Outcomes

  /** A table's entry as built from one version of its definition. The id tells entries apart. */
  datatype Entry = Entry(id: nat, version: nat)

  datatype Retired = Retired(retiredAt: nat, entry: Entry)

  /** The running transactions with their sequence numbers, the live and retired entries; and what is only said of them:
      which entries each running transaction obtained, and which entries were freed. */
  datatype World = World(sequence: map<nat, nat>, nextSequence: nat, retired: seq<Retired>, entries: map<string, Entry>,
                         nextId: nat, held: set<(nat, nat)>, freed: set<nat>)

  datatype Step =
    | Start(transaction: nat)
    | End(transaction: nat)
    | Retire(name: string)
    | Install(name: string, version: nat)
    | Obtain(transaction: nat, name: string)

  /** No running transaction started before the entry was retired. */
  predicate Unused(retiredAt: nat, sequence: map<nat, nat>) {
    forall t | t in sequence :: retiredAt <= sequence[t]
  }

  function Kept(retired: seq<Retired>, sequence: map<nat, nat>): (r: seq<Retired>)
    ensures forall x :: x in r <==> x in retired && !Unused(x.retiredAt, sequence)
  {
    if retired == [] then []
    else
      var last := retired[|retired| - 1];
      assert retired == retired[..|retired| - 1] + [last];
      Kept(retired[..|retired| - 1], sequence) + if Unused(last.retiredAt, sequence) then [] else [last]
  }

  /** A step when its lock is held; None when it can not happen. An entry is installed only where none is. */
  function Next(w: World, step: Step): Option<World> {
    match step
    case Start(t) =>
      if t in w.sequence then None
      else Some(w.(sequence := w.sequence[t := w.nextSequence], nextSequence := w.nextSequence + 1))
    case End(t) =>
      if t !in w.sequence then None
      else
        var running := w.sequence - {t};
        Some(w.(sequence := running, retired := Kept(w.retired, running), held := (set h | h in w.held && h.0 != t),
                freed := w.freed + (set r | r in w.retired && Unused(r.retiredAt, running) :: r.entry.id)))
    case Retire(name) =>
      if name !in w.entries then Some(w)
      else Some(w.(entries := w.entries - {name}, retired := w.retired + [Retired(w.nextSequence, w.entries[name])]))
    case Install(name, version) =>
      if name in w.entries then None
      else Some(w.(entries := w.entries[name := Entry(w.nextId, version)], nextId := w.nextId + 1))
    case Obtain(t, name) =>
      if t !in w.sequence || name !in w.entries then None else Some(w.(held := w.held + {(t, w.entries[name].id)}))
  }

  predicate IsLive(w: World, id: nat) {
    exists name :: name in w.entries && w.entries[name].id == id
  }

  /** The entry waits in the list, retired after the transaction started. */
  predicate Waits(w: World, id: nat, sequenceNumber: nat) {
    exists r :: r in w.retired && r.entry.id == id && r.retiredAt > sequenceNumber
  }

  predicate Distinct(retired: seq<Retired>) {
    forall i, j | 0 <= i < j < |retired| :: retired[i].entry.id != retired[j].entry.id
  }

  /** Sequence numbers and stamps are in the past, and no entry is in two places. */
  ghost predicate Ordered(w: World) {
    && (forall t | t in w.sequence :: w.sequence[t] < w.nextSequence)
    && (forall r | r in w.retired :: r.retiredAt <= w.nextSequence && r.entry.id < w.nextId && r.entry.id !in w.freed)
    && (forall n | n in w.entries :: w.entries[n].id < w.nextId && w.entries[n].id !in w.freed)
    && (forall n, r | n in w.entries && r in w.retired :: w.entries[n].id != r.entry.id)
    && (forall n, m | n in w.entries && m in w.entries && w.entries[n].id == w.entries[m].id :: n == m)
    && (forall id | id in w.freed :: id < w.nextId)
    && Distinct(w.retired)
  }

  /** What a running transaction obtained is live, or was retired after the transaction started. */
  ghost predicate HeldIsKept(w: World) {
    forall h | h in w.held :: h.0 in w.sequence && (IsLive(w, h.1) || Waits(w, h.1, w.sequence[h.0]))
  }

  ghost predicate Safe(w: World) {
    Ordered(w) && HeldIsKept(w)
  }

  lemma {:induction false} KeptDistinct(retired: seq<Retired>, sequence: map<nat, nat>)
    requires Distinct(retired)
    ensures Distinct(Kept(retired, sequence))
  {
    if retired != [] {
      var front, last := retired[..|retired| - 1], retired[|retired| - 1];
      assert Distinct(front);
      KeptDistinct(front, sequence);
      var kept, r := Kept(front, sequence), Kept(retired, sequence);
      forall i, j | 0 <= i < j < |r|
        ensures r[i].entry.id != r[j].entry.id
      {
        assert r[i] == kept[i] && r[i] in kept;
        var k :| 0 <= k < |front| && front[k] == r[i];
        assert retired[k] == r[i] && retired[|retired| - 1] == last;
      }
    }
  }

  lemma EndKeepsOrder(w: World, t: nat)
    requires Ordered(w) && t in w.sequence
    ensures Ordered(Next(w, End(t)).value)
  {
    var running := w.sequence - {t};
    KeptDistinct(w.retired, running);
    var next := Next(w, End(t)).value;
    forall r, s | r in next.retired && s in w.retired && Unused(s.retiredAt, running)
      ensures r.entry.id != s.entry.id
    {
      var i :| 0 <= i < |w.retired| && w.retired[i] == r;
      var j :| 0 <= j < |w.retired| && w.retired[j] == s;
      assert i != j;
    }
  }

  lemma EndKeepsHeld(w: World, t: nat)
    requires Safe(w) && t in w.sequence
    ensures HeldIsKept(Next(w, End(t)).value)
  {
    var next := Next(w, End(t)).value;
    forall h | h in next.held
      ensures h.0 in next.sequence && (IsLive(next, h.1) || Waits(next, h.1, next.sequence[h.0]))
    {
      if !IsLive(w, h.1) {
        var r :| r in w.retired && r.entry.id == h.1 && r.retiredAt > w.sequence[h.0];
        assert h.0 in next.sequence && r.retiredAt > next.sequence[h.0];
        assert r in next.retired;
      } else {
        var name :| name in w.entries && w.entries[name].id == h.1;
        assert name in next.entries;
      }
    }
  }

  lemma RetireKeeps(w: World, name: string)
    requires Safe(w) && name in w.entries
    ensures Safe(Next(w, Retire(name)).value)
  {
    var next := Next(w, Retire(name)).value;
    var retired := Retired(w.nextSequence, w.entries[name]);
    assert retired in next.retired;
    forall h | h in next.held
      ensures IsLive(next, h.1) || Waits(next, h.1, next.sequence[h.0])
    {
      if IsLive(w, h.1) {
        var n :| n in w.entries && w.entries[n].id == h.1;
        assert n != name ==> n in next.entries;
      } else {
        var r :| r in w.retired && r.entry.id == h.1 && r.retiredAt > w.sequence[h.0];
        assert r in next.retired;
      }
    }
  }

  lemma GrowthKeeps(w: World, step: Step)
    requires Safe(w) && Next(w, step).Some? && (step.Start? || step.Install? || step.Obtain?)
    ensures Safe(Next(w, step).value)
  {
    var next := Next(w, step).value;
    forall h | h in next.held
      ensures h.0 in next.sequence && (IsLive(next, h.1) || Waits(next, h.1, next.sequence[h.0]))
    {
      if h !in w.held {
        assert step.name in next.entries;
      } else if IsLive(w, h.1) {
        var n :| n in w.entries && w.entries[n].id == h.1;
        assert n in next.entries;
      } else {
        var r :| r in w.retired && r.entry.id == h.1 && r.retiredAt > w.sequence[h.0];
        assert r in next.retired;
      }
    }
  }

  lemma StepKeepsSafe(w: World, step: Step)
    requires Safe(w) && Next(w, step).Some?
    ensures Safe(Next(w, step).value)
  {
    hide Safe;
    match step
    case End(t) => EndIsSafe(w, t);
    case Retire(name) => if name in w.entries { RetireKeeps(w, name); }
    case _ => GrowthKeeps(w, step);
  }

  lemma EndIsSafe(w: World, t: nat)
    requires Safe(w) && t in w.sequence
    ensures Safe(Next(w, End(t)).value)
  {
    EndKeepsOrder(w, t);
    EndKeepsHeld(w, t);
  }

  /** A run of steps from a state; None when one of them can not happen. */
  function Run(w: World, steps: seq<Step>): Option<World>
    decreases |steps|
  {
    if steps == [] then Some(w)
    else match Next(w, steps[0])
      case None => None
      case Some(next) => Run(next, steps[1..])
  }

  const EMPTY := World(map[], 0, [], map[], 0, {}, {})

  lemma {:induction false} RunKeepsSafe(w: World, steps: seq<Step>)
    requires Safe(w) && Run(w, steps).Some?
    ensures Safe(Run(w, steps).value)
    decreases |steps|
  {
    hide Safe, Next;
    if steps != [] {
      StepKeepsSafe(w, steps[0]);
      RunKeepsSafe(Next(w, steps[0]).value, steps[1..]);
    }
  }

  /** The main result: in every interleaving no entry a running transaction obtained has been freed. */
  lemma HeldIsNeverFreed(steps: seq<Step>, t: nat, id: nat)
    requires Run(EMPTY, steps).Some? && (t, id) in Run(EMPTY, steps).value.held
    ensures id !in Run(EMPTY, steps).value.freed
  {
    RunKeepsSafe(EMPTY, steps);
    var w := Run(EMPTY, steps).value;
    assert (t, id).0 in w.sequence;
  }

  /** ... and when the last transaction ends nothing waits any longer. */
  lemma LastEndFreesAll(w: World, t: nat)
    requires w.sequence.Keys == {t}
    ensures var next := Next(w, End(t)).value;
            next.retired == [] && forall r | r in w.retired :: r.entry.id in next.freed
  {
    assert w.sequence - {t} == map[];
    NoneKept(w.retired);
  }

  lemma {:induction false} NoneKept(retired: seq<Retired>)
    ensures Kept(retired, map[]) == []
  {
    if retired != [] {
      NoneKept(retired[..|retired| - 1]);
    }
  }

  /** An entry retired before every running transaction started is freed with the next one that ends: the stamp a
      transaction starting at once would get does not keep it. */
  lemma LaterStartsDoNotKeep(w: World, name: string, a: nat, b: nat)
    requires Ordered(w) && name in w.entries && w.sequence == map[] && a != b
    ensures var retired := Next(w, Retire(name)).value;
            var ended := Run(retired, [Start(a), Start(b), End(a)]);
            ended.Some? && w.entries[name].id in ended.value.freed
  {
    var w1 := Next(w, Retire(name)).value;
    var w2 := Next(w1, Start(a)).value;
    var w3 := Next(w2, Start(b)).value;
    var r := Retired(w.nextSequence, w.entries[name]);
    assert r in w3.retired;
    assert w3.sequence - {a} == map[b := w.nextSequence + 1];
    assert Unused(r.retiredAt, w3.sequence - {a});
    var w4 := Next(w3, End(a)).value;
    RunOne(w1, Start(a), [Start(b), End(a)]);
    RunOne(w2, Start(b), [End(a)]);
    RunOne(w3, End(a), []);
    assert [Start(a)] + [Start(b), End(a)] == [Start(a), Start(b), End(a)];
    assert [Start(b)] + [End(a)] == [Start(b), End(a)] && [End(a)] + [] == [End(a)];
    assert Run(w4, []) == Some(w4);
    assert r.entry.id in w4.freed;
  }

  lemma RunOne(w: World, step: Step, rest: seq<Step>)
    requires Next(w, step).Some?
    ensures Run(w, [step] + rest) == Run(Next(w, step).value, rest)
  {
    assert ([step] + rest)[1..] == rest;
  }

  /** The catalog's transactions and one schema's tables. */
  class GlueTables {
    var transactionSequence: map<nat, nat>
    var nextSequence: nat
    var retiredEntries: seq<Retired>
    var entries: map<string, Entry>
    var nextId: nat
    ghost var held: set<(nat, nat)>
    ghost var freed: set<nat>

    constructor ()
      ensures State() == EMPTY && Safe(State())
    {
      transactionSequence, nextSequence, retiredEntries, entries, nextId := map[], 0, [], map[], 0;
      held, freed := {}, {};
    }

    ghost function State(): World
      reads this
    {
      World(transactionSequence, nextSequence, retiredEntries, entries, nextId, held, freed)
    }

    method StartTransaction(transaction: nat)
      requires Safe(State()) && transaction !in transactionSequence
      modifies this
      ensures Some(State()) == Next(old(State()), Start(transaction)) && Safe(State())
    {
      hide Safe;
      StepKeepsSafe(State(), Start(transaction));
      transactionSequence := transactionSequence[transaction := nextSequence];
      nextSequence := nextSequence + 1;
    }

    /** Commit and rollback alike. */
    method EndTransaction(transaction: nat)
      requires Safe(State()) && transaction in transactionSequence
      modifies this
      ensures Some(State()) == Next(old(State()), End(transaction)) && Safe(State())
    {
      hide Safe, Unused, Kept;
      StepKeepsSafe(State(), End(transaction));
      transactionSequence := transactionSequence - {transaction};
      held := set h | h in held && h.0 != transaction;
      FreeRetiredEntries();
    }

    method OldestRunning() returns (oldest: Option<nat>)
      ensures oldest.None? <==> transactionSequence == map[]
      ensures oldest.Some? ==> forall t | t in transactionSequence :: oldest.value <= transactionSequence[t]
      ensures oldest.Some? ==> exists t :: t in transactionSequence && transactionSequence[t] == oldest.value
    {
      oldest := None;
      var left := transactionSequence.Keys;
      while left != {}
        invariant left <= transactionSequence.Keys && (oldest.None? <==> left == transactionSequence.Keys)
        invariant oldest.Some? ==> forall t | t in transactionSequence && t !in left :: oldest.value <= transactionSequence[t]
        invariant oldest.Some? ==> exists t :: t in transactionSequence && transactionSequence[t] == oldest.value
        decreases |left|
      {
        var t :| t in left;
        left := left - {t};
        var n := transactionSequence[t];
        oldest := Some(if oldest.Some? && oldest.value < n then oldest.value else n);
      }
    }

    method FreeRetiredEntries()
      modifies this`retiredEntries, this`freed
      ensures retiredEntries == Kept(old(retiredEntries), transactionSequence)
      ensures freed == old(freed) + set r | r in old(retiredEntries) && Unused(r.retiredAt, transactionSequence) :: r.entry.id
    {
      var oldest := OldestRunning();
      var kept := [];
      for k := 0 to |retiredEntries|
        invariant retiredEntries == old(retiredEntries) && freed == old(freed)
        invariant kept == Kept(retiredEntries[..k], transactionSequence)
      {
        assert retiredEntries[..k + 1][..k] == retiredEntries[..k];
        var retired := retiredEntries[k];
        assert Unused(retired.retiredAt, transactionSequence) <==> (oldest.None? || retired.retiredAt <= oldest.value);
        if oldest.Some? && retired.retiredAt > oldest.value {
          kept := kept + [retired];
        }
      }
      assert retiredEntries[..|retiredEntries|] == retiredEntries;
      freed := freed + set r | r in retiredEntries && Unused(r.retiredAt, transactionSequence) :: r.entry.id;
      retiredEntries := kept;
    }

    /** Takes an entry out of the set; transactions that obtained it keep it. */
    method RetireEntry(name: string)
      requires Safe(State())
      modifies this
      ensures Some(State()) == Next(old(State()), Retire(name)) && Safe(State())
    {
      StepKeepsSafe(State(), Retire(name));
      if name in entries {
        retiredEntries := retiredEntries + [Retired(nextSequence, entries[name])];
        entries := entries - {name};
      }
    }

    method CreateEntry(name: string, version: nat) returns (entry: Entry)
      requires Safe(State())
      modifies this
      ensures Safe(State())
      ensures Some(State()) == Next(Next(old(State()), Retire(name)).value, Install(name, version))
      ensures name in entries && entries[name] == entry && entry.version == version
    {
      RetireEntry(name);
      StepKeepsSafe(State(), Install(name, version));
      entry := Entry(nextId, version);
      entries := entries[name := entry];
      nextId := nextId + 1;
    }

    /** A lookup by a running transaction, with the definition Glue holds: the entry is reused when it was built from
        it, replaced when it was not, and taken out when Glue has no table. */
    method GetEntry(transaction: nat, name: string, table: Option<nat>) returns (r: Option<Entry>)
      requires Safe(State()) && transaction in transactionSequence
      modifies this
      ensures Safe(State())
      ensures r.None? <==> table.None?
      ensures table.None? ==> name !in entries
      ensures r.Some? ==> r.value.version == table.value && name in entries && entries[name] == r.value
      ensures r.Some? ==> (transaction, r.value.id) in held
      ensures r.Some? && name in old(entries) && old(entries)[name].version == table.value ==> r.value == old(entries)[name]
      ensures old(held) <= held && freed == old(freed)
      ensures forall n | n != name :: n in entries <==> n in old(entries)
      ensures forall n | n != name && n in entries :: entries[n] == old(entries)[n]
    {
      if table.None? {
        RetireEntry(name);
        return None;
      }
      if name in entries && entries[name].version == table.value {
        r := Some(entries[name]);
      } else {
        var entry := CreateEntry(name, table.value);
        r := Some(entry);
      }
      StepKeepsSafe(State(), Obtain(transaction, name));
      held := held + {(transaction, r.value.id)};
    }
  }
}
