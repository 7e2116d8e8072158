/** The cache of table definitions under concurrent lookups, loads and clears. A lookup finds or makes its key's slot
    under the cache's lock; a load runs under the slot's own lock, outside the cache's. */
module MetadataCache {
  import opened Outcomes
  import opened Text

  /** A key stands for a table's definition or for its list of partitions, told apart.
      A definition is told by the time of the change that made it; 'began' is when its load, or the bulk fetch that
      brought it, began. */
  datatype Cached = Cached(definition: nat, began: nat)

  /** 'cleared' and 'known' are only said of a slot: the last clear before it was made, and the last change to its table
      by that clear. */
  datatype Slot = Slot(key: string, cleared: nat, known: nat, value: Option<Cached>, lockedBy: Option<nat>)

  /** A lookup remembers, to be judged by, the last clear before it and the last change to its table by then. */
  datatype Lookup = Lookup(key: string, slot: nat, cleared: nat, known: nat)

  datatype Phase =
    | Fetched(key: string, fetched: Cached)
    | Waiting(lookup: Lookup, warm: Option<Cached>)
    | Loading(lookup: Lookup, began: nat)
    | Read(lookup: Lookup, began: nat, found: Option<nat>)

  /** What a lookup returned. */
  datatype Answer = Answer(lookup: Lookup, value: Cached)

  datatype World = World(now: nat, changed: map<string, nat>, present: set<string>, slots: seq<Slot>, current: map<string, nat>,
                         threads: map<nat, Phase>, clearedAt: nat, atClear: map<string, nat>, answers: set<Answer>,
                         bound: map<(nat, string), nat>)

  datatype Step =
    | Change(key: string, exists_: bool)
    | Clear
    | Fetch(thread: nat, key: string)
    | FindEntry(thread: nat, key: string)
    | Acquire(thread: nat)
    | ReadGlue(thread: nat)
    | Finish(thread: nat)
    | Fail(thread: nat)

  function LastChange(changed: map<string, nat>, key: string): nat {
    if key in changed then changed[key] else 0
  }

  /** One step, its time passed; None when it can not happen. */
  function Next(w: World, step: Step): Option<World> {
    var t := w.now + 1;
    match step
    case Change(key, there) =>
      Some(w.(now := t, changed := w.changed[key := t], present := if there then w.present + {key} else w.present - {key}))
    case Clear => Some(w.(now := t, current := map[], clearedAt := t, atClear := w.changed))
    case Fetch(thread, key) =>
      if thread in w.threads || key !in w.present then None
      else Some(w.(now := t, threads := w.threads[thread := Fetched(key, Cached(LastChange(w.changed, key), t))]))
    case FindEntry(thread, key) =>
      if thread in w.threads && (!w.threads[thread].Fetched? || w.threads[thread].key != key) then None
      else
        var warm := if thread in w.threads then Some(w.threads[thread].fetched) else None;
        var made := key !in w.current;
        var slot := if made then |w.slots| else w.current[key];
        var lookup := Lookup(key, slot, w.clearedAt, LastChange(w.atClear, key));
        Some(w.(now := t, threads := w.threads[thread := Waiting(lookup, warm)],
                slots := if made then w.slots + [Slot(key, w.clearedAt, LastChange(w.atClear, key), None, None)] else w.slots,
                current := w.current[key := slot], bound := w.bound[(w.clearedAt, key) := slot]))
    case Acquire(thread) =>
      if thread !in w.threads || !w.threads[thread].Waiting? then None
      else
        var Waiting(lookup, warm) := w.threads[thread];
        if lookup.slot >= |w.slots| || w.slots[lookup.slot].lockedBy.Some? then None
        else Some(Acquired(w.(now := t), thread, lookup, warm, w.slots[lookup.slot]))
    case ReadGlue(thread) =>
      if thread !in w.threads || !w.threads[thread].Loading? then None
      else
        var Loading(lookup, began) := w.threads[thread];
        var found := if lookup.key in w.present then Some(LastChange(w.changed, lookup.key)) else None;
        Some(w.(now := t, threads := w.threads[thread := Read(lookup, began, found)]))
    case Finish(thread) =>
      if thread !in w.threads || !w.threads[thread].Read? || w.threads[thread].lookup.slot >= |w.slots| then None
      else
        var Read(lookup, began, found) := w.threads[thread];
        var value := if found.Some? then Some(Cached(found.value, began)) else None;
        var slot := w.slots[lookup.slot].(value := value, lockedBy := None);
        Some(w.(now := t, threads := w.threads - {thread}, slots := w.slots[lookup.slot := slot],
                answers := w.answers + if value.Some? then {Answer(lookup, value.value)} else {}))
    case Fail(thread) =>
      if thread !in w.threads || !(w.threads[thread].Loading? || w.threads[thread].Read?) then None
      else
        var lookup := w.threads[thread].lookup;
        if lookup.slot >= |w.slots| then None
        else
          Some(w.(now := t, threads := w.threads - {thread},
                  slots := w.slots[lookup.slot := w.slots[lookup.slot].(lockedBy := None)]))
  }

  /** With the slot's lock: a value there answers, a definition brought along fills the slot, and otherwise the load
      begins and the lock is kept. */
  function Acquired(w: World, thread: nat, lookup: Lookup, warm: Option<Cached>, slot: Slot): World
    requires lookup.slot < |w.slots|
  {
    if slot.value.Some? then
      w.(threads := w.threads - {thread}, answers := w.answers + {Answer(lookup, slot.value.value)})
    else if warm.Some? then
      w.(threads := w.threads - {thread}, slots := w.slots[lookup.slot := slot.(value := warm)],
         answers := w.answers + {Answer(lookup, warm.value)})
    else
      w.(threads := w.threads[thread := Loading(lookup, w.now)],
         slots := w.slots[lookup.slot := slot.(lockedBy := Some(thread))])
  }

  /** A lookup that ends without failing has answered with what its slot then holds, if it holds anything; no other
      answer is given. */
  lemma EndingAnswers(w: World, step: Step, thread: nat)
    requires Next(w, step).Some? && thread in w.threads && thread !in Next(w, step).value.threads
    ensures var next := Next(w, step).value;
            && (w.threads[thread].Waiting? || w.threads[thread].Loading? || w.threads[thread].Read?)
            && w.threads[thread].lookup.slot < |next.slots|
            && var lookup := w.threads[thread].lookup;
            next.answers == w.answers + if step.Fail? || next.slots[lookup.slot].value.None? then {}
                                        else {Answer(lookup, next.slots[lookup.slot].value.value)}
  {
  }

  // What every reachable state keeps.

  /** If it was loaded after the last clear before the slot, it is at least as new as the table was then. */
  predicate Dated(slot: Slot, c: Cached) {
    c.began > slot.cleared ==> c.definition >= slot.known
  }

  ghost predicate SlotOk(w: World, s: Slot) {
    && (s.value.Some? ==> Dated(s, s.value.value) && s.lockedBy.None?)
    && s.known <= LastChange(w.changed, s.key) && s.cleared <= w.now
  }

  ghost predicate LookupOk(w: World, l: Lookup) {
    && l.slot < |w.slots| && w.slots[l.slot].key == l.key && w.slots[l.slot].cleared == l.cleared
    && w.slots[l.slot].known == l.known && (l.cleared, l.key) in w.bound && w.bound[(l.cleared, l.key)] == l.slot
  }

  ghost predicate PhaseOk(w: World, thread: nat, p: Phase) {
    match p
    case Fetched(key, c) => c.began <= w.now && (c.began > w.clearedAt ==> c.definition >= LastChange(w.atClear, key))
    case Waiting(l, warm) => LookupOk(w, l) && (warm.Some? ==> Dated(w.slots[l.slot], warm.value))
    case Loading(l, began) => LookupOk(w, l) && w.slots[l.slot].lockedBy == Some(thread) && began > l.cleared
    case Read(l, began, found) =>
      && LookupOk(w, l) && w.slots[l.slot].lockedBy == Some(thread) && began > l.cleared
      && (found.Some? ==> found.value >= l.known)
  }

  ghost predicate AnswerOk(w: World, a: Answer) {
    LookupOk(w, a.lookup) && w.slots[a.lookup.slot].value == Some(a.value)
  }

  ghost predicate Coherent(w: World) {
    && w.clearedAt <= w.now && (forall key :: LastChange(w.changed, key) <= w.now)
    && (forall key :: LastChange(w.atClear, key) <= LastChange(w.changed, key))
    && (forall i | 0 <= i < |w.slots| :: SlotOk(w, w.slots[i]))
    && (forall key | key in w.current :: w.current[key] < |w.slots| &&
          LookupOk(w, Lookup(key, w.current[key], w.clearedAt, LastChange(w.atClear, key))))
    && (forall k | k in w.bound && k.0 == w.clearedAt :: k.1 in w.current)
    && (forall k | k in w.bound :: k.0 <= w.clearedAt)
    && (forall t | t in w.threads :: PhaseOk(w, t, w.threads[t]))
    && (forall a | a in w.answers :: AnswerOk(w, a))
  }

  lemma ChangeKeeps(w: World, key: string, there: bool)
    requires Coherent(w)
    ensures Coherent(Next(w, Change(key, there)).value)
  {
    hide SlotOk, LookupOk, PhaseOk, AnswerOk;
    var next := Next(w, Change(key, there)).value;
    forall k: string
      ensures LastChange(next.changed, k) <= next.now && LastChange(next.atClear, k) <= LastChange(next.changed, k)
    {
      assert LastChange(w.atClear, k) <= LastChange(w.changed, k) <= w.now;
    }
    forall i | 0 <= i < |next.slots|
      ensures SlotOk(next, next.slots[i])
    {
      ChangeKeepsParts(w, key, there, next.slots[i]);
    }
    forall k | k in next.current
      ensures next.current[k] < |next.slots| && LookupOk(next, Lookup(k, next.current[k], next.clearedAt, LastChange(next.atClear, k)))
    {
      SameSlots(w, next, Lookup(k, w.current[k], w.clearedAt, LastChange(w.atClear, k)));
    }
    forall t | t in next.threads
      ensures PhaseOk(next, t, next.threads[t])
    {
      SamePhase(w, next, t);
    }
    forall a | a in next.answers
      ensures AnswerOk(next, a)
    {
      SameAnswer(w, next, a);
    }
  }

  lemma ChangeKeepsParts(w: World, key: string, there: bool, s: Slot)
    requires SlotOk(w, s) && LastChange(w.changed, key) <= w.now
    ensures SlotOk(Next(w, Change(key, there)).value, s)
  {
  }

  lemma SameSlots(w: World, next: World, l: Lookup)
    requires next.slots == w.slots && next.bound == w.bound && LookupOk(w, l)
    ensures LookupOk(next, l)
  {
  }

  lemma SamePhase(w: World, next: World, t: nat)
    requires next.slots == w.slots && next.bound == w.bound && next.threads == w.threads && w.now <= next.now
    requires next.clearedAt == w.clearedAt && next.atClear == w.atClear && t in w.threads && PhaseOk(w, t, w.threads[t])
    ensures PhaseOk(next, t, next.threads[t])
  {
  }

  lemma SameAnswer(w: World, next: World, a: Answer)
    requires next.slots == w.slots && next.bound == w.bound && AnswerOk(w, a)
    ensures AnswerOk(next, a)
  {
  }

  lemma ClearKeeps(w: World)
    requires Coherent(w)
    ensures Coherent(Next(w, Clear).value)
  {
  }

  lemma FetchKeeps(w: World, thread: nat, key: string)
    requires Coherent(w) && Next(w, Fetch(thread, key)).Some?
    ensures Coherent(Next(w, Fetch(thread, key)).value)
  {
    hide SlotOk, LookupOk, AnswerOk;
    GrownKeeps(w, Next(w, Fetch(thread, key)).value, thread);
  }

  lemma FindKeeps(w: World, thread: nat, key: string)
    requires Coherent(w) && Next(w, FindEntry(thread, key)).Some?
    ensures Coherent(Next(w, FindEntry(thread, key)).value)
  {
    hide Coherent;
    if key in w.current {
      FindExisting(w, thread, key);
    } else {
      FindNew(w, thread, key);
    }
  }

  lemma FindExisting(w: World, thread: nat, key: string)
    requires Coherent(w) && Next(w, FindEntry(thread, key)).Some? && key in w.current
    ensures Coherent(Next(w, FindEntry(thread, key)).value)
  {
    hide SlotOk, LookupOk, AnswerOk, PhaseOk, Next;
    FoundSlot(w, thread, key);
    GrownKeeps(w, Next(w, FindEntry(thread, key)).value, thread);
  }

  lemma FoundSlot(w: World, thread: nat, key: string)
    requires Next(w, FindEntry(thread, key)).Some? && key in w.current
    requires thread in w.threads ==> PhaseOk(w, thread, w.threads[thread])
    requires LookupOk(w, Lookup(key, w.current[key], w.clearedAt, LastChange(w.atClear, key)))
    ensures var next := Next(w, FindEntry(thread, key)).value;
            && next.slots == w.slots && next.bound == w.bound && next.current == w.current && next.answers == w.answers
            && next.threads.Keys == w.threads.Keys + {thread} && (forall t | t in w.threads && t != thread :: next.threads[t] == w.threads[t])
            && Grows(w, next) && PhaseOk(next, thread, next.threads[thread])
  {
  }

  lemma FindNew(w: World, thread: nat, key: string)
    requires Coherent(w) && Next(w, FindEntry(thread, key)).Some? && key !in w.current
    ensures Coherent(Next(w, FindEntry(thread, key)).value)
  {
    hide SlotOk, LookupOk, PhaseOk, AnswerOk;
    assert (w.clearedAt, key) !in w.bound;
    NewSlot(w, thread, key);
    GrownKeeps(w, Next(w, FindEntry(thread, key)).value, thread);
  }

  /** Nothing of what there was changes, except that slots and bindings are added. */
  ghost predicate Grows(w: World, next: World) {
    && |w.slots| <= |next.slots| && (forall i | 0 <= i < |w.slots| :: next.slots[i] == w.slots[i])
    && (forall k | k in w.bound :: k in next.bound && next.bound[k] == w.bound[k])
    && next.changed == w.changed && next.atClear == w.atClear && next.clearedAt == w.clearedAt && w.now <= next.now
  }

  lemma LookupStays(w: World, next: World, l: Lookup)
    requires Grows(w, next) && LookupOk(w, l)
    ensures LookupOk(next, l)
  {
  }

  lemma SlotStays(w: World, next: World, s: Slot)
    requires Grows(w, next) && SlotOk(w, s)
    ensures SlotOk(next, s)
  {
  }

  lemma PhaseStays(w: World, next: World, t: nat, p: Phase)
    requires Grows(w, next) && PhaseOk(w, t, p)
    ensures PhaseOk(next, t, p)
  {
  }

  lemma AnswerStays(w: World, next: World, a: Answer)
    requires Grows(w, next) && AnswerOk(w, a)
    ensures AnswerOk(next, a)
  {
  }

  /** A thread's step that takes nothing away and makes only what is as it should be. */
  lemma GrownKeeps(w: World, next: World, thread: nat)
    requires Coherent(w) && Grows(w, next) && next.answers == w.answers
    requires forall i | |w.slots| <= i < |next.slots| :: SlotOk(next, next.slots[i])
    requires forall t | t in next.threads && t != thread :: t in w.threads && next.threads[t] == w.threads[t]
    requires thread in next.threads ==> PhaseOk(next, thread, next.threads[thread])
    requires forall k | k in next.current :: (k in w.current && next.current[k] == w.current[k]) ||
               LookupOk(next, Lookup(k, next.current[k], next.clearedAt, LastChange(next.atClear, k)))
    requires forall k | k in next.bound :: k.0 <= next.clearedAt && (k.0 == next.clearedAt ==> k.1 in next.current)
    ensures Coherent(next)
  {
    hide SlotOk, PhaseOk, AnswerOk;
    forall k | k in next.current
      ensures next.current[k] < |next.slots| &&
              LookupOk(next, Lookup(k, next.current[k], next.clearedAt, LastChange(next.atClear, k)))
    {
      if k in w.current && next.current[k] == w.current[k] {
        LookupStays(w, next, Lookup(k, w.current[k], w.clearedAt, LastChange(w.atClear, k)));
      }
    }
    hide LookupOk;
    forall i | 0 <= i < |next.slots|
      ensures SlotOk(next, next.slots[i])
    {
      if i < |w.slots| {
        SlotStays(w, next, next.slots[i]);
      }
    }
    forall t | t in next.threads
      ensures PhaseOk(next, t, next.threads[t])
    {
      if t != thread {
        PhaseStays(w, next, t, w.threads[t]);
      }
    }
    forall a | a in next.answers
      ensures AnswerOk(next, a)
    {
      AnswerStays(w, next, a);
    }
  }

  lemma NewSlot(w: World, thread: nat, key: string)
    requires w.clearedAt <= w.now && LastChange(w.atClear, key) <= LastChange(w.changed, key)
    requires Next(w, FindEntry(thread, key)).Some? && key !in w.current
    requires thread in w.threads ==> PhaseOk(w, thread, w.threads[thread])
    requires (w.clearedAt, key) !in w.bound
    ensures var next := Next(w, FindEntry(thread, key)).value;
            && Grows(w, next) && SlotOk(next, next.slots[|w.slots|]) && PhaseOk(next, thread, next.threads[thread])
            && LookupOk(next, Lookup(key, |w.slots|, w.clearedAt, LastChange(w.atClear, key)))
  {
  }

  /** One thread's step on one slot, whose lock no other thread holds. */
  ghost predicate Touches(w: World, next: World, thread: nat, i: nat) {
    && next.changed == w.changed && next.atClear == w.atClear && next.clearedAt == w.clearedAt
    && next.current == w.current && next.bound == w.bound && w.now <= next.now
    && i < |w.slots| == |next.slots| && (forall j | 0 <= j < |w.slots| && j != i :: next.slots[j] == w.slots[j])
    && SameSlot(w.slots[i], next.slots[i]) && SlotOk(next, next.slots[i])
    && (w.slots[i].lockedBy == None || w.slots[i].lockedBy == Some(thread))
    && (forall t | t in next.threads && t != thread :: t in w.threads && next.threads[t] == w.threads[t])
    && (thread in next.threads ==> PhaseOk(next, thread, next.threads[thread]))
    && (forall a | a in next.answers :: a in w.answers || AnswerOk(next, a))
  }

  predicate SameSlot(before: Slot, after: Slot) {
    && before.key == after.key && before.cleared == after.cleared && before.known == after.known
    && (before.value.Some? ==> after.value == before.value)
  }

  lemma LookupTouched(w: World, next: World, thread: nat, i: nat, l: Lookup)
    requires Touches(w, next, thread, i) && LookupOk(w, l)
    ensures LookupOk(next, l)
  {
  }

  lemma PhaseTouched(w: World, next: World, thread: nat, i: nat, t: nat)
    requires Touches(w, next, thread, i) && t != thread && t in next.threads && PhaseOk(w, t, w.threads[t])
    ensures PhaseOk(next, t, next.threads[t])
  {
    hide LookupOk, SlotOk;
    if !w.threads[t].Fetched? {
      LookupIndex(w, w.threads[t]);
      LookupTouched(w, next, thread, i, w.threads[t].lookup);
    }
  }

  lemma LookupIndex(w: World, p: Phase)
    requires !p.Fetched? && LookupOk(w, p.lookup)
    ensures p.lookup.slot < |w.slots|
  {
  }

  lemma AnswerTouched(w: World, next: World, thread: nat, i: nat, a: Answer)
    requires Touches(w, next, thread, i) && AnswerOk(w, a)
    ensures AnswerOk(next, a)
  {
    LookupTouched(w, next, thread, i, a.lookup);
  }

  lemma TouchKeeps(w: World, next: World, thread: nat, i: nat)
    requires Coherent(w) && Touches(w, next, thread, i)
    ensures Coherent(next)
  {
    hide SlotOk, LookupOk, PhaseOk, AnswerOk;
    forall k | k in next.current
      ensures next.current[k] < |next.slots| &&
              LookupOk(next, Lookup(k, next.current[k], next.clearedAt, LastChange(next.atClear, k)))
    {
      LookupTouched(w, next, thread, i, Lookup(k, w.current[k], w.clearedAt, LastChange(w.atClear, k)));
    }
    forall j | 0 <= j < |next.slots|
      ensures SlotOk(next, next.slots[j])
    {
      if j != i {
        SlotLater(w, next, next.slots[j]);
      }
    }
    forall t | t in next.threads
      ensures PhaseOk(next, t, next.threads[t])
    {
      if t != thread {
        PhaseTouched(w, next, thread, i, t);
      }
    }
    forall a | a in next.answers
      ensures AnswerOk(next, a)
    {
      if a in w.answers {
        AnswerTouched(w, next, thread, i, a);
      }
    }
  }

  lemma SlotLater(w: World, next: World, s: Slot)
    requires next.changed == w.changed && w.now <= next.now && SlotOk(w, s)
    ensures SlotOk(next, s)
  {
  }

  /** What a step of a thread starts from. */
  lemma PhaseHere(w: World, thread: nat)
    requires Coherent(w) && thread in w.threads && !w.threads[thread].Fetched?
    ensures PhaseOk(w, thread, w.threads[thread]) && LookupOk(w, w.threads[thread].lookup)
    ensures SlotOk(w, w.slots[w.threads[thread].lookup.slot])
    ensures LastChange(w.changed, w.threads[thread].lookup.key) >= w.slots[w.threads[thread].lookup.slot].known
  {
  }

  lemma AcquireTouches(w: World, thread: nat)
    requires Next(w, Acquire(thread)).Some?
    requires PhaseOk(w, thread, w.threads[thread]) && SlotOk(w, w.slots[w.threads[thread].lookup.slot])
    ensures Touches(w, Next(w, Acquire(thread)).value, thread, w.threads[thread].lookup.slot)
  {
    var lookup := w.threads[thread].lookup;
    var slot := w.slots[lookup.slot];
    if slot.value.None? && w.threads[thread].warm.None? {
      var next := Next(w, Acquire(thread)).value;
      assert next.threads[thread] == Loading(lookup, next.now);
      assert next.slots[lookup.slot] == slot.(lockedBy := Some(thread));
    }
  }

  lemma AcquireKeeps(w: World, thread: nat)
    requires Coherent(w) && Next(w, Acquire(thread)).Some?
    ensures Coherent(Next(w, Acquire(thread)).value)
  {
    PhaseHere(w, thread);
    hide Coherent, Touches, PhaseOk, SlotOk, LookupOk;
    AcquireTouches(w, thread);
    TouchKeeps(w, Next(w, Acquire(thread)).value, thread, w.threads[thread].lookup.slot);
  }

  lemma ReadKeeps(w: World, thread: nat)
    requires Coherent(w) && Next(w, ReadGlue(thread)).Some?
    ensures Coherent(Next(w, ReadGlue(thread)).value)
  {
    PhaseHere(w, thread);
    hide Coherent;
    TouchKeeps(w, Next(w, ReadGlue(thread)).value, thread, w.threads[thread].lookup.slot);
  }

  lemma FinishKeeps(w: World, thread: nat)
    requires Coherent(w) && Next(w, Finish(thread)).Some?
    ensures Coherent(Next(w, Finish(thread)).value)
  {
    PhaseHere(w, thread);
    hide Coherent;
    TouchKeeps(w, Next(w, Finish(thread)).value, thread, w.threads[thread].lookup.slot);
  }

  lemma FailKeeps(w: World, thread: nat)
    requires Coherent(w) && Next(w, Fail(thread)).Some?
    ensures Coherent(Next(w, Fail(thread)).value)
  {
    PhaseHere(w, thread);
    hide Coherent;
    TouchKeeps(w, Next(w, Fail(thread)).value, thread, w.threads[thread].lookup.slot);
  }

  lemma StepKeeps(w: World, step: Step)
    requires Coherent(w) && Next(w, step).Some?
    ensures Coherent(Next(w, step).value)
  {
    hide Coherent, Next;
    match step
    case Change(key, there) => ChangeKeeps(w, key, there);
    case Clear => ClearKeeps(w);
    case Fetch(thread, key) => FetchKeeps(w, thread, key);
    case FindEntry(thread, key) => FindKeeps(w, thread, key);
    case Acquire(thread) => AcquireKeeps(w, thread);
    case ReadGlue(thread) => ReadKeeps(w, thread);
    case Finish(thread) => FinishKeeps(w, thread);
    case Fail(thread) => FailKeeps(w, thread);
  }

  // Whole runs.

  function Run(w: World, steps: seq<Step>): Option<World>
    decreases |steps|
  {
    if steps == [] then Some(w)
    else match Next(w, steps[0])
      case None => None
      case Some(next) => Run(next, steps[1..])
  }

  /** An empty cache over the given tables. */
  function Initial(present: set<string>): World {
    World(0, map[], present, [], map[], map[], 0, map[], {}, map[])
  }

  lemma {:induction false} RunKeeps(w: World, steps: seq<Step>)
    requires Coherent(w) && Run(w, steps).Some?
    ensures Coherent(Run(w, steps).value)
    decreases |steps|
  {
    hide Coherent, Next;
    if steps != [] {
      StepKeeps(w, steps[0]);
      RunKeeps(Next(w, steps[0]).value, steps[1..]);
    }
  }

  lemma InitialIsCoherent(present: set<string>)
    ensures Coherent(Initial(present))
  {
  }

  /** In every interleaving the answers for a table between two clears are all the same, and one loaded after the last
      clear before its lookup is no older than the table was at that clear. */
  lemma AnswersAreCoherent(present: set<string>, steps: seq<Step>)
    requires Run(Initial(present), steps).Some?
    ensures var w := Run(Initial(present), steps).value;
            && (forall a, b | a in w.answers && b in w.answers && a.lookup.key == b.lookup.key &&
                  a.lookup.cleared == b.lookup.cleared :: a.value == b.value)
            && (forall a | a in w.answers && a.value.began > a.lookup.cleared :: a.value.definition >= a.lookup.known)
  {
    RunKeeps(Initial(present), steps);
    var w := Run(Initial(present), steps).value;
    forall a | a in w.answers && a.value.began > a.lookup.cleared
      ensures a.value.definition >= a.lookup.known
    {
      assert AnswerOk(w, a);
      assert SlotOk(w, w.slots[a.lookup.slot]);
    }
    forall a, b | a in w.answers && b in w.answers && a.lookup.key == b.lookup.key && a.lookup.cleared == b.lookup.cleared
      ensures a.value == b.value
    {
      assert AnswerOk(w, a) && AnswerOk(w, b);
    }
  }

  /** In every interleaving two loads of one slot never run at the same time. */
  lemma LoadsNeverOverlap(present: set<string>, steps: seq<Step>, a: nat, b: nat)
    requires Run(Initial(present), steps).Some?
    requires var threads := Run(Initial(present), steps).value.threads;
             && a in threads && b in threads && (threads[a].Loading? || threads[a].Read?)
             && (threads[b].Loading? || threads[b].Read?) && threads[a].lookup.slot == threads[b].lookup.slot
    ensures a == b
  {
    RunKeeps(Initial(present), steps);
    var w := Run(Initial(present), steps).value;
    assert PhaseOk(w, a, w.threads[a]) && PhaseOk(w, b, w.threads[b]);
  }

  // When answers are loaded after the clear before their lookup.

  /** A definition fetched in bulk that fills an empty slot was fetched after the clear before the slot. */
  predicate Timely(w: World, step: Step) {
    step.Acquire? && step.thread in w.threads && w.threads[step.thread].Waiting? ==>
      var Waiting(lookup, warm) := w.threads[step.thread];
      lookup.slot < |w.slots| && w.slots[lookup.slot].value.None? && warm.Some? ==> warm.value.began > lookup.cleared
  }

  ghost predicate TimelyRun(w: World, steps: seq<Step>)
    decreases |steps|
  {
    steps != [] && Next(w, steps[0]).Some? ==>
      Timely(w, steps[0]) && TimelyRun(Next(w, steps[0]).value, steps[1..])
  }

  ghost predicate SlotsFresh(w: World) {
    forall i | 0 <= i < |w.slots| && w.slots[i].value.Some? :: w.slots[i].value.value.began > w.slots[i].cleared
  }

  lemma TimelyKeepsFresh(w: World, step: Step)
    requires Coherent(w) && SlotsFresh(w) && Next(w, step).Some? && Timely(w, step)
    ensures SlotsFresh(Next(w, step).value)
  {
    if step.Finish? || step.Acquire? {
      PhaseHere(w, step.thread);
    }
    hide Coherent, Next, SlotsFresh, PhaseOk, Timely;
    match step
    case Finish(thread) => FinishKeepsFresh(w, thread);
    case Acquire(thread) => AcquireKeepsFresh(w, thread);
    case _ => OtherStepsKeepFresh(w, step);
  }

  lemma FinishKeepsFresh(w: World, thread: nat)
    requires SlotsFresh(w) && Next(w, Finish(thread)).Some? && PhaseOk(w, thread, w.threads[thread])
    ensures SlotsFresh(Next(w, Finish(thread)).value)
  {
  }

  lemma AcquireKeepsFresh(w: World, thread: nat)
    requires SlotsFresh(w) && Next(w, Acquire(thread)).Some? && Timely(w, Acquire(thread)) && PhaseOk(w, thread, w.threads[thread])
    ensures SlotsFresh(Next(w, Acquire(thread)).value)
  {
  }

  lemma OtherStepsKeepFresh(w: World, step: Step)
    requires SlotsFresh(w) && Next(w, step).Some? && !step.Finish? && !step.Acquire?
    ensures SlotsFresh(Next(w, step).value)
  {
  }

  /** A late fill answers with what it brought. */
  lemma LateFillAnswers(w: World, step: Step) returns (a: Answer)
    requires Next(w, step).Some? && !Timely(w, step)
    ensures a in Next(w, step).value.answers && a.value.began <= a.lookup.cleared
  {
    var Waiting(lookup, warm) := w.threads[step.thread];
    a := Answer(lookup, warm.value);
  }

  lemma {:induction false} AnswersStay(w: World, steps: seq<Step>)
    requires Run(w, steps).Some?
    ensures w.answers <= Run(w, steps).value.answers
    decreases |steps|
  {
    if steps != [] {
      AnswersStay(Next(w, steps[0]).value, steps[1..]);
    }
  }

  lemma {:induction false} RunIsFresh(w: World, steps: seq<Step>)
    requires Coherent(w) && SlotsFresh(w) && Run(w, steps).Some?
    ensures TimelyRun(w, steps) ==> SlotsFresh(Run(w, steps).value)
    ensures !TimelyRun(w, steps) ==> exists a :: a in Run(w, steps).value.answers && a.value.began <= a.lookup.cleared
    decreases |steps|
  {
    hide Coherent, Next, Timely, SlotsFresh;
    if steps != [] {
      var next := Next(w, steps[0]).value;
      StepKeeps(w, steps[0]);
      if Timely(w, steps[0]) {
        TimelyKeepsFresh(w, steps[0]);
        RunIsFresh(next, steps[1..]);
      } else {
        var a := LateFillAnswers(w, steps[0]);
        AnswersStay(next, steps[1..]);
        assert a in Run(w, steps).value.answers;
      }
    }
  }

  /** The main result, of every interleaving: each lookup answers with a definition loaded after the last clear that came
      before the lookup exactly when no bulk fetch that began before a clear fills an empty slot made after it. */
  lemma FreshExactlyWhen(present: set<string>, steps: seq<Step>)
    requires Run(Initial(present), steps).Some?
    ensures (forall a | a in Run(Initial(present), steps).value.answers :: a.value.began > a.lookup.cleared) <==>
            TimelyRun(Initial(present), steps)
  {
    InitialIsCoherent(present);
    RunKeeps(Initial(present), steps);
    RunIsFresh(Initial(present), steps);
    var w := Run(Initial(present), steps).value;
    if TimelyRun(Initial(present), steps) {
      forall a | a in w.answers
        ensures a.value.began > a.lookup.cleared
      {
        assert AnswerOk(w, a);
      }
    }
  }

  /** A clear that comes between a bulk fetch and the lookup that brings it to the cache is lost: the definition of
      before a change is served after it. */
  lemma BulkFetchAcrossClear(key: string)
    ensures var steps := [Fetch(0, key), Change(key, true), Clear, FindEntry(0, key), Acquire(0), FindEntry(1, key), Acquire(1)];
            var end := Run(Initial({key}), steps);
            && end.Some? && !TimelyRun(Initial({key}), steps)
            && exists a :: a in end.value.answers && a.value.began < a.lookup.cleared && a.value.definition < a.lookup.known
  {
    hide Run, TimelyRun, Timely;
    var w0 := Initial({key});
    var w1 := Next(w0, Fetch(0, key)).value;
    var w2 := Next(w1, Change(key, true)).value;
    var w3 := Next(w2, Clear).value;
    var rest := [FindEntry(0, key), Acquire(0), FindEntry(1, key), Acquire(1)];
    RunOne(w0, Fetch(0, key), [Change(key, true), Clear] + rest);
    RunOne(w1, Change(key, true), [Clear] + rest);
    RunOne(w2, Clear, rest);
    assert [Fetch(0, key)] + ([Change(key, true), Clear] + rest)
        == [Fetch(0, key), Change(key, true), Clear, FindEntry(0, key), Acquire(0), FindEntry(1, key), Acquire(1)];
    assert [Change(key, true)] + ([Clear] + rest) == [Change(key, true), Clear] + rest;
    StaleAfterClear(key, w3);
  }

  lemma StaleAfterClear(key: string, w: World)
    requires w.now == w.clearedAt == 3 && w.atClear == map[key := 2] && w.slots == [] && w.current == map[]
    requires w.threads == map[0 := Fetched(key, Cached(0, 1))]
    ensures var steps := [FindEntry(0, key), Acquire(0), FindEntry(1, key), Acquire(1)];
            var end := Run(w, steps);
            && end.Some? && !TimelyRun(w, steps)
            && exists a :: a in end.value.answers && a.value.began < a.lookup.cleared && a.value.definition < a.lookup.known
  {
    hide Run, TimelyRun;
    var lookup, stale := Lookup(key, 0, 3, 2), Cached(0, 1);
    var w1 := Next(w, FindEntry(0, key)).value;
    assert w1.slots == [Slot(key, 3, 2, None, None)] && w1.threads[0] == Waiting(lookup, Some(stale)) && !Timely(w1, Acquire(0));
    var w2 := Next(w1, Acquire(0)).value;
    assert w2.slots == [Slot(key, 3, 2, Some(stale), None)] && w2.clearedAt == 3 && w2.atClear == map[key := 2];
    var w3 := Next(w2, FindEntry(1, key)).value;
    assert w3.slots == w2.slots && w3.threads[1] == Waiting(lookup, None);
    var w4 := Next(w3, Acquire(1)).value;
    assert Answer(lookup, stale) in w4.answers;
    FourSteps(w, FindEntry(0, key), Acquire(0), FindEntry(1, key), Acquire(1), w1, w2, w3, w4);
  }

  lemma FourSteps(w: World, a: Step, b: Step, c: Step, d: Step, w1: World, w2: World, w3: World, w4: World)
    requires Next(w, a) == Some(w1) && Next(w1, b) == Some(w2) && Next(w2, c) == Some(w3) && Next(w3, d) == Some(w4)
    ensures Run(w, [a, b, c, d]) == Some(w4) && (TimelyRun(w, [a, b, c, d]) ==> Timely(w1, b))
  {
    hide Run, TimelyRun, Next, Timely;
    RunOne(w, a, [b, c, d]);
    RunOne(w1, b, [c, d]);
    RunOne(w2, c, [d]);
    RunOne(w3, d, []);
    RunNone(w4);
    assert [a] + [b, c, d] == [a, b, c, d] && [b] + [c, d] == [b, c, d] && [c] + [d] == [c, d] && [d] + [] == [d];
  }

  lemma RunNone(w: World)
    ensures Run(w, []) == Some(w)
  {
  }

  lemma RunOne(w: World, step: Step, rest: seq<Step>)
    requires Next(w, step).Some?
    ensures Run(w, [step] + rest) == Run(Next(w, step).value, rest)
    ensures TimelyRun(w, [step] + rest) <==> Timely(w, step) && TimelyRun(Next(w, step).value, rest)
  {
    assert ([step] + rest)[1..] == rest;
  }

  /** The cache as one thread sees it. A slot stays while its value is still to be loaded. */
  class GlueTransactionCache {
    var tables: map<string, Option<nat>>
    var partitions: map<string, Option<nat>>

    constructor ()
      ensures forall key: string :: Value(tables, key) == None && Value(partitions, key) == None
    {
      tables, partitions := map[], map[];
    }

    /** Keys are compared without regard to case. */
    static function Value(entries: map<string, Option<nat>>, key: string): Option<nat> {
      if Lower(key) in entries then entries[Lower(key)] else None
    }

    static method FindEntry(entries: map<string, Option<nat>>, key: string) returns (found: map<string, Option<nat>>)
      ensures Lower(key) in found && forall k: string :: Value(found, k) == Value(entries, k)
    {
      found := if Lower(key) in entries then entries else entries[Lower(key) := None];
    }

    /** The value of the key, or else what loading it finds. */
    static method Resolve(entries: map<string, Option<nat>>, key: string, loaded: Option<nat>)
      returns (resolved: map<string, Option<nat>>, r: Option<nat>)
      requires Lower(key) in entries
      ensures r == if Value(entries, key).Some? then Value(entries, key) else loaded
      ensures Value(resolved, key) == r
      ensures forall k: string | Lower(k) != Lower(key) :: Value(resolved, k) == Value(entries, k)
    {
      resolved := entries;
      if resolved[Lower(key)].None? {
        resolved := resolved[Lower(key) := loaded];
      }
      r := resolved[Lower(key)];
    }

    /** 'loaded' is what asking Glue would find, if it is asked. */
    method GetTable(key: string, loaded: Option<nat>) returns (r: Option<nat>)
      modifies this`tables
      ensures r == if Value(old(tables), key).Some? then Value(old(tables), key) else loaded
      ensures Value(tables, key) == r
      ensures forall k: string | Lower(k) != Lower(key) :: Value(tables, k) == Value(old(tables), k)
    {
      tables := FindEntry(tables, key);
      tables, r := Resolve(tables, key, loaded);
    }

    method GetPartitions(key: string, loaded: Option<nat>) returns (r: Option<nat>)
      modifies this`partitions
      ensures r == if Value(old(partitions), key).Some? then Value(old(partitions), key) else loaded
      ensures Value(partitions, key) == r
      ensures forall k: string | Lower(k) != Lower(key) :: Value(partitions, k) == Value(old(partitions), k)
    {
      partitions := FindEntry(partitions, key);
      partitions, r := Resolve(partitions, key, loaded);
    }

    method Clear()
      modifies this
      ensures forall key: string :: Value(tables, key) == None && Value(partitions, key) == None
    {
      tables, partitions := map[], map[];
    }
  }
}
