/** ALTER TABLE with several partition actions: checked together, sent in batches, and meaning the actions one by one. */
module AlterTable {
  import opened Outcomes
  import opened GlueService
  import opened PartitionApi

  datatype Step =
    | Add(values: Values, location: string, ifNotExists: bool)
    | Drop(values: Values, ifExists: bool)
    | Rename(values: Values, newValues: Values)
    | SetPartitionLocation(values: Values, location: string, ifExists: bool)
    | SetTableLocation(location: string)

  /** What the statement means: its actions one after another. Adding a partition that exists and dropping one that
      does not do nothing; None is an action that can not be done. */
  datatype Definition = Definition(partitions: Partitions, tableLocation: string)

  function Done(d: Definition, step: Step): Option<Definition> {
    match step
    case Add(v, location, _) => Some(if v in d.partitions then d else d.(partitions := d.partitions[v := location]))
    case Drop(v, _) => Some(d.(partitions := d.partitions - {v}))
    case Rename(v, w) =>
      if v !in d.partitions || (w != v && w in d.partitions) then None
      else Some(d.(partitions := (d.partitions - {v})[w := d.partitions[v]]))
    case SetPartitionLocation(v, location, _) =>
      if v !in d.partitions then None else Some(d.(partitions := d.partitions[v := location]))
    case SetTableLocation(location) => Some(d.(tableLocation := location))
  }

  function OneByOne(d: Definition, steps: seq<Step>): Option<Definition> {
    if steps == [] then Some(d)
    else match OneByOne(d, steps[..|steps| - 1])
      case None => None
      case Some(before) => Done(before, steps[|steps| - 1])
  }

  lemma OneMore(d: Definition, steps: seq<Step>, i: nat)
    requires i < |steps|
    ensures OneByOne(d, steps[..i + 1]) ==
            match OneByOne(d, steps[..i]) case None => None case Some(before) => Done(before, steps[i])
  {
    assert steps[..i + 1][..i] == steps[..i];
  }

  // What the statement does: it renames a partition as it was when it was checked.

  function CheckedLocation(start: Partitions, step: Step): Option<string> {
    if step.Rename? && step.values in start then Some(start[step.values]) else None
  }

  function Taken(d: Definition, step: Step, checked: Option<string>): Option<Definition> {
    match step
    case Rename(v, w) =>
      if v !in d.partitions || (w != v && w in d.partitions) || checked.None? then None
      else Some(d.(partitions := (d.partitions - {v})[w := checked.value]))
    case _ => Done(d, step)
  }

  function AsTaken(start: Definition, steps: seq<Step>): Option<Definition> {
    if steps == [] then Some(start)
    else match AsTaken(start, steps[..|steps| - 1])
      case None => None
      case Some(before) =>
        var last := steps[|steps| - 1];
        Taken(before, last, CheckedLocation(start.partitions, last))
  }

  lemma OneMoreTaken(start: Definition, steps: seq<Step>, i: nat)
    requires i < |steps|
    ensures AsTaken(start, steps[..i + 1]) ==
            match AsTaken(start, steps[..i])
            case None => None
            case Some(before) => Taken(before, steps[i], CheckedLocation(start.partitions, steps[i]))
  {
    assert steps[..i + 1][..i] == steps[..i];
  }

  // What the checks refuse.

  predicate Refuses(partitions: Partitions, step: Step) {
    match step
    case Add(v, _, ifNotExists) => !ifNotExists && v in partitions
    case Drop(v, ifExists) => !ifExists && v !in partitions
    case Rename(v, w) => v !in partitions || w in partitions
    case SetPartitionLocation(v, _, ifExists) => !ifExists && v !in partitions
    case SetTableLocation(_) => false
  }

  predicate Checked(partitions: Partitions, steps: seq<Step>) {
    forall i | 0 <= i < |steps| :: !Refuses(partitions, steps[i])
  }

  // When batches may stand for single steps.

  predicate Names(step: Step, v: Values) {
    match step
    case Add(w, _, _) => v == w
    case Drop(w, _) => v == w
    case Rename(w, x) => v == w || v == x
    case SetPartitionLocation(w, _, _) => v == w
    case SetTableLocation(_) => false
  }

  /** The action can make the partition another one: there, gone, or elsewhere. */
  ghost predicate CanChange(step: Step, v: Values) {
    exists d: Definition :: Done(d, step).Some? && Changes(d.partitions, Done(d, step).value.partitions, v)
  }

  predicate Changes(before: Partitions, after: Partitions, v: Values) {
    (v in before) != (v in after) || (v in before && before[v] != after[v])
  }

  /** An action names the partitions it can change, and no others; one renamed to itself it names too. */
  lemma NamesWhatItChanges(step: Step, v: Values)
    ensures Names(step, v) <==> CanChange(step, v) || (step.Rename? && step.values == step.newValues == v)
  {
    var there := Definition(map[v := "there"], "");
    match step
    case Add(w, location, _) =>
      if v == w {
        var d := Definition(map[], "");
        assert Changes(d.partitions, Done(d, step).value.partitions, v);
      }
    case Drop(w, _) =>
      if v == w {
        assert Changes(there.partitions, Done(there, step).value.partitions, v);
      }
    case Rename(w, x) =>
      if w != x && (v == w || v == x) {
        var d := Definition(map[w := "there"], "");
        assert Changes(d.partitions, Done(d, step).value.partitions, v);
      }
    case SetPartitionLocation(w, location, _) =>
      if v == w {
        var d := Definition(map[v := location + "/"], "");
        assert Changes(d.partitions, Done(d, step).value.partitions, v);
      }
    case SetTableLocation(_) =>
  }

  /** Adds that go out together have different values. */
  predicate DistinctAdds(steps: seq<Step>) {
    forall i, j | 0 <= i < j < |steps| && (forall k | i <= k <= j :: steps[k].Add?) :: steps[i].values != steps[j].values
  }

  /** A partition to be renamed is named by no earlier step. */
  predicate RenamesFirst(steps: seq<Step>) {
    forall i, j | 0 <= i < j < |steps| && steps[j].Rename? :: !Names(steps[i], steps[j].values)
  }

  /** Where the partition can be renamed it is at the location it was checked at. */
  predicate Finds(start: Partitions, now: Partitions, step: Step) {
    step.Rename? && step.values in now && (step.newValues == step.values || step.newValues !in now) ==>
      step.values in start && now[step.values] == start[step.values]
  }

  lemma StepsAgree(start: Definition, before: Definition, step: Step)
    ensures Taken(before, step, CheckedLocation(start.partitions, step)) == Done(before, step) <==>
            Finds(start.partitions, before.partitions, step)
  {
    if step.Rename? && step.values in before.partitions && step.values in start.partitions {
      var v, w := step.values, step.newValues;
      var done, taken := (before.partitions - {v})[w := before.partitions[v]], (before.partitions - {v})[w := start.partitions[v]];
      assert done[w] == before.partitions[v] && taken[w] == start.partitions[v];
    }
  }

  predicate AgreeUpTo(start: Definition, steps: seq<Step>, i: nat)
    requires i <= |steps|
  {
    AsTaken(start, steps[..i]) == OneByOne(start, steps[..i])
  }

  predicate FindsAt(start: Definition, steps: seq<Step>, j: nat)
    requires j < |steps|
  {
    OneByOne(start, steps[..j]).Some? ==> Finds(start.partitions, OneByOne(start, steps[..j]).value.partitions, steps[j])
  }

  /** No partition to be renamed has got another location by the actions before. */
  predicate RenamesAsChecked(start: Definition, steps: seq<Step>) {
    forall j | 0 <= j < |steps| :: FindsAt(start, steps, j)
  }

  lemma AgreeNext(start: Definition, steps: seq<Step>, i: nat)
    requires i < |steps| && AgreeUpTo(start, steps, i)
    ensures AgreeUpTo(start, steps, i + 1) <==> FindsAt(start, steps, i)
  {
    hide Taken, Done, Finds, OneByOne, AsTaken;
    OneMore(start, steps, i);
    OneMoreTaken(start, steps, i);
    if OneByOne(start, steps[..i]).Some? {
      StepsAgree(start, OneByOne(start, steps[..i]).value, steps[i]);
    }
  }

  /** The statement does its actions one by one, up to each of them, exactly when no partition to be renamed has got
      another location by then. */
  lemma {:induction false} TakenOneByOneExactlyWhen(start: Definition, steps: seq<Step>)
    ensures (forall i | 0 <= i <= |steps| :: AgreeUpTo(start, steps, i)) <==> RenamesAsChecked(start, steps)
  {
    assert AgreeUpTo(start, steps, 0);
    hide AgreeUpTo, FindsAt;
    if forall i | 0 <= i <= |steps| :: AgreeUpTo(start, steps, i) {
      forall j | 0 <= j < |steps|
        ensures FindsAt(start, steps, j)
      {
        assert AgreeUpTo(start, steps, j + 1);
        AgreeNext(start, steps, j);
      }
    }
    if RenamesAsChecked(start, steps) {
      for i := 0 to |steps|
        invariant forall k | 0 <= k <= i :: AgreeUpTo(start, steps, k)
      {
        assert AgreeUpTo(start, steps, i) && FindsAt(start, steps, i);
        AgreeNext(start, steps, i);
      }
    }
  }

  /** A step leaves the partitions it does not name. */
  lemma {:induction false} UnnamedStays(d: Definition, steps: seq<Step>, v: Values)
    requires OneByOne(d, steps).Some? && forall i | 0 <= i < |steps| :: !Names(steps[i], v)
    ensures var p := OneByOne(d, steps).value.partitions;
            (v in p <==> v in d.partitions) && (v in p ==> p[v] == d.partitions[v])
  {
    if steps != [] {
      UnnamedStays(d, steps[..|steps| - 1], v);
    }
  }

  /** A condition on the statement alone that is enough for the partitions there are. */
  lemma NamedOnceIsAsChecked(start: Definition, steps: seq<Step>)
    requires RenamesFirst(steps)
    ensures RenamesAsChecked(start, steps)
  {
    forall j | 0 <= j < |steps| && OneByOne(start, steps[..j]).Some?
      ensures FindsAt(start, steps, j)
    {
      if steps[j].Rename? {
        assert forall k | 0 <= k < j :: steps[..j][k] == steps[k];
        UnnamedStays(start, steps[..j], steps[j].values);
      }
    }
  }

  // The end of the statement.

  /** The partitions that are left, at the end, with the location they were checked at although another was due. */
  function Lost(start: Definition, steps: seq<Step>): set<Values> {
    if steps == [] then {}
    else
      var front := steps[..|steps| - 1];
      match OneByOne(start, front)
      case None => {}
      case Some(before) => LostBy(start.partitions, before.partitions, Lost(start, front), steps[|steps| - 1])
  }

  /** A rename loses a location got in between; a new location, or dropping the partition, makes up for it. */
  function LostBy(start: Partitions, now: Partitions, lost: set<Values>, step: Step): set<Values> {
    match step
    case Rename(v, w) => lost - {v, w} + if v in now && v in start && now[v] != start[v] then {w} else {}
    case Drop(v, _) => lost - {v}
    case SetPartitionLocation(v, _, _) => lost - {v}
    case _ => lost
  }

  /** The two runs have the same partitions, which differ in their locations exactly where one is lost. */
  ghost predicate DifferBy(taken: Option<Definition>, meant: Option<Definition>, lost: set<Values>) {
    match (taken, meant)
    case (Some(a), Some(b)) =>
      && a.tableLocation == b.tableLocation && a.partitions.Keys == b.partitions.Keys && lost <= a.partitions.Keys
      && forall v | v in a.partitions :: v in lost <==> a.partitions[v] != b.partitions[v]
    case _ => taken == meant
  }

  lemma LostNext(start: Definition, a: Definition, b: Definition, lost: set<Values>, step: Step)
    requires DifferBy(Some(a), Some(b), lost) && (step.Rename? ==> step.values in start.partitions)
    ensures DifferBy(Taken(a, step, CheckedLocation(start.partitions, step)), Done(b, step), LostBy(start.partitions, b.partitions, lost, step))
  {
  }

  lemma {:induction false} DifferByLost(start: Definition, steps: seq<Step>)
    requires forall i | 0 <= i < |steps| && steps[i].Rename? :: steps[i].values in start.partitions
    ensures DifferBy(AsTaken(start, steps), OneByOne(start, steps), Lost(start, steps))
  {
    hide Taken, Done, LostBy, CheckedLocation;
    if steps != [] {
      var front, last := steps[..|steps| - 1], steps[|steps| - 1];
      assert forall i | 0 <= i < |front| :: front[i] == steps[i];
      DifferByLost(start, front);
      if OneByOne(start, front).Some? {
        LostNext(start, AsTaken(start, front).value, OneByOne(start, front).value, Lost(start, front), last);
      }
    }
  }

  /** A statement that passes its checks ends as its actions one by one do exactly when no location is lost at the end. */
  lemma EndsOneByOneExactlyWhen(start: Definition, steps: seq<Step>)
    requires Checked(start.partitions, steps)
    ensures AsTaken(start, steps).Some? <==> OneByOne(start, steps).Some?
    ensures AsTaken(start, steps) == OneByOne(start, steps) <==> OneByOne(start, steps).None? || Lost(start, steps) == {}
  {
    hide AsTaken, OneByOne, Lost;
    forall i | 0 <= i < |steps| && steps[i].Rename?
      ensures steps[i].values in start.partitions
    {
      assert !Refuses(start.partitions, steps[i]);
    }
    DifferByLost(start, steps);
    if AsTaken(start, steps).Some? && Lost(start, steps) == {} {
      assert AsTaken(start, steps).value.partitions == OneByOne(start, steps).value.partitions;
    }
  }

  // What waits to be sent.

  function Created(partitions: Partitions, inputs: seq<PartitionInput>): Partitions {
    if inputs == [] then partitions
    else
      var before, last := Created(partitions, inputs[..|inputs| - 1]), inputs[|inputs| - 1];
      if last.values in before then before else before[last.values := last.location]
  }

  lemma {:induction false} CreatedHas(partitions: Partitions, inputs: seq<PartitionInput>)
    ensures var p := Created(partitions, inputs);
            && (forall v | v in partitions :: v in p && p[v] == partitions[v])
            && (forall v | v in p :: v in partitions || PartitionInput(v, p[v]) in inputs)
            && (forall i | 0 <= i < |inputs| :: inputs[i].values in p)
  {
    if inputs != [] {
      var front, last := inputs[..|inputs| - 1], inputs[|inputs| - 1];
      CreatedHas(partitions, front);
      assert inputs == front + [last];
      assert forall i | 0 <= i < |front| :: front[i] == inputs[i];
    }
  }

  /** Only one location is asked for each of several distinct partitions. */
  lemma OneLocation(inputs: seq<PartitionInput>, v: Values, a: string, b: string)
    requires DistinctInputs(inputs) && PartitionInput(v, a) in inputs && PartitionInput(v, b) in inputs
    ensures a == b
  {
    var i :| 0 <= i < |inputs| && inputs[i] == PartitionInput(v, a);
    var j :| 0 <= j < |inputs| && inputs[j] == PartitionInput(v, b);
    assert i == j;
  }

  /** Without other writers a batch of adds that returns normally did them all. */
  lemma QuietCreated(server: GlueServer, from: nat, to: nat, before: Partitions, after: Partitions, inputs: seq<PartitionInput>)
    requires server.Quiet() && DistinctInputs(inputs) && Survives(server, from, to, before, after, inputs)
    requires forall i | 0 <= i < |inputs| :: Present(server, from, to, after, inputs[i].values)
    ensures after == Created(before, inputs)
  {
    var expected := Created(before, inputs);
    CreatedHas(before, inputs);
    forall v | v in after
      ensures v in expected && after[v] == expected[v]
    {
      if v !in before {
        var i :| 0 <= i < |inputs| && inputs[i] == PartitionInput(v, after[v]);
        OneLocation(inputs, v, after[v], expected[v]);
      }
    }
    forall v | v in expected
      ensures v in after
    {
      if v !in before {
        var i :| 0 <= i < |inputs| && inputs[i] == PartitionInput(v, expected[v]);
      }
    }
  }

  lemma QuietDeleted(server: GlueServer, from: nat, to: nat, before: Partitions, after: Partitions, named: seq<Values>)
    requires server.Quiet() && Spares(server, from, to, before, after, named) && AllGone(server, from, to, after, named)
    ensures after == before - (set v | v in named)
  {
  }

  /** What the partitions are once what waits is sent. */
  function Flushed(partitions: Partitions, adds: seq<PartitionInput>, drops: seq<Values>): Partitions {
    if drops == [] then Created(partitions, adds) else Created(partitions, adds) - set v | v in drops
  }

  /** A partition is renamed as it was when it was checked: giving it a location first in the same statement is lost. */
  lemma LocationIsLostOnRename(v: Values, w: Values, location: string, checked: string)
    requires v != w && location != checked
    ensures var steps := [SetPartitionLocation(v, location, false), Rename(v, w)];
            && !RenamesFirst(steps) && DistinctAdds(steps)
            && var start := Definition(map[v := checked], "");
               Checked(start.partitions, steps) && OneByOne(start, steps) == Some(Definition(map[w := location], "")) &&
               AsTaken(start, steps) == Some(Definition(map[w := checked], "")) && !RenamesAsChecked(start, steps)
  {
    var steps := [SetPartitionLocation(v, location, false), Rename(v, w)];
    var start := Definition(map[v := checked], "");
    assert steps[0] == SetPartitionLocation(v, location, false) && steps[1] == Rename(v, w) && Names(steps[0], v);
    OneMore(start, steps, 0);
    OneMore(start, steps, 1);
    assert steps[..2] == steps && steps[..0] == [];
    var end := (map[v := location] - {v})[w := location];
    assert end == map[w := location];
    assert start.partitions[v := location] == map[v := location];
    OneMoreTaken(start, steps, 0);
    OneMoreTaken(start, steps, 1);
    assert (map[v := location] - {v})[w := checked] == map[w := checked];
    assert end[w] == location && map[w := checked][w] == checked;
    TakenOneByOneExactlyWhen(start, steps);
    assert !AgreeUpTo(start, steps, 2);
  }
}
