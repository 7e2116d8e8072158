/** Pruning partitions by filters: which partitions are read, and which filters are no longer needed. */
module Pruning {
  import opened Outcomes
  import opened Text
  import opened PartitionValues

  datatype Op = AndOp | OrOp | NotOp | EqualOp | LessOp | PlusOp | IsNullOp | IfOp

  /** Volatile stands for a function like random(): its value differs from row to row. */
  datatype Expr = Constant(value: Value) | Column(table: nat, index: nat) | Volatile(id: nat) | Call(op: Op, args: seq<Expr>)

  datatype Row = Row(columns: map<(nat, nat), Value>, volatile: map<nat, Value>)

  function And(a: Value, b: Value): Value {
    if a == BoolValue(false) || b == BoolValue(false) then BoolValue(false)
    else if a == Null || b == Null then Null
    else BoolValue(true)
  }

  function Not(a: Value): Value {
    match a
    case BoolValue(b) => BoolValue(!b)
    case _ => Null
  }

  predicate IsTruth(v: Value) {
    v.Null? || v.BoolValue?
  }

  /** Three-valued logic; None is an error while running, an overflow for one. */
  function Apply(op: Op, args: seq<Value>): Option<Value> {
    match (op, |args|)
    case (AndOp, 2) => if IsTruth(args[0]) && IsTruth(args[1]) then Some(And(args[0], args[1])) else None
    case (OrOp, 2) => if IsTruth(args[0]) && IsTruth(args[1]) then Some(Not(And(Not(args[0]), Not(args[1])))) else None
    case (NotOp, 1) => if IsTruth(args[0]) then Some(Not(args[0])) else None
    case (EqualOp, 2) => Some(if args[0] == Null || args[1] == Null then Null else BoolValue(args[0] == args[1]))
    case (LessOp, 2) => Less(args[0], args[1])
    case (PlusOp, 2) => Plus(args[0], args[1])
    case (IsNullOp, 1) => Some(BoolValue(args[0] == Null))
    case (IfOp, 3) => if !IsTruth(args[0]) then None else Some(if args[0] == BoolValue(true) then args[1] else args[2])
    case _ => None
  }

  /** A conjunction is true when both sides are and false when one is; a disjunction the other way round; anything but
      a truth value or NULL on one side is an error. */
  lemma ThreeValued(a: Value, b: Value)
    ensures Apply(AndOp, [a, b]) == Some(BoolValue(true)) <==> a == BoolValue(true) && b == BoolValue(true)
    ensures Apply(OrOp, [a, b]) == Some(BoolValue(false)) <==> a == BoolValue(false) && b == BoolValue(false)
    ensures Apply(AndOp, [a, b]) == None <==> !(a == Null || a.BoolValue?) || !(b == Null || b.BoolValue?)
    ensures Apply(OrOp, [a, b]) == None <==> !(a == Null || a.BoolValue?) || !(b == Null || b.BoolValue?)
    ensures Apply(AndOp, [a, b]).Some? ==>
              (Apply(AndOp, [a, b]) == Some(BoolValue(false)) <==> a == BoolValue(false) || b == BoolValue(false))
    ensures Apply(OrOp, [a, b]).Some? ==>
              (Apply(OrOp, [a, b]) == Some(BoolValue(true)) <==> a == BoolValue(true) || b == BoolValue(true))
    ensures Apply(NotOp, [BoolValue(true)]) == Some(BoolValue(false)) && Apply(NotOp, [BoolValue(false)]) == Some(BoolValue(true))
    ensures Apply(NotOp, [Null]) == Some(Null) && Apply(IsNullOp, [a]) == Some(BoolValue(a == Null))
  {
  }

  /** Comparisons and sums with NULL are NULL; numbers are compared and added as numbers, a sum of more than 64 bits being
      an error, and texts compared in the order of listings; anything else is an error. */
  lemma Operators(a: Value, b: Value, i: int, j: int, s: string, t: string)
    ensures Apply(EqualOp, [a, b]) == Some(Null) <==> a == Null || b == Null
    ensures a != Null && b != Null ==> Apply(EqualOp, [a, b]) == Some(BoolValue(a == b))
    ensures a == Null || b == Null ==> Apply(LessOp, [a, b]) == Some(Null) && Apply(PlusOp, [a, b]) == Some(Null)
    ensures Apply(LessOp, [IntValue(i), IntValue(j)]) == Some(BoolValue(i < j))
    ensures Apply(LessOp, [TextValue(s), TextValue(t)]) == Some(BoolValue(s != t && AtMost(s, t)))
    ensures Apply(LessOp, [IntValue(i), TextValue(t)]) == None && Apply(PlusOp, [TextValue(s), TextValue(t)]) == None
    ensures Apply(PlusOp, [IntValue(i), IntValue(j)]) ==
            if -0x8000_0000_0000_0000 <= i + j < 0x8000_0000_0000_0000 then Some(IntValue(i + j)) else None
    ensures Apply(IfOp, [BoolValue(true), a, b]) == Some(a) && Apply(IfOp, [BoolValue(false), a, b]) == Some(b)
    ensures Apply(IfOp, [Null, a, b]) == Some(b)
  {
  }

  /** A call has the value its operator gives the values of all its arguments, and fails when one fails. */
  lemma {:induction false} CallEvaluates(op: Op, args: seq<Expr>, row: Row)
    ensures (exists e :: e in args && Eval(e, row) == None) ==> Eval(Call(op, args), row) == None
    ensures (forall e | e in args :: Eval(e, row).Some?) ==>
              Eval(Call(op, args), row) ==
              Apply(op, seq(|args|, k requires 0 <= k < |args| => ValueIn(args[k], row)))
  {
    AllEvaluate(args, row);
    if forall e | e in args :: Eval(e, row).Some? {
      assert EvalAll(args, row).value == seq(|args|, k requires 0 <= k < |args| => ValueIn(args[k], row));
    }
  }

  function ValueIn(e: Expr, row: Row): Value {
    match Eval(e, row)
    case Some(v) => v
    case None => Null
  }

  lemma {:induction false} AllEvaluate(es: seq<Expr>, row: Row)
    ensures EvalAll(es, row).Some? <==> forall e | e in es :: Eval(e, row).Some?
    ensures EvalAll(es, row).Some? ==>
              |EvalAll(es, row).value| == |es| && forall k | 0 <= k < |es| :: Eval(es[k], row) == Some(EvalAll(es, row).value[k])
  {
    hide Eval;
    if es != [] {
      assert es[0] in es && (forall e | e in es :: e == es[0] || e in es[1..]) && forall e | e in es[1..] :: e in es;
      AllEvaluate(es[1..], row);
      if EvalAll(es, row).Some? {
        forall k | 0 <= k < |es|
          ensures Eval(es[k], row) == Some(EvalAll(es, row).value[k])
        {
          assert k > 0 ==> es[k] == es[1..][k - 1];
        }
      }
    }
  }

  function Less(a: Value, b: Value): Option<Value> {
    match (a, b)
    case (IntValue(i), IntValue(j)) => Some(BoolValue(i < j))
    case (TextValue(s), TextValue(t)) => Some(BoolValue(s != t && AtMost(s, t)))
    case _ => if a == Null || b == Null then Some(Null) else None
  }

  function Plus(a: Value, b: Value): Option<Value> {
    match (a, b)
    case (IntValue(i), IntValue(j)) => if InRange(i + j) then Some(IntValue(i + j)) else None
    case _ => if a == Null || b == Null then Some(Null) else None
  }

  function Eval(e: Expr, row: Row): Option<Value> {
    match e
    case Constant(v) => Some(v)
    case Column(t, i) => if (t, i) in row.columns then Some(row.columns[(t, i)]) else None
    case Volatile(id) => if id in row.volatile then Some(row.volatile[id]) else None
    case Call(op, args) =>
      match EvalAll(args, row)
      case Some(values) => Apply(op, values)
      case None => None
  }

  function EvalAll(es: seq<Expr>, row: Row): Option<seq<Value>> {
    if es == [] then Some([])
    else match (Eval(es[0], row), EvalAll(es[1..], row))
      case (Some(v), Some(rest)) => Some([v] + rest)
      case _ => None
  }

  /** Neither a column of any table nor a volatile function is left. */
  predicate Foldable(e: Expr) {
    match e
    case Constant(_) => true
    case Column(_, _) => false
    case Volatile(_) => false
    case Call(_, args) => forall i | 0 <= i < |args| :: Foldable(args[i])
  }

  /** A projected column that is a partition key. */
  datatype Projection = Projection(column: nat, key: nat, keyType: KeyType)

  datatype Scan = Scan(table: nat, projections: seq<Projection>) {
    function KeyOf(column: nat): Option<Projection> {
      FirstFor(projections, column)
    }

    static function FirstFor(projections: seq<Projection>, column: nat): Option<Projection> {
      if projections == [] then None
      else if projections[0].column == column then Some(projections[0])
      else FirstFor(projections[1..], column)
    }

    /** The value a partition gives a key; None is a value its type can not hold, or one that is missing. */
    function KeyValue(projection: Projection, values: seq<string>): Option<Value> {
      if projection.key < |values| then PartitionValue(values[projection.key], projection.keyType) else None
    }

    function Replace(e: Expr, values: seq<string>): Option<Expr> {
      match e
      case Column(t, i) =>
        if t != table || KeyOf(i).None? then Some(e)
        else
          (match KeyValue(KeyOf(i).value, values)
           case Some(v) => Some(Constant(v))
           case None => None)
      case Call(op, args) =>
        (match ReplaceAll(args, values)
         case Some(replaced) => Some(Call(op, replaced))
         case None => None)
      case _ => Some(e)
    }

    function ReplaceAll(es: seq<Expr>, values: seq<string>): Option<seq<Expr>> {
      if es == [] then Some([])
      else match (Replace(es[0], values), ReplaceAll(es[1..], values))
        case (Some(e), Some(rest)) => Some([e] + rest)
        case _ => None
    }

    /** The row comes from a partition with these values: its key columns hold them. */
    ghost predicate RowOf(row: Row, values: seq<string>) {
      forall i: nat {:trigger KeyOf(i)} :: KeyOf(i).Some? && KeyValue(KeyOf(i).value, values).Some? ==>
        (table, i) in row.columns && Some(row.columns[(table, i)]) == KeyValue(KeyOf(i).value, values)
    }

    /** Replacing a partition's columns by its values changes no filter's value in its rows. */
    lemma {:induction false} ReplaceKeepsValue(e: Expr, values: seq<string>, row: Row)
      requires RowOf(row, values) && Replace(e, values).Some?
      ensures Eval(Replace(e, values).value, row) == Eval(e, row)
    {
      match e
      case Column(t, i) =>
        if t == table {
          assert KeyOf(i) == KeyOf(i);
        }
      case Call(op, args) => ReplaceAllKeepsValues(args, values, row);
      case _ =>
    }

    lemma {:induction false} ReplaceAllKeepsValues(es: seq<Expr>, values: seq<string>, row: Row)
      requires RowOf(row, values) && ReplaceAll(es, values).Some?
      ensures EvalAll(ReplaceAll(es, values).value, row) == EvalAll(es, row)
    {
      if es != [] {
        ReplaceKeepsValue(es[0], values, row);
        ReplaceAllKeepsValues(es[1..], values, row);
        var replaced := ReplaceAll(es, values).value;
        assert replaced[0] == Replace(es[0], values).value && replaced[1..] == ReplaceAll(es[1..], values).value;
      }
    }

    /** What the partition alone says of a filter. Fails is an error that ends the query: a filter that can not be
        computed ends it only when strict, in the pruning by the join's filters. */
    function Decide(filter: Expr, values: seq<string>, strict: bool): Verdict {
      match Replace(filter, values)
      case None => Fails
      case Some(closed) =>
        if !Foldable(closed) then Undecided
        else match Eval(closed, NO_ROW)
          case None => if strict then Fails else Undecided
          case Some(v) => if v == BoolValue(true) then Holds else RulesOut
    }

    lemma DecidedInRows(filter: Expr, values: seq<string>, strict: bool, row: Row)
      requires RowOf(row, values)
      ensures Decide(filter, values, strict) == Holds ==> Eval(filter, row) == Some(BoolValue(true))
      ensures Decide(filter, values, strict) == RulesOut ==> Eval(filter, row) != Some(BoolValue(true))
    {
      if Replace(filter, values).Some? {
        ReplaceKeepsValue(filter, values, row);
        if Foldable(Replace(filter, values).value) {
          FoldedAnywhere(Replace(filter, values).value, row);
        }
      }
    }

    // The same said by rows.

    /** A column stands for the key of its first projection. */
    lemma KeyOfIsFirst(column: nat)
      ensures KeyOf(column).None? <==> forall p | p in projections :: p.column != column
      ensures KeyOf(column).Some? <==>
              exists k :: 0 <= k < |projections| && projections[k].column == column && KeyOf(column) == Some(projections[k]) &&
                          forall j | 0 <= j < k :: projections[j].column != column
    {
      FirstForIsFirst(projections, column);
    }

    static lemma {:induction false} FirstForIsFirst(projections: seq<Projection>, column: nat)
      ensures FirstFor(projections, column).None? <==> forall p | p in projections :: p.column != column
      ensures FirstFor(projections, column).Some? ==>
              exists k :: 0 <= k < |projections| && projections[k].column == column &&
                          FirstFor(projections, column) == Some(projections[k]) &&
                          forall j | 0 <= j < k :: projections[j].column != column
    {
      if projections != [] {
        assert projections == [projections[0]] + projections[1..];
        FirstForIsFirst(projections[1..], column);
        if projections[0].column == column {
          assert FirstFor(projections, column) == Some(projections[0]);
        } else if FirstFor(projections[1..], column).Some? {
          var k :| 0 <= k < |projections[1..]| && projections[1..][k].column == column &&
            FirstFor(projections[1..], column) == Some(projections[1..][k]) &&
            forall j | 0 <= j < k :: projections[1..][j].column != column;
          forall j | 0 <= j < k + 1
            ensures projections[j].column != column
          {
            assert j > 0 ==> projections[j] == projections[1..][j - 1];
          }
          assert projections[k + 1] == projections[1..][k];
        }
      }
    }

    /** The filter needs no more than a partition: every column in it is a key of the scanned table, and nothing in it
        differs from row to row. */
    predicate OfKeysOnly(e: Expr) {
      match e
      case Constant(_) => true
      case Column(t, i) => t == table && exists p | p in projections :: p.column == i
      case Volatile(_) => false
      case Call(_, args) => forall a | a in args :: OfKeysOnly(a)
    }

    /** Every key the filter names has a value in the partition that the key's type holds. */
    predicate NamesReadable(e: Expr, values: seq<string>) {
      match e
      case Column(t, i) =>
        t == table && KeyOf(i).Some? ==>
          KeyOf(i).value.key < |values| && PartitionValue(values[KeyOf(i).value.key], KeyOf(i).value.keyType).Some?
      case Call(_, args) => forall a | a in args :: NamesReadable(a, values)
      case _ => true
    }

    lemma {:induction false} ReplacedExactlyWhen(e: Expr, values: seq<string>)
      ensures Replace(e, values).Some? <==> NamesReadable(e, values)
      ensures Replace(e, values).Some? ==> (Foldable(Replace(e, values).value) <==> OfKeysOnly(e))
    {
      match e
      case Column(t, i) => KeyOfIsFirst(i);
      case Call(op, args) => AllReplacedExactlyWhen(args, values);
      case _ =>
    }

    lemma {:induction false} AllReplacedExactlyWhen(es: seq<Expr>, values: seq<string>)
      ensures ReplaceAll(es, values).Some? <==> forall e | e in es :: NamesReadable(e, values)
      ensures ReplaceAll(es, values).Some? ==>
                var replaced := ReplaceAll(es, values).value;
                |replaced| == |es| && ((forall k | 0 <= k < |es| :: Foldable(replaced[k])) <==> forall e | e in es :: OfKeysOnly(e))
    {
      if es != [] {
        assert es == [es[0]] + es[1..];
        ReplacedExactlyWhen(es[0], values);
        AllReplacedExactlyWhen(es[1..], values);
        if ReplaceAll(es, values).Some? {
          var replaced, rest := ReplaceAll(es, values).value, ReplaceAll(es[1..], values).value;
          assert replaced[0] == Replace(es[0], values).value && replaced[1..] == rest;
          assert forall k | 0 <= k < |rest| :: rest[k] == replaced[k + 1];
        }
      }
    }

    /** What a filter does with a partition, by any row of it: it fails when a key it names can not be read, or when it
        is of keys only, is strict and fails in the row; it rules the partition out when it is of keys only and false or
        NULL in the row. */
    lemma DecidesByRows(filter: Expr, values: seq<string>, strict: bool, row: Row)
      requires RowOf(row, values)
      ensures Decide(filter, values, strict) ==
              if !NamesReadable(filter, values) then Fails
              else if !OfKeysOnly(filter) then Undecided
              else match Eval(filter, row)
                case None => if strict then Fails else Undecided
                case Some(v) => if v == BoolValue(true) then Holds else RulesOut
    {
      hide RowOf;
      ReplacedExactlyWhen(filter, values);
      if Replace(filter, values).Some? {
        ReplaceKeepsValue(filter, values, row);
        if OfKeysOnly(filter) {
          FoldedAnywhere(Replace(filter, values).value, row);
        }
      }
    }

    predicate FailsFor(filter: Expr, values: seq<string>, strict: bool, row: Row) {
      !NamesReadable(filter, values) || (strict && OfKeysOnly(filter) && Eval(filter, row) == None)
    }

    predicate FalseFor(filter: Expr, values: seq<string>, row: Row) {
      NamesReadable(filter, values) && OfKeysOnly(filter) && Eval(filter, row).Some? && Eval(filter, row) != Some(BoolValue(true))
    }

    /** How the filters decide a partition, taken in order: the first that rules it out or fails ends the search. */
    function DecideAll(filters: seq<Expr>, values: seq<string>, strict: bool): Verdict {
      if filters == [] then Undecided
      else match Decide(filters[0], values, strict)
        case Fails => Fails
        case RulesOut => RulesOut
        case _ => DecideAll(filters[1..], values, strict)
    }

    /** A partition is dropped only when none of its rows satisfies the filters. */
    lemma {:induction false} DroppedHasNoRows(filters: seq<Expr>, values: seq<string>, strict: bool, row: Row) returns (k: nat)
      requires RowOf(row, values) && DecideAll(filters, values, strict) == RulesOut
      ensures k < |filters| && Eval(filters[k], row) != Some(BoolValue(true))
    {
      DecidedInRows(filters[0], values, strict, row);
      if Decide(filters[0], values, strict) == RulesOut {
        k := 0;
      } else {
        k := DroppedHasNoRows(filters[1..], values, strict, row);
        k := k + 1;
      }
    }

    /** The filters rule a partition out exactly when one is false of it and none before fails, and fail exactly when one
        fails and none before is false. */
    lemma {:induction false} DecideAllByRows(filters: seq<Expr>, values: seq<string>, strict: bool, row: Row)
      requires RowOf(row, values)
      ensures DecideAll(filters, values, strict) == RulesOut <==>
              exists k | 0 <= k < |filters| :: FalseFor(filters[k], values, row) &&
                                              forall j | 0 <= j < k :: !FailsFor(filters[j], values, strict, row)
      ensures DecideAll(filters, values, strict) == Fails <==>
              exists k | 0 <= k < |filters| :: FailsFor(filters[k], values, strict, row) &&
                                              forall j | 0 <= j < k :: !FalseFor(filters[j], values, row)
    {
      hide RowOf, Decide;
      if filters != [] {
        DecidesByRows(filters[0], values, strict, row);
        DecideAllByRows(filters[1..], values, strict, row);
        FirstOrLater(filters, (f: Expr) => FalseFor(f, values, row), (f: Expr) => FailsFor(f, values, strict, row));
        FirstOrLater(filters, (f: Expr) => FailsFor(f, values, strict, row), (f: Expr) => FalseFor(f, values, row));
      }
    }

    static lemma FirstOrLater(filters: seq<Expr>, p: Expr -> bool, q: Expr -> bool)
      requires filters != []
      ensures (exists k | 0 <= k < |filters| :: p(filters[k]) && forall j | 0 <= j < k :: !q(filters[j])) <==>
              p(filters[0]) || (!q(filters[0]) && exists k | 0 <= k < |filters[1..]| ::
                                  p(filters[1..][k]) && forall j | 0 <= j < k :: !q(filters[1..][j]))
    {
      var rest := filters[1..];
      if k :| 0 <= k < |filters| && p(filters[k]) && forall j | 0 <= j < k :: !q(filters[j]) {
        if k > 0 {
          assert p(rest[k - 1]) && forall j | 0 <= j < k - 1 :: rest[j] == filters[j + 1];
        }
      }
      if !q(filters[0]) {
        if k :| 0 <= k < |rest| && p(rest[k]) && forall j | 0 <= j < k :: !q(rest[j]) {
          assert p(filters[k + 1]);
          forall j | 0 <= j < k + 1
            ensures !q(filters[j])
          {
            assert j > 0 ==> filters[j] == rest[j - 1];
          }
        }
      }
    }

    predicate AllReadable(candidates: seq<nat>, partitions: seq<seq<string>>, filters: seq<Expr>, strict: bool)
      requires Within(candidates, partitions)
    {
      forall k | 0 <= k < |candidates| :: DecideAll(filters, partitions[candidates[k]], strict) != Fails
    }

    /** The candidates no filter rules out, in order. */
    function Kept(candidates: seq<nat>, partitions: seq<seq<string>>, filters: seq<Expr>, strict: bool): (r: seq<nat>)
      requires Within(candidates, partitions)
      ensures Within(r, partitions)
      ensures forall i :: i in r <==> i in candidates && DecideAll(filters, partitions[i], strict) != RulesOut
    {
      if candidates == [] then []
      else
        var front, last := candidates[..|candidates| - 1], candidates[|candidates| - 1];
        assert candidates == front + [last];
        Kept(front, partitions, filters, strict) + if DecideAll(filters, partitions[last], strict) == RulesOut then [] else [last]
    }

    /** Which partitions are read, by their rows: of the candidates those no filter is false of before one fails. */
    lemma KeptExactlyWhen(candidates: seq<nat>, partitions: seq<seq<string>>, filters: seq<Expr>, strict: bool, i: nat, row: Row)
      requires Within(candidates, partitions) && i < |partitions| && RowOf(row, partitions[i])
      ensures i in Kept(candidates, partitions, filters, strict) <==>
              i in candidates && !exists k | 0 <= k < |filters| ::
                FalseFor(filters[k], partitions[i], row) && forall j | 0 <= j < k :: !FailsFor(filters[j], partitions[i], strict, row)
    {
      hide RowOf, DecideAll, FalseFor, FailsFor;
      DecideAllByRows(filters, partitions[i], strict, row);
    }

    /** A filter true of every partition kept. */
    predicate Decided(kept: seq<nat>, partitions: seq<seq<string>>, filter: Expr)
      requires Within(kept, partitions)
    {
      kept != [] && forall k | 0 <= k < |kept| :: Decide(filter, partitions[kept[k]], false) == Holds
    }

    /** The filters not decided, in order. */
    function Remaining(kept: seq<nat>, partitions: seq<seq<string>>, filters: seq<Expr>): (r: seq<Expr>)
      requires Within(kept, partitions)
      ensures forall f :: f in r <==> f in filters && !Decided(kept, partitions, f)
    {
      if filters == [] then []
      else
        var front, last := filters[..|filters| - 1], filters[|filters| - 1];
        assert filters == front + [last];
        Remaining(kept, partitions, front) + if Decided(kept, partitions, last) then [] else [last]
    }

    /** One row: it passes every filter exactly when its partition is kept and it passes those not decided. */
    lemma RowKept(candidates: seq<nat>, partitions: seq<seq<string>>, filters: seq<Expr>, strict: bool, i: nat, row: Row)
      requires Within(candidates, partitions) && i in candidates && RowOf(row, partitions[i])
      ensures var kept := Kept(candidates, partitions, filters, strict);
              && (Satisfies(row, filters) ==> i in kept)
              && (i in kept ==> (Satisfies(row, filters) <==> Satisfies(row, Remaining(kept, partitions, filters))))
    {
      var kept := Kept(candidates, partitions, filters, strict);
      var remaining := Remaining(kept, partitions, filters);
      if i !in kept {
        var k := DroppedHasNoRows(filters, partitions[i], strict, row);
      } else {
        assert forall k | 0 <= k < |remaining| :: remaining[k] in filters;
        forall k | 0 <= k < |filters| && Decided(kept, partitions, filters[k])
          ensures Eval(filters[k], row) == Some(BoolValue(true))
        {
          DecidedInRows(filters[k], partitions[i], false, row);
        }
        assert forall k | 0 <= k < |filters| :: filters[k] in remaining || Decided(kept, partitions, filters[k]);
      }
    }

    /** Decides one partition by the filters: which of them are true of it, unless one rules it out. */
    method DecidePartition(filters: seq<Expr>, values: seq<string>) returns (verdict: Verdict, trueHere: seq<bool>)
      ensures verdict == DecideAll(filters, values, false)
      ensures verdict == Undecided ==> |trueHere| == |filters|
      ensures verdict == Undecided ==>
                forall f | 0 <= f < |filters| :: trueHere[f] <==> Decide(filters[f], values, false) == Holds
    {
      trueHere := [];
      for f := 0 to |filters|
        invariant DecideAll(filters[f..], values, false) == DecideAll(filters, values, false)
        invariant |trueHere| == f && forall g | 0 <= g < f :: trueHere[g] <==> Decide(filters[g], values, false) == Holds
      {
        verdict := Decide(filters[f], values, false);
        if verdict == RulesOut || verdict == Fails {
          return;
        }
        trueHere := trueHere + [verdict == Holds];
      }
      verdict := Undecided;
    }

    function CountHolds(kept: seq<nat>, partitions: seq<seq<string>>, filter: Expr): nat
      requires Within(kept, partitions)
    {
      if kept == [] then 0
      else
        var last := kept[|kept| - 1];
        CountHolds(kept[..|kept| - 1], partitions, filter) + if Decide(filter, partitions[last], false) == Holds then 1 else 0
    }

    lemma {:induction false} CountsAll(kept: seq<nat>, partitions: seq<seq<string>>, filter: Expr)
      requires Within(kept, partitions)
      ensures CountHolds(kept, partitions, filter) <= |kept|
      ensures CountHolds(kept, partitions, filter) == |kept| <==>
              forall k | 0 <= k < |kept| :: Decide(filter, partitions[kept[k]], false) == Holds
    {
      if kept != [] {
        var front := kept[..|kept| - 1];
        CountsAll(front, partitions, filter);
        assert forall k | 0 <= k < |front| :: front[k] == kept[k];
      }
    }

    ghost predicate Counted(kept: seq<nat>, partitions: seq<seq<string>>, filters: seq<Expr>, trueInKept: seq<nat>)
      requires Within(kept, partitions)
    {
      |trueInKept| == |filters| && forall f | 0 <= f < |filters| :: trueInKept[f] == CountHolds(kept, partitions, filters[f])
    }

    method CountTrue(trueInKept: seq<nat>, trueHere: seq<bool>) returns (r: seq<nat>)
      requires |trueInKept| == |trueHere|
      ensures |r| == |trueHere| && forall f | 0 <= f < |r| :: r[f] == trueInKept[f] + if trueHere[f] then 1 else 0
    {
      r := trueInKept;
      for f := 0 to |trueHere|
        invariant |r| == |trueHere|
        invariant forall g | 0 <= g < |r| :: r[g] == trueInKept[g] + if g < f && trueHere[g] then 1 else 0
      {
        if trueHere[f] {
          r := r[f := r[f] + 1];
        }
      }
    }

    lemma KeptNext(candidates: seq<nat>, partitions: seq<seq<string>>, filters: seq<Expr>, k: nat)
      requires Within(candidates, partitions) && k < |candidates|
      ensures Within(candidates[..k], partitions) && Within(candidates[..k + 1], partitions)
      ensures Kept(candidates[..k + 1], partitions, filters, false) == Kept(candidates[..k], partitions, filters, false) +
                if DecideAll(filters, partitions[candidates[k]], false) == RulesOut then [] else [candidates[k]]
    {
      assert candidates[..k + 1][..k] == candidates[..k];
    }

    lemma CountedNext(kept: seq<nat>, partitions: seq<seq<string>>, filters: seq<Expr>, counts: seq<nat>, i: nat,
                      trueHere: seq<bool>, after: seq<nat>)
      requires Within(kept, partitions) && Counted(kept, partitions, filters, counts) && i < |partitions|
      requires |trueHere| == |after| == |filters|
      requires forall f | 0 <= f < |filters| :: trueHere[f] <==> Decide(filters[f], partitions[i], false) == Holds
      requires forall f | 0 <= f < |after| :: after[f] == counts[f] + if trueHere[f] then 1 else 0
      ensures Within(kept + [i], partitions) && Counted(kept + [i], partitions, filters, after)
    {
      assert (kept + [i])[..|kept|] == kept;
    }

    /** The partitions to read and the filters true of all of them; it ends early when a value can not be read. */
    method PartitionsToRead(partitions: seq<seq<string>>, candidates: seq<nat>, filters: seq<Expr>)
      returns (ok: bool, kept: seq<nat>, decided: set<nat>)
      requires Within(candidates, partitions)
      ensures ok <==> AllReadable(candidates, partitions, filters, false)
      ensures ok ==> kept == Kept(candidates, partitions, filters, false)
      ensures ok ==> forall f: nat :: f in decided <==> f < |filters| && Decided(kept, partitions, filters[f])
    {
      decided := {};
      var trueInKept;
      ok, kept, trueInKept := CountPartitions(partitions, candidates, filters);
      if ok {
        decided := DecidedFilters(partitions, kept, filters, trueInKept);
      }
    }

    method DecidedFilters(partitions: seq<seq<string>>, kept: seq<nat>, filters: seq<Expr>, trueInKept: seq<nat>)
      returns (decided: set<nat>)
      requires Within(kept, partitions) && Counted(kept, partitions, filters, trueInKept)
      ensures forall f: nat :: f in decided <==> f < |filters| && Decided(kept, partitions, filters[f])
    {
      hide Decide, CountHolds;
      decided := {};
      for f := 0 to |filters|
        invariant forall g: nat :: g in decided <==> g < f && Decided(kept, partitions, filters[g])
      {
        CountsAll(kept, partitions, filters[f]);
        if kept != [] && trueInKept[f] == |kept| {
          decided := decided + {f};
        }
      }
    }

    method CountPartitions(partitions: seq<seq<string>>, candidates: seq<nat>, filters: seq<Expr>)
      returns (ok: bool, kept: seq<nat>, trueInKept: seq<nat>)
      requires Within(candidates, partitions)
      ensures ok <==> AllReadable(candidates, partitions, filters, false)
      ensures ok ==> kept == Kept(candidates, partitions, filters, false) && Counted(kept, partitions, filters, trueInKept)
    {
      hide Decide, DecideAll, CountHolds, Kept, Counted;
      kept, trueInKept := [], seq(|filters|, f => 0);
      NoneKept(partitions, candidates, filters, trueInKept);
      for k := 0 to |candidates|
        invariant Within(candidates[..k], partitions) && kept == Kept(candidates[..k], partitions, filters, false)
        invariant forall m | 0 <= m < k :: DecideAll(filters, partitions[candidates[m]], false) != Fails
        invariant |trueInKept| == |filters| && Counted(kept, partitions, filters, trueInKept)
      {
        var verdict, trueHere := DecidePartition(filters, partitions[candidates[k]]);
        KeptNext(candidates, partitions, filters, k);
        if verdict == Fails {
          return false, kept, trueInKept;
        }
        if verdict != RulesOut {
          ghost var before := trueInKept;
          UndecidedAll(filters, partitions[candidates[k]]);
          trueInKept := CountTrue(trueInKept, trueHere);
          CountedNext(kept, partitions, filters, before, candidates[k], trueHere, trueInKept);
          kept := kept + [candidates[k]];
        }
      }
      assert candidates[..|candidates|] == candidates;
      ok := true;
    }

    lemma NoneKept(partitions: seq<seq<string>>, candidates: seq<nat>, filters: seq<Expr>, zeros: seq<nat>)
      requires |zeros| == |filters| && forall f | 0 <= f < |zeros| :: zeros[f] == 0
      ensures Within(candidates[..0], partitions) && Within([], partitions)
      ensures Kept(candidates[..0], partitions, filters, false) == []
      ensures Counted([], partitions, filters, zeros)
    {
    }

    lemma {:induction false} UndecidedAll(filters: seq<Expr>, values: seq<string>)
      ensures DecideAll(filters, values, false) in {Fails, RulesOut, Undecided}
    {
      if filters != [] {
        UndecidedAll(filters[1..], values);
      }
    }

    /** Prunes by the filters the planner found: the partitions left, and the filters left to check in their rows. */
    method ComplexFilterPushdown(partitions: seq<seq<string>>, candidates: seq<nat>, filters: seq<Expr>)
      returns (ok: bool, kept: seq<nat>, remaining: seq<Expr>)
      requires Within(candidates, partitions)
      ensures ok <==> StepRuns(partitions, candidates, filters)
      ensures ok ==> (kept, remaining) == Narrowed(partitions, candidates, filters)
    {
      if filters == [] || projections == [] {
        return true, candidates, filters;
      }
      var decided;
      ok, kept, decided := PartitionsToRead(partitions, candidates, filters);
      remaining := [];
      if ok {
        for f := 0 to |filters|
          invariant remaining == Remaining(kept, partitions, filters[..f])
        {
          assert filters[..f + 1][..f] == filters[..f];
          if f !in decided {
            remaining := remaining + [filters[f]];
          }
        }
        assert filters[..|filters|] == filters;
      }
    }

    predicate StepRuns(partitions: seq<seq<string>>, candidates: seq<nat>, filters: seq<Expr>)
      requires Within(candidates, partitions)
    {
      filters == [] || projections == [] || AllReadable(candidates, partitions, filters, false)
    }

    function Narrowed(partitions: seq<seq<string>>, candidates: seq<nat>, filters: seq<Expr>): (r: (seq<nat>, seq<Expr>))
      requires Within(candidates, partitions)
      ensures Within(r.0, partitions)
    {
      if filters == [] || projections == [] then (candidates, filters)
      else
        var kept := Kept(candidates, partitions, filters, false);
        (kept, Remaining(kept, partitions, filters))
    }

    /** A scan that projects a key reads, of filters that can be computed for a partition, exactly the partitions that each
        filter of keys only is true of, and drops the filters of keys only that are true of all of them. */
    lemma NarrowedExactlyWhen(partitions: seq<seq<string>>, candidates: seq<nat>, filters: seq<Expr>, i: nat, row: Row)
      requires Within(candidates, partitions) && i < |partitions| && RowOf(row, partitions[i]) && projections != []
      requires forall f | f in filters :: NamesReadable(f, partitions[i]) && (OfKeysOnly(f) ==> Eval(f, row).Some?)
      ensures i in Narrowed(partitions, candidates, filters).0 <==>
              i in candidates && forall f | f in filters && OfKeysOnly(f) :: Eval(f, row) == Some(BoolValue(true))
    {
      hide RowOf, NamesReadable, OfKeysOnly;
      KeptExactlyWhen(candidates, partitions, filters, false, i, row);
      if f :| f in filters && OfKeysOnly(f) && Eval(f, row) != Some(BoolValue(true)) {
        var k :| 0 <= k < |filters| && filters[k] == f;
        assert FalseFor(filters[k], partitions[i], row);
        assert forall j | 0 <= j < k :: filters[j] in filters;
      }
    }

    lemma DecidedExactlyWhen(kept: seq<nat>, partitions: seq<seq<string>>, filter: Expr, rowOf: nat -> Row)
      requires Within(kept, partitions) && forall i | i in kept :: RowOf(rowOf(i), partitions[i])
      ensures Decided(kept, partitions, filter) <==>
              kept != [] && forall i | i in kept :: NamesReadable(filter, partitions[i]) && OfKeysOnly(filter) &&
                                                   Eval(filter, rowOf(i)) == Some(BoolValue(true))
    {
      hide RowOf, Decide, OfKeysOnly, NamesReadable;
      forall i | i in kept
        ensures Decide(filter, partitions[i], false) == Holds <==>
                NamesReadable(filter, partitions[i]) && OfKeysOnly(filter) && Eval(filter, rowOf(i)) == Some(BoolValue(true))
      {
        DecidesByRows(filter, partitions[i], false, rowOf(i));
      }
      assert forall k | 0 <= k < |kept| :: kept[k] in kept;
    }

    /** Prunes by the filters a join found while running: nothing is taken out of the plan. */
    method DynamicFilterPushdown(partitions: seq<seq<string>>, candidates: seq<nat>, keyFilters: seq<Expr>)
      returns (ok: bool, kept: seq<nat>)
      requires Within(candidates, partitions)
      ensures ok <==> AllReadable(candidates, partitions, keyFilters, true)
      ensures ok ==> kept == Kept(candidates, partitions, keyFilters, true)
    {
      hide Decide, DecideAll;
      kept := [];
      for k := 0 to |candidates|
        invariant Within(candidates[..k], partitions) && kept == Kept(candidates[..k], partitions, keyFilters, true)
        invariant forall m | 0 <= m < k :: DecideAll(keyFilters, partitions[candidates[m]], true) != Fails
      {
        assert candidates[..k + 1][..k] == candidates[..k];
        var verdict := DecideByKeys(keyFilters, partitions[candidates[k]]);
        if verdict == Fails {
          return false, kept;
        }
        if verdict != RulesOut {
          kept := kept + [candidates[k]];
        }
      }
      assert candidates[..|candidates|] == candidates;
      ok := true;
    }

    method DecideByKeys(keyFilters: seq<Expr>, values: seq<string>) returns (verdict: Verdict)
      ensures verdict == DecideAll(keyFilters, values, true)
    {
      for f := 0 to |keyFilters|
        invariant DecideAll(keyFilters[f..], values, true) == DecideAll(keyFilters, values, true)
      {
        verdict := Decide(keyFilters[f], values, true);
        if verdict == RulesOut || verdict == Fails {
          return;
        }
      }
      verdict := Undecided;
    }

    /** One pruning of a scan; None when it ends the query. */
    function Prune(partitions: seq<seq<string>>, s: Pruned, step: Step): (r: Option<Pruned>)
      requires Within(s.candidates, partitions)
      ensures r.Some? ==> Within(r.value.candidates, partitions)
    {
      match step
      case Static(added) =>
        if !StepRuns(partitions, s.candidates, s.filters + added) then None
        else
          var (kept, remaining) := Narrowed(partitions, s.candidates, s.filters + added);
          Some(Pruned(kept, remaining, s.given + added, s.joined))
      case Dynamic(found) =>
        if !AllReadable(s.candidates, partitions, found, true) then None
        else Some(Pruned(Kept(s.candidates, partitions, found, true), s.filters, s.given, s.joined + found))
    }

    function PruneAll(partitions: seq<seq<string>>, s: Pruned, steps: seq<Step>): (r: Option<Pruned>)
      requires Within(s.candidates, partitions)
      ensures r.Some? ==> Within(r.value.candidates, partitions)
      decreases |steps|
    {
      if steps == [] then Some(s)
      else match Prune(partitions, s, steps[0])
        case Some(next) => PruneAll(partitions, next, steps[1..])
        case None => None
    }

    /** A pruning by the planner's filters ends the query exactly when there are filters, a key is projected, and for some
        partition left a filter fails that none before it rules out; a pruning by a join's likewise, and never for want
        of a projected key. */
    lemma PrunesExactlyWhen(partitions: seq<seq<string>>, s: Pruned, filters: seq<Expr>, rowOf: nat -> Row)
      requires Within(s.candidates, partitions) && forall i | i in s.candidates :: RowOf(rowOf(i), partitions[i])
      ensures s.filters == [] ==> (Prune(partitions, s, Static(filters)).Some? <==>
              filters == [] || projections == [] || forall i | i in s.candidates :: !Ends(filters, partitions[i], false, rowOf(i)))
      ensures Prune(partitions, s, Dynamic(filters)).Some? <==>
              forall i | i in s.candidates :: !Ends(filters, partitions[i], true, rowOf(i))
    {
      hide RowOf, DecideAll, FailsFor, FalseFor;
      assert [] + filters == filters;
      forall i, strict | i in s.candidates
        ensures DecideAll(filters, partitions[i], strict) == Fails <==> Ends(filters, partitions[i], strict, rowOf(i))
      {
        DecideAllByRows(filters, partitions[i], strict, rowOf(i));
      }
      assert forall k | 0 <= k < |s.candidates| :: s.candidates[k] in s.candidates;
    }

    predicate Ends(filters: seq<Expr>, values: seq<string>, strict: bool, row: Row) {
      exists k | 0 <= k < |filters| :: FailsFor(filters[k], values, strict, row) &&
                                      forall j | 0 <= j < k :: !FalseFor(filters[j], values, row)
    }

    /** The filters of one pruning are checked again with those of the next. */
    lemma PrunesTogether(partitions: seq<seq<string>>, s: Pruned, added: seq<Expr>)
      requires Within(s.candidates, partitions)
      ensures Prune(partitions, s, Static(added)) ==
              match Prune(partitions, s.(filters := []), Static(s.filters + added))
              case None => None
              case Some(next) => Some(next.(given := s.given + added))
    {
      assert [] + (s.filters + added) == s.filters + added;
    }

    /** A run of prunings is one after another. */
    lemma {:induction false} PrunesInTurn(partitions: seq<seq<string>>, s: Pruned, steps: seq<Step>, step: Step)
      requires Within(s.candidates, partitions)
      ensures PruneAll(partitions, s, []) == Some(s)
      ensures PruneAll(partitions, s, steps + [step]) ==
              match PruneAll(partitions, s, steps) case None => None case Some(before) => Prune(partitions, before, step)
      decreases |steps|
    {
      hide Prune;
      if steps == [] {
        assert ([] + [step])[1..] == [];
      } else {
        assert (steps + [step])[1..] == steps[1..] + [step];
        match Prune(partitions, s, steps[0])
        case Some(next) => PrunesInTurn(partitions, next, steps[1..], step);
        case None =>
      }
    }

    /** A row counts when its partition is read and it passes the filters left and those of the joins. */
    predicate Passes(i: nat, row: Row, candidates: seq<nat>, filters: seq<Expr>, joined: seq<Expr>) {
      i in candidates && Satisfies(row, filters) && Satisfies(row, joined)
    }

    lemma SatisfiesBoth(row: Row, a: seq<Expr>, b: seq<Expr>)
      ensures Satisfies(row, a + b) <==> Satisfies(row, a) && Satisfies(row, b)
    {
      var both := a + b;
      assert forall k | 0 <= k < |a| :: both[k] == a[k];
      assert forall k | 0 <= k < |b| :: both[|a| + k] == b[k];
    }

    lemma PruneKeepsRow(partitions: seq<seq<string>>, s: Pruned, step: Step, i: nat, row: Row)
      requires Within(s.candidates, partitions) && i < |partitions| && RowOf(row, partitions[i])
      requires Prune(partitions, s, step).Some?
      ensures var next := Prune(partitions, s, step).value;
              var added, found := next.given[|s.given|..], next.joined[|s.joined|..];
              Passes(i, row, next.candidates, next.filters, next.joined) <==>
              Passes(i, row, s.candidates, s.filters, s.joined) && Satisfies(row, added) && Satisfies(row, found)
    {
      hide Decide, DecideAll, Satisfies, RowOf;
      var next := Prune(partitions, s, step).value;
      SatisfiesBoth(row, [], []);
      match step
      case Static(added) =>
        assert next.given[|s.given|..] == added && next.joined[|s.joined|..] == [] by {
          assert next.given == s.given + added && next.joined == s.joined;
        }
        NoFilter(row);
        SatisfiesBoth(row, s.filters, added);
        if i in s.candidates {
          RowKept(s.candidates, partitions, s.filters + added, false, i, row);
        }
      case Dynamic(found) =>
        assert next.joined[|s.joined|..] == found && next.given[|s.given|..] == [] by {
          assert next.joined == s.joined + found && next.given == s.given;
        }
        NoFilter(row);
        SatisfiesBoth(row, s.joined, found);
        if i in s.candidates {
          RowKept(s.candidates, partitions, found, true, i, row);
        }
    }

    lemma NoFilter(row: Row)
      ensures Satisfies(row, [])
    {
    }

    /** Over any run of prunings a row passes exactly when it passes every filter ever given and every join's. */
    lemma {:induction false} PruningKeepsRow(partitions: seq<seq<string>>, s: Pruned, steps: seq<Step>, i: nat, row: Row)
      requires Within(s.candidates, partitions) && i < |partitions| && RowOf(row, partitions[i])
      requires PruneAll(partitions, s, steps).Some?
      ensures var end := PruneAll(partitions, s, steps).value;
              && s.given <= end.given && s.joined <= end.joined
              && (Passes(i, row, end.candidates, end.filters, end.joined) <==>
                  Passes(i, row, s.candidates, s.filters, s.joined) &&
                  Satisfies(row, end.given[|s.given|..]) && Satisfies(row, end.joined[|s.joined|..]))
      decreases |steps|
    {
      hide Satisfies, RowOf, Narrowed, Kept, AllReadable, StepRuns;
      if steps == [] {
        NoFilter(row);
        assert s.given[|s.given|..] == [] && s.joined[|s.joined|..] == [];
      } else {
        var next := Prune(partitions, s, steps[0]).value;
        var end := PruneAll(partitions, s, steps).value;
        PruneKeepsRow(partitions, s, steps[0], i, row);
        PruningKeepsRow(partitions, next, steps[1..], i, row);
        SatisfiesSplit(row, s.given, next.given, end.given);
        SatisfiesSplit(row, s.joined, next.joined, end.joined);
      }
    }

    lemma SatisfiesSplit(row: Row, a: seq<Expr>, b: seq<Expr>, c: seq<Expr>)
      requires a <= b <= c
      ensures Satisfies(row, c[|a|..]) <==> Satisfies(row, b[|a|..]) && Satisfies(row, c[|b|..])
    {
      assert c[|a|..] == b[|a|..] + c[|b|..];
      SatisfiesBoth(row, b[|a|..], c[|b|..]);
    }

    /** The rows of a table's partitions that pass. */
    function Selected(rows: seq<(nat, Row)>, candidates: seq<nat>, filters: seq<Expr>, joined: seq<Expr>): seq<(nat, Row)> {
      if rows == [] then []
      else
        (if Passes(rows[0].0, rows[0].1, candidates, filters, joined) then [rows[0]] else []) +
        Selected(rows[1..], candidates, filters, joined)
    }

    /** Each row that passes is selected as often as it is there, and no other. */
    lemma {:induction false} SelectedOnlyPass(rows: seq<(nat, Row)>, candidates: seq<nat>, filters: seq<Expr>, joined: seq<Expr>,
                                              row: (nat, Row))
      ensures multiset(Selected(rows, candidates, filters, joined))[row] ==
              if row.0 in candidates && (forall f | f in filters + joined :: Eval(f, row.1) == Some(BoolValue(true)))
              then multiset(rows)[row] else 0
    {
      hide Passes;
      PassesExactlyWhen(row, candidates, filters, joined);
      if rows != [] {
        assert rows == [rows[0]] + rows[1..];
        SelectedOnlyPass(rows[1..], candidates, filters, joined, row);
      }
    }

    lemma PassesExactlyWhen(row: (nat, Row), candidates: seq<nat>, filters: seq<Expr>, joined: seq<Expr>)
      ensures Passes(row.0, row.1, candidates, filters, joined) <==>
              row.0 in candidates && forall f | f in filters + joined :: Eval(f, row.1) == Some(BoolValue(true))
    {
      hide Eval;
      assert forall k | 0 <= k < |filters| :: filters[k] in filters + joined;
      assert forall k | 0 <= k < |joined| :: joined[k] in filters + joined;
    }

    /** The main result: whatever is pruned and whenever, the scan returns the same rows in the same order as reading
        every partition and checking every filter. */
    lemma {:induction false} PruningPreservesResults(partitions: seq<seq<string>>, all: seq<nat>, steps: seq<Step>,
                                                     rows: seq<(nat, Row)>)
      requires Within(all, partitions) && PruneAll(partitions, Pruned(all, [], [], []), steps).Some?
      requires forall k | 0 <= k < |rows| :: rows[k].0 < |partitions| && RowOf(rows[k].1, partitions[rows[k].0])
      ensures var end := PruneAll(partitions, Pruned(all, [], [], []), steps).value;
              Selected(rows, end.candidates, end.filters, end.joined) == Selected(rows, all, end.given, end.joined)
      decreases |rows|
    {
      hide PruneAll, Satisfies, RowOf;
      if rows != [] {
        var start := Pruned(all, [], [], []);
        var end := PruneAll(partitions, start, steps).value;
        PruningKeepsRow(partitions, start, steps, rows[0].0, rows[0].1);
        NoFilter(rows[0].1);
        assert end.given[|start.given|..] == end.given && end.joined[|start.joined|..] == end.joined;
        PruningPreservesResults(partitions, all, steps, rows[1..]);
      }
    }
  }

  predicate Within(indexes: seq<nat>, partitions: seq<seq<string>>) {
    forall k | 0 <= k < |indexes| :: indexes[k] < |partitions|
  }

  /** Filters the planner gives may be decided and taken out; those a join finds only narrow what is read. */
  datatype Step = Static(added: seq<Expr>) | Dynamic(found: seq<Expr>)

  /** A scan's partitions and filters left, and for the statement of what they mean the filters given so far. */
  datatype Pruned = Pruned(candidates: seq<nat>, filters: seq<Expr>, given: seq<Expr>, joined: seq<Expr>)

  datatype Verdict = Fails | Undecided | Holds | RulesOut

  const NO_ROW := Row(map[], map[])

  lemma {:induction false} FoldedAnywhere(e: Expr, row: Row)
    requires Foldable(e)
    ensures Eval(e, row) == Eval(e, NO_ROW)
  {
    match e
    case Call(_, args) => AllFoldedAnywhere(args, row);
    case _ =>
  }

  lemma {:induction false} AllFoldedAnywhere(es: seq<Expr>, row: Row)
    requires forall i | 0 <= i < |es| :: Foldable(es[i])
    ensures EvalAll(es, row) == EvalAll(es, NO_ROW)
  {
    if es != [] {
      FoldedAnywhere(es[0], row);
      AllFoldedAnywhere(es[1..], row);
    }
  }

  /** A row is in the result when every filter is true: not false, not NULL, no error. */
  predicate Satisfies(row: Row, filters: seq<Expr>) {
    forall k | 0 <= k < |filters| :: Eval(filters[k], row) == Some(BoolValue(true))
  }
}
