/** Changing the columns of a csv table: what its partitions declared when they were registered stays readable. */
module SchemaEvolution {
  import opened Outcomes
  import opened Text
  import opened HiveTypes

  // The order of type changes.

  /** The kind of a type, which its alias does not change. */
  function Kind(t: HiveType): HiveType {
    match t
    case Aliased(_, base) => Kind(base)
    case _ => t
  }

  function Rank(t: HiveType): nat {
    match t
    case TinyInt => 1
    case SmallInt => 2
    case Integer => 3
    case BigInt => 4
    case _ => 0
  }

  predicate IsAllowedHiveTypeChange(from: HiveType, to: HiveType) {
    if from == to then true
    else if Rank(Kind(from)) > 0 && Rank(Kind(to)) > 0 then Rank(Kind(to)) > Rank(Kind(from))
    else (Kind(from) == Float && Kind(to) == Double) || Kind(to) == Varchar
  }

  lemma AllowedIsTransitive(a: HiveType, b: HiveType, c: HiveType)
    requires IsAllowedHiveTypeChange(a, b) && IsAllowedHiveTypeChange(b, c)
    ensures IsAllowedHiveTypeChange(a, c)
  {
    if a != b && b != c {
      AllowedByKind(a, b);
      AllowedByKind(b, c);
      AllowedByKind(a, c);
    }
  }

  /** Between different types only the kinds count. */
  predicate KindAllowed(from: HiveType, to: HiveType) {
    to == Varchar || (from == Float && to == Double) || (Rank(from) > 0 && Rank(to) > Rank(from))
  }

  lemma AllowedByKind(from: HiveType, to: HiveType)
    ensures from != to ==> (IsAllowedHiveTypeChange(from, to) <==> KindAllowed(Kind(from), Kind(to)))
  {
    hide Kind;
  }

  /** Allowed changes never lead back. */
  lemma AllowedIsOneWay(a: HiveType, b: HiveType)
    requires IsAllowedHiveTypeChange(a, b) && IsAllowedHiveTypeChange(b, a)
    ensures a == b || (Kind(a) == Varchar && Kind(b) == Varchar)
  {
  }

  predicate IsNested(t: HiveType) {
    var kind := Kind(t);
    kind.List? || kind.Map? || kind.Struct?
  }

  /** The casts DuckDB makes on its own are a parameter. */
  type ImplicitCasts = (HiveType, HiveType) -> bool

  predicate CanReadPartitionTypeAs(from: HiveType, to: HiveType, implicit: ImplicitCasts) {
    || IsNested(from) || IsNested(to) || IsAllowedHiveTypeChange(from, to)
    || (Kind(from).Decimal? && Kind(to).Decimal?) || implicit(from, to)
  }

  // The table and its changes.

  datatype Column = Column(name: string, columnType: string)

  datatype Change =
    | AddColumn(name: string, newType: HiveType, ifNotExists: bool)
    | DropColumn(name: string)
    | RenameColumn(name: string, newName: string)
    | AlterColumnType(name: string, target: HiveType)
    | ReplaceColumns(columns: seq<(string, HiveType)>)

  function IndexOfColumn(columns: seq<Column>, name: string): (i: nat)
    ensures i <= |columns|
    ensures i < |columns| ==> EqualIgnoringCase(columns[i].name, name)
  {
    if columns == [] || EqualIgnoringCase(columns[0].name, name) then 0 else 1 + IndexOfColumn(columns[1..], name)
  }

  predicate IsKey(keys: seq<string>, name: string) {
    exists k | 0 <= k < |keys| :: EqualIgnoringCase(keys[k], name)
  }

  /** The columns after a change; None is a change that is refused. Bucket and sort columns keep their names. */
  function Changed(columns: seq<Column>, keys: seq<string>, clustering: seq<string>, change: Change): Option<seq<Column>> {
    match change
    case AddColumn(name, newType, ifNotExists) =>
      if IndexOfColumn(columns, name) < |columns| || IsKey(keys, name) then
        (if ifNotExists then Some(columns) else None)
      else
        (match FromHiveType(newType)
         case None => None
         case Some(text) => Some(columns + [Column(name, text)]))
    case DropColumn(_) => None
    case RenameColumn(name, newName) =>
      var i, taken := IndexOfColumn(columns, name), IndexOfColumn(columns, newName);
      if i == |columns| || (taken < |columns| && taken != i) || IsKey(keys, newName) || IsKey(clustering, columns[i].name)
      then None
      else Some(columns[i := Column(newName, columns[i].columnType)])
    case AlterColumnType(name, target) =>
      var i := IndexOfColumn(columns, name);
      if IsKey(keys, name) || i == |columns| then None
      else
        (match (ToHiveType(columns[i].columnType), FromHiveType(target))
         case (Some(from), Some(text)) =>
           if IsAllowedHiveTypeChange(from, target) then Some(columns[i := Column(columns[i].name, text)]) else None
         case _ => None)
    case ReplaceColumns(given) =>
      if |given| != |columns| then None else Replaced(columns, keys, given)
  }

  function Replaced(columns: seq<Column>, keys: seq<string>, given: seq<(string, HiveType)>): (r: Option<seq<Column>>)
    requires |given| == |columns|
    ensures r.Some? ==> |r.value| == |columns|
  {
    if given == [] then Some([])
    else
      var front := Replaced(columns[..|columns| - 1], keys, given[..|given| - 1]);
      match (front, ReplacedOne(columns[|columns| - 1], keys, given[|given| - 1]))
      case (Some(before), Some(last)) => Some(before + [last])
      case _ => None
  }

  function ReplacedOne(previous: Column, keys: seq<string>, given: (string, HiveType)): Option<Column> {
    match (ToHiveType(previous.columnType), FromHiveType(given.1))
    case (Some(from), Some(text)) =>
      (match ToHiveType(text)
       case Some(to) =>
         if IsAllowedHiveTypeChange(from, to) && !IsKey(keys, given.0) then Some(Column(given.0, text)) else None
       case None => None)
    case _ => None
  }

  // Which changes are accepted, and what they change.

  /** No two columns have the same name. */
  predicate DistinctNames(columns: seq<Column>) {
    forall i, j | 0 <= i < j < |columns| :: Lower(columns[i].name) != Lower(columns[j].name)
  }

  predicate Taken(names: seq<string>, name: string) {
    exists k | 0 <= k < |names| :: Lower(names[k]) == Lower(name)
  }

  lemma {:induction false} NamedAt(columns: seq<Column>, name: string)
    ensures var i := IndexOfColumn(columns, name); forall k | 0 <= k < i :: Lower(columns[k].name) != Lower(name)
  {
    hide Lower;
    if columns != [] && !EqualIgnoringCase(columns[0].name, name) {
      NamedAt(columns[1..], name);
      assert forall k | 0 < k < |columns| :: columns[k] == columns[1..][k - 1];
    }
  }

  /** The table has a column of that name, in any case, at that position. */
  lemma NamedOnly(columns: seq<Column>, name: string, i: nat)
    requires DistinctNames(columns) && i < |columns| && Lower(columns[i].name) == Lower(name)
    ensures IndexOfColumn(columns, name) == i
  {
    hide Lower;
    NamedAt(columns, name);
  }

  /** ADD COLUMN puts one column after the others, unless its name is taken or its type can not be written. */
  lemma AddedExactlyWhen(columns: seq<Column>, keys: seq<string>, clustering: seq<string>, name: string, newType: HiveType,
                         ifNotExists: bool)
    ensures var taken := Taken(keys, name) || exists i :: 0 <= i < |columns| && Lower(columns[i].name) == Lower(name);
            Changed(columns, keys, clustering, AddColumn(name, newType, ifNotExists)) ==
            if taken then (if ifNotExists then Some(columns) else None)
            else if FromHiveType(newType).None? then None
            else Some(columns + [Column(name, FromHiveType(newType).value)])
  {
    hide Lower, FromHiveType;
    NamedAt(columns, name);
  }

  /** RENAME COLUMN gives one column, found in any case, another name and nothing else; not the name of another column or
      of a key, and not to a column the table's files are clustered by. */
  lemma RenamedExactlyWhen(columns: seq<Column>, keys: seq<string>, clustering: seq<string>, name: string, newName: string)
    requires DistinctNames(columns)
    ensures Changed(columns, keys, clustering, RenameColumn(name, newName)).Some? <==>
            && !Taken(keys, newName) && !Taken(clustering, name)
            && exists i :: 0 <= i < |columns| && Lower(columns[i].name) == Lower(name) &&
                           forall j | 0 <= j < |columns| && j != i :: Lower(columns[j].name) != Lower(newName)
    ensures forall i | 0 <= i < |columns| && Lower(columns[i].name) == Lower(name) &&
                       Changed(columns, keys, clustering, RenameColumn(name, newName)).Some? ::
              var after := Changed(columns, keys, clustering, RenameColumn(name, newName)).value;
              && |after| == |columns| && after[i] == Column(newName, columns[i].columnType)
              && forall j | 0 <= j < |columns| && j != i :: after[j] == columns[j]
  {
    hide Lower;
    NamedAt(columns, name);
    NamedAt(columns, newName);
    forall i | 0 <= i < |columns| && Lower(columns[i].name) == Lower(name)
      ensures IndexOfColumn(columns, name) == i
    {
      NamedOnly(columns, name, i);
    }
    forall j | 0 <= j < |columns| && Lower(columns[j].name) == Lower(newName)
      ensures IndexOfColumn(columns, newName) == j
    {
      NamedOnly(columns, newName, j);
    }
  }

  /** ALTER COLUMN TYPE gives one column another type and nothing else: a type that can be written, of a column that is
      no key, whose type can be read and may become the new one. */
  lemma RetypedExactlyWhen(columns: seq<Column>, keys: seq<string>, clustering: seq<string>, name: string, target: HiveType)
    requires DistinctNames(columns)
    ensures Changed(columns, keys, clustering, AlterColumnType(name, target)).Some? <==>
            && !Taken(keys, name) && FromHiveType(target).Some?
            && exists i :: 0 <= i < |columns| && Lower(columns[i].name) == Lower(name) && ToHiveType(columns[i].columnType).Some? &&
                        IsAllowedHiveTypeChange(ToHiveType(columns[i].columnType).value, target)
    ensures forall i | 0 <= i < |columns| && Lower(columns[i].name) == Lower(name) &&
                       Changed(columns, keys, clustering, AlterColumnType(name, target)).Some? ::
              var after := Changed(columns, keys, clustering, AlterColumnType(name, target)).value;
              && |after| == |columns| && after[i] == Column(columns[i].name, FromHiveType(target).value)
              && forall j | 0 <= j < |columns| && j != i :: after[j] == columns[j]
  {
    hide Lower, FromHiveType, ToHiveType;
    NamedAt(columns, name);
    forall i | 0 <= i < |columns| && Lower(columns[i].name) == Lower(name)
      ensures IndexOfColumn(columns, name) == i
    {
      NamedOnly(columns, name, i);
    }
  }

  /** glue_replace_columns gives every position a new name and a new type, all of them or none: as many as there are, no
      key's name, and each type one that can be written and that the column's may become. */
  lemma {:induction false} ReplacedExactlyWhen(columns: seq<Column>, keys: seq<string>, given: seq<(string, HiveType)>)
    requires |given| == |columns|
    ensures Replaced(columns, keys, given).Some? <==>
            forall k | 0 <= k < |columns| :: Replaceable(columns[k], keys, given[k])
    ensures Replaced(columns, keys, given).Some? ==>
            forall k | 0 <= k < |columns| :: Replaceable(columns[k], keys, given[k]) &&
              Replaced(columns, keys, given).value[k] == Column(given[k].0, FromHiveType(given[k].1).value)
  {
    hide Replaceable, ReplacedOne, FromHiveType;
    if given != [] {
      var n := |given| - 1;
      ReplacedExactlyWhen(columns[..n], keys, given[..n]);
      assert forall k | 0 <= k < n :: columns[..n][k] == columns[k] && given[..n][k] == given[k];
      OneReplacedExactlyWhen(columns[n], keys, given[n]);
    }
  }

  predicate Replaceable(previous: Column, keys: seq<string>, given: (string, HiveType))
    ensures Replaceable(previous, keys, given) ==> FromHiveType(given.1).Some?
  {
    && !Taken(keys, given.0) && ToHiveType(previous.columnType).Some? && FromHiveType(given.1).Some?
    && ToHiveType(FromHiveType(given.1).value).Some?
    && IsAllowedHiveTypeChange(ToHiveType(previous.columnType).value, ToHiveType(FromHiveType(given.1).value).value)
  }

  lemma OneReplacedExactlyWhen(previous: Column, keys: seq<string>, given: (string, HiveType))
    ensures ReplacedOne(previous, keys, given) ==
            if Replaceable(previous, keys, given) then Some(Column(given.0, FromHiveType(given.1).value)) else None
  {
    hide Lower, FromHiveType, ToHiveType;
  }

  /** The integers by their bytes. */
  function Bytes(t: HiveType): nat {
    match t
    case TinyInt => 1
    case SmallInt => 2
    case Integer => 4
    case BigInt => 8
    case _ => 0
  }

  /** Every type may become text, an integer one of more bytes, and a FLOAT a DOUBLE; nothing else changes. */
  lemma AllowedExactlyWhen(from: HiveType, to: HiveType)
    requires !from.Aliased? && !to.Aliased?
    ensures IsAllowedHiveTypeChange(from, to) <==>
            from == to || to == Varchar || (from == Float && to == Double) || 0 < Bytes(from) < Bytes(to)
  {
  }

  /** An alias does not count, unless only it differs. */
  lemma AliasDoesNotCount(name: string, from: HiveType, to: HiveType)
    requires from != to && Aliased(name, from) != to && from != Aliased(name, to)
    ensures IsAllowedHiveTypeChange(Aliased(name, from), to) <==> IsAllowedHiveTypeChange(from, to)
    ensures IsAllowedHiveTypeChange(from, Aliased(name, to)) <==> IsAllowedHiveTypeChange(from, to)
    ensures IsNested(Aliased(name, from)) <==> IsNested(from)
  {
    AllowedByKind(from, to);
    AllowedByKind(Aliased(name, from), to);
    AllowedByKind(from, Aliased(name, to));
  }

  predicate ChangeWellFormed(change: Change) {
    match change
    case AddColumn(_, t, _) => WellFormed(t)
    case AlterColumnType(_, t) => WellFormed(t)
    case _ => true
  }

  /** A stored type that may have become another one: the same text, or a type its values can be read as. */
  predicate Evolves(a: string, b: string) {
    a == b || (ToHiveType(a).Some? && ToHiveType(b).Some? && IsAllowedHiveTypeChange(ToHiveType(a).value, ToHiveType(b).value))
  }

  /** Every column is still where it was. */
  predicate AllEvolve(before: seq<Column>, after: seq<Column>) {
    |before| <= |after| && forall i | 0 <= i < |before| :: Evolves(before[i].columnType, after[i].columnType)
  }

  lemma EvolvesTransitive(a: string, b: string, c: string)
    requires Evolves(a, b) && Evolves(b, c)
    ensures Evolves(a, c)
  {
    hide ToHiveType;
    if a != b && b != c {
      AllowedIsTransitive(ToHiveType(a).value, ToHiveType(b).value, ToHiveType(c).value);
    }
  }

  lemma AllEvolveTransitive(a: seq<Column>, b: seq<Column>, c: seq<Column>)
    requires AllEvolve(a, b) && AllEvolve(b, c)
    ensures AllEvolve(a, c)
  {
    forall i | 0 <= i < |a|
      ensures Evolves(a[i].columnType, c[i].columnType)
    {
      EvolvesTransitive(a[i].columnType, b[i].columnType, c[i].columnType);
    }
  }

  /** A change to a type allows the change to the type as Glue stores it. */
  lemma AllowedAsStored(from: string, target: HiveType)
    requires ToHiveType(from).Some? && WellFormed(target) && FromHiveType(target).Some?
    requires IsAllowedHiveTypeChange(ToHiveType(from).value, target)
    ensures Evolves(from, FromHiveType(target).value)
  {
    hide TypeOf, FromHiveType;
    ReadIsWidened(from);
    StoredTypeReadsBack(target);
    WidenedKind(target);
  }

  lemma WidenedKind(t: HiveType)
    ensures Kind(t) == Varchar ==> Widened(t) == Varchar
    ensures Rank(Kind(t)) > 0 ==> Widened(t) == Kind(t)
    ensures Kind(t) == Double ==> Widened(t) == Double
  {
  }

  lemma {:induction false} ReplacedEvolve(columns: seq<Column>, keys: seq<string>, given: seq<(string, HiveType)>)
    requires |given| == |columns| && Replaced(columns, keys, given).Some?
    ensures AllEvolve(columns, Replaced(columns, keys, given).value)
  {
    hide ToHiveType, FromHiveType;
    if given != [] {
      ReplacedEvolve(columns[..|columns| - 1], keys, given[..|given| - 1]);
    }
  }

  /** No change moves a column or gives it a type its earlier values can not be read as. */
  lemma ChangeEvolves(columns: seq<Column>, keys: seq<string>, clustering: seq<string>, change: Change)
    requires ChangeWellFormed(change) && Changed(columns, keys, clustering, change).Some?
    ensures AllEvolve(columns, Changed(columns, keys, clustering, change).value)
  {
    hide ToHiveType, FromHiveType;
    match change
    case ReplaceColumns(given) => ReplacedEvolve(columns, keys, given);
    case AlterColumnType(name, target) =>
      AllowedAsStored(columns[IndexOfColumn(columns, name)].columnType, target);
    case _ =>
  }

  // Reading the partitions.

  /** The scan's check of one column of a partition against the table's, by position. */
  predicate CanRead(partitionType: string, tableType: HiveType, implicit: ImplicitCasts) {
    match ToHiveType(Lower(partitionType))
    case None => true
    case Some(t) => CanReadPartitionTypeAs(t, tableType, implicit)
  }

  /** A text the parser can not read, a nested type on either side, and two decimals are left to the reader. */
  lemma LeftToReader(partitionType: string, tableType: HiveType, implicit: ImplicitCasts)
    ensures ToHiveType(Lower(partitionType)) == None ==> CanRead(partitionType, tableType, implicit)
    ensures ToHiveType(Lower(partitionType)).Some? ==>
              var t := ToHiveType(Lower(partitionType)).value;
              (t.List? || t.Map? || t.Struct? || tableType.List? || tableType.Map? || tableType.Struct? ||
               (t.Decimal? && tableType.Decimal?)) ==> CanRead(partitionType, tableType, implicit)
  {
  }

  /** Between other types the values are read when the change is an allowed one or the cast is implicit. */
  lemma ReadExactlyWhen(partitionType: string, from: HiveType, to: HiveType, implicit: ImplicitCasts)
    requires ToHiveType(Lower(partitionType)) == Some(from) && !from.Aliased? && !to.Aliased? && !(from.Decimal? && to.Decimal?)
    requires !from.List? && !from.Map? && !from.Struct? && !to.List? && !to.Map? && !to.Struct?
    ensures CanRead(partitionType, to, implicit) <==>
            from == to || to == Varchar || (from == Float && to == Double) || 0 < Bytes(from) < Bytes(to) || implicit(from, to)
  {
    AllowedExactlyWhen(from, to);
  }

  method CheckPartitionColumns(partitionColumns: seq<Column>, types: seq<HiveType>, columnIndexes: seq<nat>,
                               implicit: ImplicitCasts)
    returns (ok: bool)
    requires forall k | 0 <= k < |columnIndexes| :: columnIndexes[k] < |types|
    ensures ok <==> forall k | 0 <= k < |columnIndexes| && columnIndexes[k] < |partitionColumns| ::
                      CanRead(partitionColumns[columnIndexes[k]].columnType, types[columnIndexes[k]], implicit)
  {
    hide CanRead;
    for k := 0 to |columnIndexes|
      invariant forall m | 0 <= m < k && columnIndexes[m] < |partitionColumns| ::
                  CanRead(partitionColumns[columnIndexes[m]].columnType, types[columnIndexes[m]], implicit)
    {
      var index := columnIndexes[k];
      if index < |partitionColumns| && !CanRead(partitionColumns[index].columnType, types[index], implicit) {
        return false;
      }
    }
    ok := true;
  }

  /** A type string in lower case means the same type, up to the names of struct fields. */
  predicate AlikeInLowerCase(s: string) {
    ToHiveType(s).Some? && ToHiveType(Lower(s)).Some? ==>
      || (IsNested(ToHiveType(s).value) && IsNested(ToHiveType(Lower(s)).value))
      || ToHiveType(s) == ToHiveType(Lower(s))
  }

  lemma LowerRest(s: string, k: nat)
    requires k <= |s|
    ensures Lower(s)[..k] == Lower(s[..k]) && Lower(s)[k..] == Lower(s[k..])
    ensures k < |s| ==> Lower(s)[k] == LowerChar(s[k])
  {
  }

  lemma LowerSpace(c: char)
    ensures IsSpace(LowerChar(c)) == IsSpace(c) && EndsIdentifier(LowerChar(c)) == EndsIdentifier(c)
    ensures EndsNumber(LowerChar(c)) == EndsNumber(c)
  {
  }

  lemma {:induction false} LowerSkips(s: string)
    ensures SkipSpace(Lower(s)) == Lower(SkipSpace(s))
  {
    hide Lower, IsSpace, LowerChar;
    if s != "" {
      LowerRest(s, 0);
      LowerRest(s, 1);
      LowerSpace(s[0]);
      LowerSkips(s[1..]);
    }
  }

  lemma {:induction false} LowerUntil(s: string, stops: char -> bool)
    requires forall c :: stops(LowerChar(c)) == stops(c)
    ensures Until(Lower(s), stops) == Until(s, stops)
  {
    hide Lower, LowerChar;
    if s != "" {
      LowerRest(s, 0);
      LowerRest(s, 1);
      LowerUntil(s[1..], stops);
    }
  }

  function LowerOption(r: Option<string>): Option<string> {
    match r
    case None => None
    case Some(rest) => Some(Lower(rest))
  }

  lemma LowerExpects(s: string, c: char)
    requires forall d :: LowerChar(d) == c <==> d == c
    ensures Expect(Lower(s), c) == LowerOption(Expect(s, c))
  {
    hide SkipSpace;
    LowerSkips(s);
    var t := SkipSpace(s);
    if t != "" {
      LowerRest(t, 1);
      assert Lower(t)[0] == LowerChar(t[0]);
    }
  }

  lemma LowerOfDigits(s: string)
    requires AllDigits(s)
    ensures Lower(s) == s
  {
  }

  lemma LowerNumbers(s: string)
    ensures match Number(s)
            case None => Number(Lower(s)) == None
            case Some((n, rest)) => Number(Lower(s)) == Some((n, Lower(rest)))
  {
    hide SkipSpace, Until, Lower, LowerChar, ParseDigits;
    LowerSkips(s);
    var t := SkipSpace(s);
    forall c
      ensures EndsNumber(LowerChar(c)) == EndsNumber(c)
    {
      LowerSpace(c);
    }
    LowerUntil(t, EndsNumber);
    var n := Until(t, EndsNumber);
    LowerRest(t, n);
    LowerOfDigits(t[..n]);
  }

  lemma LowerIdentifies(s: string)
    ensures match Identifier(s)
            case None => Identifier(Lower(s)) == None
            case Some((name, rest)) => Identifier(Lower(s)) == Some((Lower(name), Lower(rest)))
  {
    hide SkipSpace, Until, Lower, LowerChar;
    LowerSkips(s);
    var t := SkipSpace(s);
    forall c
      ensures EndsIdentifier(LowerChar(c)) == EndsIdentifier(c)
    {
      LowerSpace(c);
    }
    LowerUntil(t, EndsIdentifier);
    LowerRest(t, Until(t, EndsIdentifier));
  }

  /** Reading the lower case of a string reads the same, and leaves the lower case of the rest. */
  ghost predicate Alike<T(!new)>(lower: Parsed<T>, read: Parsed<T>) {
    match read
    case None => lower == None
    case Some((t, rest)) => lower == Some((t, Lower(rest)))
  }

  lemma LowerScales(s: string)
    ensures Alike(Scale(Lower(s)), Scale(s))
  {
    hide Expect, Number, SkipSpace, Lower;
    LowerSkips(s);
    LowerExpects(s, ',');
    if Expect(s, ',').Some? {
      LowerNumbers(Expect(s, ',').value);
    }
  }

  lemma LowerDecimals(s: string)
    ensures Alike(DecimalOf(Lower(s)), DecimalOf(s))
  {
    hide Expect, Number, Scale, SkipSpace, Lower;
    LowerSkips(s);
    LowerExpects(s, '(');
    if Expect(s, '(').Some? {
      var a := Expect(s, '(').value;
      LowerNumbers(a);
      if Number(a).Some? {
        var b := Number(a).value.1;
        LowerScales(b);
        if Scale(b).Some? {
          LowerExpects(Scale(b).value.1, ')');
        }
      }
    }
  }

  lemma LowerLengths(s: string)
    ensures Alike(LengthOf(Lower(s)), LengthOf(s))
  {
    hide Expect, Number, SkipSpace, Lower;
    LowerSkips(s);
    LowerExpects(s, '(');
    if Expect(s, '(').Some? {
      var a := Expect(s, '(').value;
      LowerNumbers(a);
      if Number(a).Some? {
        LowerExpects(Number(a).value.1, ')');
      }
    }
  }

  /** At its start a string and its lower case are both nested types, or the same type. */
  lemma LowerTypes(s: string)
    ensures || (TypeOf(s).Some? && TypeOf(Lower(s)).Some? && IsNested(TypeOf(s).value.0) && IsNested(TypeOf(Lower(s)).value.0))
            || TypeOf(s).None? || TypeOf(Lower(s)).None? || Alike(TypeOf(Lower(s)), TypeOf(s))
  {
    hide Classify, Identifier, DecimalOf, LengthOf, ListOf, MapOf, StructOf, Lower, IsNested;
    LowerIdentifies(s);
    if Identifier(s).Some? {
      var (name, rest) := Identifier(s).value;
      assert Lower(Lower(name)) == Lower(name) by {
        LowerTwice(name);
      }
      LowerDecimals(rest);
      LowerLengths(rest);
      NestedAreNested(rest);
      NestedAreNested(Lower(rest));
    }
  }

  lemma LowerTwice(s: string)
    ensures Lower(Lower(s)) == Lower(s)
  {
  }

  lemma LowerMeansAlike(s: string)
    ensures AlikeInLowerCase(s)
  {
    hide TypeOf, Lower, IsNested, SkipSpace;
    LowerTypes(s);
  }

  lemma NestedAreNested(s: string)
    ensures ListOf(s).Some? ==> IsNested(ListOf(s).value.0)
    ensures MapOf(s).Some? ==> IsNested(MapOf(s).value.0)
    ensures StructOf(s).Some? ==> IsNested(StructOf(s).value.0)
  {
  }

  /** A column that only evolved passes the scan's check. */
  lemma EvolvedIsReadable(partitionType: string, tableType: string, implicit: ImplicitCasts)
    requires Evolves(partitionType, tableType) && ToHiveType(tableType).Some?
    ensures CanRead(partitionType, ToHiveType(tableType).value, implicit)
  {
    hide ToHiveType, Lower;
    LowerMeansAlike(partitionType);
  }

  // Whole runs.

  /** A change to the table, or a partition registered with the columns the table has by then. */
  datatype Step = Alter(change: Change) | Register

  datatype Table = Table(columns: seq<Column>, partitions: seq<seq<Column>>)

  /** The table after some steps; a change that is refused changes nothing. */
  function After(t: Table, keys: seq<string>, clustering: seq<string>, steps: seq<Step>): Table {
    if steps == [] then t
    else
      var before := After(t, keys, clustering, steps[..|steps| - 1]);
      match steps[|steps| - 1]
      case Register => before.(partitions := before.partitions + [before.columns])
      case Alter(change) =>
        match Changed(before.columns, keys, clustering, change)
        case Some(columns) => before.(columns := columns)
        case None => before
  }

  ghost predicate DeclareEarlier(t: Table) {
    forall p | 0 <= p < |t.partitions| :: AllEvolve(t.partitions[p], t.columns)
  }

  /** Over any run partitions stay, and all that was declared at any time became what the table declares. */
  lemma {:induction false} RunEvolves(t: Table, keys: seq<string>, clustering: seq<string>, steps: seq<Step>)
    requires DeclareEarlier(t) && forall k | 0 <= k < |steps| && steps[k].Alter? :: ChangeWellFormed(steps[k].change)
    ensures var end := After(t, keys, clustering, steps);
            DeclareEarlier(end) && t.partitions <= end.partitions && AllEvolve(t.columns, end.columns)
  {
    hide Changed, AllEvolve;
    NothingChanged(t.columns);
    if steps != [] {
      var front, last := steps[..|steps| - 1], steps[|steps| - 1];
      RunEvolves(t, keys, clustering, front);
      var before, end := After(t, keys, clustering, front), After(t, keys, clustering, steps);
      NothingChanged(before.columns);
      if last.Alter? && Changed(before.columns, keys, clustering, last.change).Some? {
        ChangeEvolves(before.columns, keys, clustering, last.change);
        AllEvolveTransitive(t.columns, before.columns, end.columns);
        forall p | 0 <= p < |before.partitions|
          ensures AllEvolve(before.partitions[p], end.columns)
        {
          AllEvolveTransitive(before.partitions[p], before.columns, end.columns);
        }
      }
    }
  }

  /** The main result: after any run each column of any partition registered so far, whenever that was, can be read as
      the table's column at its position. */
  lemma EveryPartitionIsReadable(t: Table, keys: seq<string>, clustering: seq<string>, steps: seq<Step>, p: nat, i: nat,
                                 implicit: ImplicitCasts)
    requires DeclareEarlier(t) && forall k | 0 <= k < |steps| && steps[k].Alter? :: ChangeWellFormed(steps[k].change)
    requires var end := After(t, keys, clustering, steps); p < |end.partitions| && i < |end.partitions[p]|
    ensures var end := After(t, keys, clustering, steps);
            && i < |end.columns|
            && (ToHiveType(end.columns[i].columnType).Some? ==>
                  CanRead(end.partitions[p][i].columnType, ToHiveType(end.columns[i].columnType).value, implicit))
  {
    hide After, Evolves, CanRead, ToHiveType;
    RunEvolves(t, keys, clustering, steps);
    var end := After(t, keys, clustering, steps);
    assert AllEvolve(end.partitions[p], end.columns);
    if ToHiveType(end.columns[i].columnType).Some? {
      EvolvedIsReadable(end.partitions[p][i].columnType, end.columns[i].columnType, implicit);
    }
  }

  /** A csv table and what each of its partitions declares. */
  class CsvTable {
    const keys: seq<string>
    const clustering: seq<string>
    var columns: seq<Column>
    var partitions: seq<seq<Column>>

    constructor (columns: seq<Column>, keys: seq<string>, clustering: seq<string>)
      ensures this.columns == columns && this.keys == keys && this.clustering == clustering && partitions == [] && Valid()
    {
      this.columns, this.keys, this.clustering, partitions := columns, keys, clustering, [];
    }

    /** Every partition registered so far declares columns that became the table's. */
    ghost predicate Valid()
      reads this
    {
      forall p | 0 <= p < |partitions| :: AllEvolve(partitions[p], columns)
    }

    method FindColumn(name: string) returns (i: nat)
      ensures i == IndexOfColumn(columns, name)
    {
      i := 0;
      while i < |columns| && !EqualIgnoringCase(columns[i].name, name)
        invariant i <= |columns| && IndexOfColumn(columns, name) == i + IndexOfColumn(columns[i..], name)
      {
        assert columns[i..][1..] == columns[i + 1..];
        i := i + 1;
      }
    }

    /** ALTER TABLE, or glue_replace_columns: the columns change at once, or not at all. */
    method AlterColumns(change: Change) returns (ok: bool)
      requires Valid() && ChangeWellFormed(change)
      modifies this`columns
      ensures Valid()
      ensures ok <==> Changed(old(columns), keys, clustering, change).Some?
      ensures columns == if ok then Changed(old(columns), keys, clustering, change).value else old(columns)
    {
      hide ToHiveType, FromHiveType, AllEvolve;
      ghost var before := columns;
      match change {
        case AddColumn(name, newType, ifNotExists) =>
          var i := FindColumn(name);
          if i < |columns| || IsKey(keys, name) {
            return ifNotExists;
          }
          var text := FromHiveType(newType);
          ok := text.Some?;
          if ok {
            columns := columns + [Column(name, text.value)];
          }
        case DropColumn(_) => return false;
        case RenameColumn(name, newName) =>
          var i := FindColumn(name);
          var taken := FindColumn(newName);
          ok := i < |columns| && (taken == |columns| || taken == i) && !IsKey(keys, newName) &&
                !IsKey(clustering, columns[i].name);
          if ok {
            columns := columns[i := Column(newName, columns[i].columnType)];
          }
        case AlterColumnType(name, target) =>
          var i := FindColumn(name);
          if IsKey(keys, name) || i == |columns| {
            return false;
          }
          var from, text := ToHiveType(columns[i].columnType), FromHiveType(target);
          ok := from.Some? && text.Some? && IsAllowedHiveTypeChange(from.value, target);
          if ok {
            columns := columns[i := Column(columns[i].name, text.value)];
          }
        case ReplaceColumns(given) => ok := ReplaceAll(given);
      }
      if ok {
        ChangeEvolves(before, keys, clustering, change);
        forall p | 0 <= p < |partitions|
          ensures AllEvolve(partitions[p], columns)
        {
          AllEvolveTransitive(partitions[p], before, columns);
        }
      }
    }

    method ReplaceAll(given: seq<(string, HiveType)>) returns (ok: bool)
      modifies this`columns
      ensures ok <==> |given| == |old(columns)| && Replaced(old(columns), keys, given).Some?
      ensures columns == if ok then Replaced(old(columns), keys, given).value else old(columns)
    {
      hide ReplacedOne;
      if |given| != |columns| {
        return false;
      }
      var replaced := [];
      for k := 0 to |given|
        invariant columns == old(columns) && Replaced(columns[..k], keys, given[..k]) == Some(replaced)
      {
        ReplacedNext(columns, keys, given, k);
        var column := ReplacedOne(columns[k], keys, given[k]);
        if column.None? {
          ReplacedFails(columns, keys, given, k + 1);
          return false;
        }
        replaced := replaced + [column.value];
      }
      assert columns[..|given|] == columns && given[..|given|] == given;
      columns := replaced;
      ok := true;
    }

    method RegisterPartition()
      requires Valid()
      modifies this`partitions
      ensures Valid() && partitions == old(partitions) + [columns]
    {
      partitions := partitions + [columns];
    }

    /** Any run of changes and registrations, refused ones included. */
    method Run(steps: seq<Step>)
      requires Valid() && forall k | 0 <= k < |steps| && steps[k].Alter? :: ChangeWellFormed(steps[k].change)
      modifies this`columns, this`partitions
      ensures Valid() && Table(columns, partitions) == After(Table(old(columns), old(partitions)), keys, clustering, steps)
    {
      hide Changed, AllEvolve;
      ghost var start := Table(columns, partitions);
      for k := 0 to |steps|
        invariant Valid() && Table(columns, partitions) == After(start, keys, clustering, steps[..k])
      {
        assert steps[..k + 1][..k] == steps[..k];
        match steps[k]
        case Register => RegisterPartition();
        case Alter(change) =>
          var ok := AlterColumns(change);
      }
      assert steps[..|steps|] == steps;
    }

    /** The types a scan gives the table's columns. */
    ghost predicate TypesOf(types: seq<HiveType>)
      reads this`columns
    {
      |types| == |columns| && forall i | 0 <= i < |types| :: ToHiveType(columns[i].columnType) == Some(types[i])
    }

    /** The scan's check passes for every partition, whenever it was registered. */
    method CheckPartition(p: nat, types: seq<HiveType>, columnIndexes: seq<nat>, implicit: ImplicitCasts) returns (ok: bool)
      requires Valid() && p < |partitions| && TypesOf(types)
      requires forall k | 0 <= k < |columnIndexes| :: columnIndexes[k] < |types|
      ensures ok
    {
      hide CanRead, ToHiveType, Evolves;
      ok := CheckPartitionColumns(partitions[p], types, columnIndexes, implicit);
      assert AllEvolve(partitions[p], columns);
      forall k | 0 <= k < |columnIndexes| && columnIndexes[k] < |partitions[p]|
        ensures CanRead(partitions[p][columnIndexes[k]].columnType, types[columnIndexes[k]], implicit)
      {
        var i := columnIndexes[k];
        EvolvedIsReadable(partitions[p][i].columnType, columns[i].columnType, implicit);
      }
    }
  }

  lemma NothingChanged(columns: seq<Column>)
    ensures AllEvolve(columns, columns)
  {
  }

  lemma ReplacedNext(columns: seq<Column>, keys: seq<string>, given: seq<(string, HiveType)>, k: nat)
    requires |given| == |columns| && k < |given|
    ensures Replaced(columns[..k + 1], keys, given[..k + 1]) ==
            match (Replaced(columns[..k], keys, given[..k]), ReplacedOne(columns[k], keys, given[k]))
            case (Some(before), Some(last)) => Some(before + [last])
            case _ => None
  {
    hide ReplacedOne;
    assert columns[..k + 1][..k] == columns[..k] && given[..k + 1][..k] == given[..k];
  }

  lemma {:induction false} ReplacedFails(columns: seq<Column>, keys: seq<string>, given: seq<(string, HiveType)>, k: nat)
    requires |given| == |columns| && k <= |given| && Replaced(columns[..k], keys, given[..k]).None?
    ensures Replaced(columns, keys, given).None?
    decreases |given| - k
  {
    hide ReplacedOne;
    if k == |given| {
      assert columns[..k] == columns && given[..k] == given;
    } else {
      ReplacedNext(columns, keys, given, k);
      ReplacedFails(columns, keys, given, k + 1);
    }
  }
}
