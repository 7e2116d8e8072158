/** Whether a partition declares the table's columns: rows are not written to one that declares another type. */
module ColumnTypes {
  import opened Outcomes
  import opened Text
  import opened HiveTypes
  import opened SchemaEvolution

  function WithoutSpaces(s: string): (r: string)
    ensures forall i | 0 <= i < |r| :: !IsSpace(r[i])
  {
    if s == "" then "" else (if IsSpace(s[0]) then "" else [s[0]]) + WithoutSpaces(s[1..])
  }

  /** Types are compared as what they mean, and as text when one of them can not be read. */
  predicate SameColumnType(a: string, b: string) {
    match (ToHiveType(a), ToHiveType(b))
    case (Some(x), Some(y)) => x == y
    case _ => WithoutSpaces(Lower(a)) == WithoutSpaces(Lower(b))
  }

  lemma {:induction false} SpacesDoNotCount(a: string, blank: string, b: string)
    requires forall i | 0 <= i < |blank| :: IsSpace(blank[i])
    ensures WithoutSpaces(a + blank + b) == WithoutSpaces(a + b)
    decreases |a| + |blank|
  {
    hide IsSpace;
    if a != "" {
      assert (a + blank + b)[1..] == a[1..] + blank + b && (a + b)[1..] == a[1..] + b;
      SpacesDoNotCount(a[1..], blank, b);
    } else if blank != "" {
      assert (a + blank + b)[1..] == a + blank[1..] + b;
      SpacesDoNotCount(a, blank[1..], b);
    } else {
      assert a + blank + b == a + b;
    }
  }

  lemma {:induction false} NoSpacesStay(s: string)
    requires forall i | 0 <= i < |s| :: !IsSpace(s[i])
    ensures WithoutSpaces(s) == s
  {
    hide IsSpace;
    if s != "" {
      NoSpacesStay(s[1..]);
      assert [s[0]] + s[1..] == s;
    }
  }

  /** A type that can not be read is the same as one that is spelled alike, in any case and with whitespace anywhere; and
      no other. */
  lemma UnreadableIsComparedAsText(a: string, front: string, blank: string, back: string)
    requires ToHiveType(a) == None && forall i | 0 <= i < |a| :: !IsSpace(a[i])
    requires forall i | 0 <= i < |blank| :: IsSpace(blank[i])
    requires forall i | 0 <= i < |front + back| :: !IsSpace((front + back)[i])
    ensures SameColumnType(a, front + blank + back) <==> Lower(a) == Lower(front + back)
    ensures SameColumnType(front + blank + back, a) <==> Lower(a) == Lower(front + back)
  {
    hide ToHiveType, WithoutSpaces, IsSpace, Lower;
    LowerKeepsSpaces(a);
    LowerKeepsSpaces(blank);
    LowerKeepsSpaces(front + back);
    LowerOfBoth(front, blank, back);
    SpacesDoNotCount(Lower(front), Lower(blank), Lower(back));
    NoSpacesStay(Lower(a));
    NoSpacesStay(Lower(front + back));
  }

  lemma LowerKeepsSpaces(s: string)
    ensures forall i | 0 <= i < |s| :: IsSpace(Lower(s)[i]) == IsSpace(s[i])
  {
    forall i | 0 <= i < |s|
      ensures IsSpace(Lower(s)[i]) == IsSpace(s[i])
    {
      LowerSpace(s[i]);
    }
  }

  lemma LowerOfBoth(front: string, blank: string, back: string)
    ensures Lower(front + blank + back) == Lower(front) + Lower(blank) + Lower(back)
    ensures Lower(front + back) == Lower(front) + Lower(back)
  {
  }

  /** The partition's column for a table column: the one at its position, or the first of its name. */
  function PartitionColumn(tableColumns: seq<Column>, partitionColumns: seq<Column>, i: nat, byPosition: bool): Option<Column>
    requires i < |tableColumns|
  {
    var k := if byPosition then i else IndexOfColumn(partitionColumns, tableColumns[i].name);
    if k < |partitionColumns| then Some(partitionColumns[k]) else None
  }

  method FindPartitionColumn(tableColumns: seq<Column>, partitionColumns: seq<Column>, i: nat, byPosition: bool)
    returns (r: Option<Column>)
    requires i < |tableColumns|
    ensures r == PartitionColumn(tableColumns, partitionColumns, i, byPosition)
  {
    if byPosition {
      return if i < |partitionColumns| then Some(partitionColumns[i]) else None;
    }
    var name := tableColumns[i].name;
    for k := 0 to |partitionColumns|
      invariant IndexOfColumn(partitionColumns, name) == k + IndexOfColumn(partitionColumns[k..], name)
    {
      if EqualIgnoringCase(partitionColumns[k].name, name) {
        return Some(partitionColumns[k]);
      }
      assert partitionColumns[k..][1..] == partitionColumns[k + 1..];
    }
    r := None;
  }

  predicate MatchesAt(tableColumns: seq<Column>, partitionColumns: seq<Column>, i: nat, byPosition: bool)
    requires i < |tableColumns|
  {
    match PartitionColumn(tableColumns, partitionColumns, i, byPosition)
    case None => true
    case Some(column) => SameColumnType(tableColumns[i].columnType, column.columnType)
  }

  predicate Mismatched(tableColumns: seq<Column>, partitionColumns: seq<Column>, byPosition: bool) {
    exists i | 0 <= i < |tableColumns| :: !MatchesAt(tableColumns, partitionColumns, i, byPosition)
  }

  /** The first column whose type the partition declares otherwise. */
  method FindColumnTypeMismatch(tableColumns: seq<Column>, partitionColumns: seq<Column>, byPosition: bool) returns (r: Option<nat>)
    ensures r.None? <==> !Mismatched(tableColumns, partitionColumns, byPosition)
    ensures r.Some? ==> r.value < |tableColumns| && !MatchesAt(tableColumns, partitionColumns, r.value, byPosition)
    ensures r.Some? ==> forall i | 0 <= i < r.value :: MatchesAt(tableColumns, partitionColumns, i, byPosition)
  {
    hide SameColumnType, PartitionColumn;
    for i := 0 to |tableColumns|
      invariant forall k | 0 <= k < i :: MatchesAt(tableColumns, partitionColumns, k, byPosition)
    {
      var column := FindPartitionColumn(tableColumns, partitionColumns, i, byPosition);
      if column.Some? && !SameColumnType(tableColumns[i].columnType, column.value.columnType) {
        assert !MatchesAt(tableColumns, partitionColumns, i, byPosition);
        return Some(i);
      }
    }
    r := None;
  }

  /** A partition of a csv table that declares what the table declared does not mismatch after columns are added or
      renamed. */
  lemma AddedOrRenamedMatches(columns: seq<Column>, keys: seq<string>, clustering: seq<string>, change: Change)
    requires (change.AddColumn? || change.RenameColumn?) && Changed(columns, keys, clustering, change).Some?
    ensures !Mismatched(Changed(columns, keys, clustering, change).value, columns, true)
  {
    hide ToHiveType, FromHiveType, WithoutSpaces;
  }

  /** It mismatches after a column's type is changed exactly when what is stored for it does not mean what the column was. */
  lemma RetypedMismatchesExactlyWhen(columns: seq<Column>, keys: seq<string>, clustering: seq<string>, column: string, given: HiveType)
    requires WellFormed(given) && Changed(columns, keys, clustering, AlterColumnType(column, given)).Some?
    ensures IndexOfColumn(columns, column) < |columns|
    ensures Mismatched(Changed(columns, keys, clustering, AlterColumnType(column, given)).value, columns, true) <==>
            Retyped(columns[IndexOfColumn(columns, column)], given)
  {
    hide ToHiveType, FromHiveType, Widened, IsAllowedHiveTypeChange, WellFormed, Mismatched;
    var i, text := IndexOfColumn(columns, column), FromHiveType(given).value;
    StoredTypeReadsBack(given);
    OneDiffers(columns, i, Column(columns[i].name, text));
  }

  lemma OneDiffers(columns: seq<Column>, i: nat, now: Column)
    requires i < |columns|
    ensures Mismatched(columns[i := now], columns, true) <==> !SameColumnType(now.columnType, columns[i].columnType)
  {
    hide ToHiveType, WithoutSpaces;
    var after := columns[i := now];
    assert MatchesAt(after, columns, i, true) <==> SameColumnType(now.columnType, columns[i].columnType);
    assert forall k | 0 <= k < |columns| && k != i :: MatchesAt(after, columns, k, true);
  }

  lemma ReplacedMismatchesExactlyWhen(columns: seq<Column>, keys: seq<string>, given: seq<(string, HiveType)>)
    requires |given| == |columns| && Replaced(columns, keys, given).Some? && forall i | 0 <= i < |given| :: WellFormed(given[i].1)
    ensures Mismatched(Replaced(columns, keys, given).value, columns, true) <==>
            exists i | 0 <= i < |given| :: Retyped(columns[i], given[i].1)
  {
    hide ToHiveType, FromHiveType, Widened, WellFormed, WithoutSpaces, Replaced;
    var after := Replaced(columns, keys, given).value;
    ReplacedTypes(columns, keys, given);
    forall i | 0 <= i < |given|
      ensures MatchesAt(after, columns, i, true) <==> !Retyped(columns[i], given[i].1)
    {
      StoredTypeReadsBack(given[i].1);
    }
  }

  /** What is stored for the type does not mean what the column is. */
  predicate Retyped(column: Column, given: HiveType) {
    ToHiveType(column.columnType) != Some(Widened(given))
  }

  lemma {:induction false} ReplacedTypes(columns: seq<Column>, keys: seq<string>, given: seq<(string, HiveType)>)
    requires |given| == |columns| && Replaced(columns, keys, given).Some?
    ensures var after := Replaced(columns, keys, given).value;
            forall i | 0 <= i < |given| :: ToHiveType(columns[i].columnType).Some? && FromHiveType(given[i].1) == Some(after[i].columnType)
  {
    hide ToHiveType, FromHiveType, IsAllowedHiveTypeChange;
    if given != [] {
      ReplacedTypes(columns[..|columns| - 1], keys, given[..|given| - 1]);
    }
  }
}
