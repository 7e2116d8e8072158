/** Where an INSERT writes a row, and which partition the directory is registered as. */
module InsertRouting {
  import opened Outcomes
  import opened Text
  import opened PartitionValues
  import opened Locations
  import opened ListingSpec

  /** A registered partition. 'mismatch': it declares a column with another type than the table. */
  datatype Registered = Registered(values: seq<string>, location: string, mismatch: bool)

  /** What a row that matches is done with. A path that is not below the table is rejected by the copy. */
  datatype Then = WriteTo(relative: string) | NotBelow | Refuse

  /** One WHEN of the CASE that gives a row its directory. */
  datatype Case = Case(row: seq<Value>, result: Then)

  /** Directories below the table's location at which existing partitions are registered. */
  datatype Custom = Custom(relative: string, values: seq<string>)

  predicate IsDot(component: string) {
    component == "" || component == "."
  }

  /** The components kept of a path, and whether all are. */
  function WritableComponents(components: seq<string>): (seq<string>, bool) {
    if components == [] then ([], true)
    else
      var (front, writable) := WritableComponents(components[..|components| - 1]);
      var last := components[|components| - 1];
      if IsDot(last) then (front, false) else (front + [last], writable)
  }

  datatype Target = Target(keys: seq<string>, types: seq<KeyType>, location: string) {
    predicate Valid() {
      |keys| == |types| > 0 && Trimmed(location) == location && location != ""
    }

    /** A row's key values. */
    predicate IsRow(row: seq<Value>) {
      |row| == |types| && forall i | 0 <= i < |row| :: HasType(row[i], types[i])
    }

    /** The directory below the table's location, empty if it is not below; and whether the copy can write to it. */
    function RelativePartitionPath(partitionLocation: string): (string, bool) {
      var prefix, there := ComparableLocation(location) + "/", ComparableLocation(partitionLocation);
      if !StartsWith(there, prefix) then ("", true)
      else
        var (components, writable) := WritableComponents(Split(there[|prefix|..], '/'));
        (Join(components, '/'), writable)
    }

    /** The typed values of a partition; None is one that can not be read. */
    function Typed(values: seq<string>): (r: Option<seq<Value>>)
      requires |keys| == |types|
      ensures r.Some? ==> |r.value| == |types|
    {
      if |values| != |types| || exists i | 0 <= i < |values| :: PartitionValue(values[i], types[i]).None? then None
      else Some(seq(|values|, i requires 0 <= i < |values| => PartitionValue(values[i], types[i]).value))
    }

    function Rendered(row: seq<Value>): (r: seq<string>)
      ensures |r| == |row|
    {
      seq(|row|, i requires 0 <= i < |row| => Render(row[i]))
    }

    function HivePath(row: seq<Value>): string
      requires |row| == |keys|
    {
      PartitionDirectory(keys, Rendered(row))
    }

    /** Rows whose values would read back as NULL although they are not. */
    predicate RefusedRow(row: seq<Value>)
      requires |row| == |types|
    {
      exists i | 0 <= i < |row| :: RefusedAsNull(row[i], types[i])
    }

    /** What the CASE says of a partition's rows; None when the default layout is theirs anyway. */
    function CaseOf(p: Registered): Option<Case>
      requires |keys| == |types| && Typed(p.values).Some?
    {
      var row := Typed(p.values).value;
      var (relative, writable) := RelativePartitionPath(p.location);
      if !p.mismatch && relative == HivePath(row) && writable && p.values == Rendered(row) then None
      else if p.mismatch || !writable then Some(Case(row, Refuse))
      else if relative == "" then Some(Case(row, NotBelow))
      else Some(Case(row, WriteTo(relative)))
    }

    predicate AllReadable(partitions: seq<Registered>)
      requires |keys| == |types|
    {
      forall k | 0 <= k < |partitions| :: Typed(partitions[k].values).Some?
    }

    function Cases(partitions: seq<Registered>): seq<Case>
      requires |keys| == |types| && AllReadable(partitions)
    {
      if partitions == [] then []
      else
        Cases(partitions[..|partitions| - 1]) +
        match CaseOf(partitions[|partitions| - 1]) case None => [] case Some(c) => [c]
    }

    function CustomOf(p: Registered): seq<Custom>
      requires |keys| == |types| && Typed(p.values).Some?
    {
      match CaseOf(p)
      case Some(Case(_, WriteTo(relative))) => [Custom(relative, p.values)]
      case _ => []
    }

    function Customs(partitions: seq<Registered>): seq<Custom>
      requires |keys| == |types| && AllReadable(partitions)
    {
      if partitions == [] then [] else Customs(partitions[..|partitions| - 1]) + CustomOf(partitions[|partitions| - 1])
    }

    static function FirstCase(cases: seq<Case>, row: seq<Value>): Option<Then> {
      if cases == [] then None
      else if cases[0].row == row then Some(cases[0].result)
      else FirstCase(cases[1..], row)
    }

    static predicate IsCustom(customs: seq<Custom>, path: string) {
      exists k | 0 <= k < |customs| :: customs[k].relative == path
    }

    /** The whole CASE. */
    function Route(partitions: seq<Registered>, row: seq<Value>): Then
      requires |keys| == |types| == |row| && AllReadable(partitions)
    {
      if RefusedRow(row) then Refuse
      else match FirstCase(Cases(partitions), row)
        case Some(result) => result
        case None => if IsCustom(Customs(partitions), HivePath(row)) then Refuse else WriteTo(HivePath(row))
    }

    // The directory a file was written to, read back.

    static function ValuesAt(customs: seq<Custom>, relative: string): Option<seq<string>> {
      if customs == [] then None
      else if customs[0].relative == relative then Some(customs[0].values)
      else ValuesAt(customs[1..], relative)
    }

    /** The values that the last components of a directory give the keys; None when they do not. */
    function DirectoryValues(components: seq<string>): Option<seq<string>> {
      if |components| < |keys| then None
      else
        var first := |components| - |keys|;
        if exists i | 0 <= i < |keys| :: ReadComponent(components[first + i], keys[i]).None? then None
        else Some(seq(|keys|, i requires 0 <= i < |keys| => ReadComponent(components[first + i], keys[i]).value))
    }

    /** The partition a written directory is registered as. */
    function Finalized(partitions: seq<Registered>, relative: string): Option<seq<string>>
      requires |keys| == |types| && AllReadable(partitions)
    {
      match ValuesAt(Customs(partitions), relative)
      case Some(values) => Some(values)
      case None => DirectoryValues(Split(location + "/" + relative, '/'))
    }

    // Paths.

    static lemma {:induction false} AllWritable(components: seq<string>)
      ensures WritableComponents(components).1 <==> forall k | 0 <= k < |components| :: !IsDot(components[k])
      ensures WritableComponents(components).1 ==> WritableComponents(components).0 == components
    {
      if components != [] {
        var front := components[..|components| - 1];
        AllWritable(front);
        assert components == front + [components[|components| - 1]];
        assert forall k | 0 <= k < |front| :: front[k] == components[k];
      }
    }

    static lemma PlainSplit(s: string)
      requires s != "" && s[|s| - 1] != '/'
      ensures Split(s, '/') == Pieces(s, '/') && Join(Split(s, '/'), '/') == s
    {
      hide Pieces, Join;
      JoinOfPieces(s, '/');
      LastPiece(s);
    }

    static lemma {:induction false} LastPiece(s: string)
      requires s != "" && s[|s| - 1] != '/'
      ensures Pieces(s, '/')[|Pieces(s, '/')| - 1] != ""
    {
      if |s| > 1 {
        LastPiece(s[1..]);
      }
    }

    static lemma ComparableTwice(d: string)
      ensures var c := ComparableLocation(d);
              ComparableLocation(c) == c && Trimmed(c) == c && NormalScheme(c) == c
    {
      var t := Trimmed(d);
      NormalSchemeKeepsLast(t);
      NormalSchemeTwice(t, "");
      assert t + "" == t && NormalScheme(t) + "" == NormalScheme(t);
    }

    /** The directory a partition below the table is written to is where it is registered. */
    lemma RelativeIsThere(partitionLocation: string)
      requires Valid() && RelativePartitionPath(partitionLocation).1 && RelativePartitionPath(partitionLocation).0 != ""
      ensures ComparableLocation(location + "/" + RelativePartitionPath(partitionLocation).0) == ComparableLocation(partitionLocation)
      ensures var d := location + "/" + RelativePartitionPath(partitionLocation).0; Trimmed(d) == d
    {
      hide TrimEnd, NormalScheme, WritableComponents, Split;
      var prefix, there := ComparableLocation(location) + "/", ComparableLocation(partitionLocation);
      var rest := there[|prefix|..];
      assert there == prefix + rest;
      ComparableTwice(partitionLocation);
      AllWritable(Split(rest, '/'));
      RestIsPlain(there, prefix, rest);
      assert RelativePartitionPath(partitionLocation).0 == rest;
      assert location + "/" + rest == location + ("/" + rest);
      ComparableOfChild(location, "/" + rest);
      assert NormalScheme(location) + ("/" + rest) == there;
      PlainIsTrimmed(location, rest);
    }

    static lemma PlainIsTrimmed(a: string, b: string)
      requires b != "" && b[|b| - 1] != '/'
      ensures Trimmed(a + "/" + b) == a + "/" + b
    {
    }

    static lemma RestIsPlain(there: string, prefix: string, rest: string)
      requires there == prefix + rest && Trimmed(there) == there
      ensures rest == "" ==> Join(Split(rest, '/'), '/') == ""
      ensures rest != "" ==> Join(Split(rest, '/'), '/') == rest && rest[|rest| - 1] != '/'
    {
      if rest != "" {
        assert rest[|rest| - 1] == there[|there| - 1];
        PlainSplit(rest);
      }
    }

    /** The path of the default layout, split again, is its components. */
    lemma HivePathSplits(row: seq<Value>)
      requires Valid() && |row| == |keys|
      ensures var parts := Components(keys, Rendered(row));
              && HivePath(row) != "" && HivePath(row)[0] != '/' && HivePath(row)[|HivePath(row)| - 1] != '/'
              && Pieces(HivePath(row), '/') == parts && Split(HivePath(row), '/') == parts
              && (forall k | 0 <= k < |parts| :: !IsDot(parts[k]))
    {
      hide Pieces, Join, Component, Split, ReadComponent;
      var parts := Components(keys, Rendered(row));
      DirectoryReadsBack(keys, Rendered(row));
      assert forall k | 0 <= k < |parts| :: parts[k] in parts;
      JoinEndsPlain(parts);
      PlainSplit(HivePath(row));
    }

    static lemma {:induction false} JoinEndsPlain(parts: seq<string>)
      requires parts != [] && forall c | c in parts :: c != "" && '/' !in c
      ensures var s := Join(parts, '/'); s != "" && s[0] != '/' && s[|s| - 1] != '/'
    {
      assert parts[0] in parts;
      if |parts| > 1 {
        assert forall c | c in parts[1..] :: c in parts;
        JoinEndsPlain(parts[1..]);
      } else {
        var last := parts[0][|parts[0]| - 1];
        assert last in parts[0];
      }
    }

    /** A location is the default one exactly when its relative path is. */
    lemma HivePathIsRelative(row: seq<Value>, partitionLocation: string)
      requires Valid() && |row| == |keys|
      requires ComparableLocation(partitionLocation) == ComparableLocation(location + "/" + HivePath(row))
      ensures RelativePartitionPath(partitionLocation) == (HivePath(row), true)
    {
      hide TrimEnd, NormalScheme, WritableComponents, Split, Pieces, Join, Component, HivePath;
      var path := HivePath(row);
      HivePathSplits(row);
      HivePathLocation(row);
      var prefix := ComparableLocation(location) + "/";
      var there := ComparableLocation(partitionLocation);
      assert there == prefix + path && there[|prefix|..] == path && there[..|prefix|] == prefix;
      AllWritable(Split(path, '/'));
      JoinOfPieces(path, '/');
    }

    lemma HivePathLocation(row: seq<Value>)
      requires Valid() && |row| == |keys| && HivePath(row) != "" && HivePath(row)[0] != '/'
      requires HivePath(row)[|HivePath(row)| - 1] != '/'
      ensures ComparableLocation(location + "/" + HivePath(row)) == ComparableLocation(location) + "/" + HivePath(row)
    {
      hide HivePath;
      var path := HivePath(row);
      var child := "/" + path;
      assert location + "/" + path == location + child && ComparableLocation(location) + "/" + path == ComparableLocation(location) + child;
      TrimmedOfChild(location, child);
      assert Trimmed(child) == child;
      ChildNormal(location, child);
    }

    /** The scheme of a path is that of the directory above it. */
    static lemma ChildNormal(d: string, r: string)
      requires Trimmed(d) == d && |r| > 1 && r[0] == '/' && r[1] != '/'
      ensures NormalScheme(d + r) == NormalScheme(d) + r
    {
      if HasHadoopScheme(d) || HasS3Scheme(d) {
        NormalSchemeOfExtension(d, r);
      } else {
        ChildHasNoScheme(d, r);
      }
    }

    static lemma ChildHasNoScheme(d: string, r: string)
      requires Trimmed(d) == d && |r| > 1 && r[0] == '/' && r[1] != '/' && !HasHadoopScheme(d) && !HasS3Scheme(d)
      ensures !HasHadoopScheme(d + r) && !HasS3Scheme(d + r)
    {
      var s := d + r;
      assert forall k | 0 <= k < |d| :: s[k] == d[k];
      assert s[|d|] == '/' && s[|d| + 1] == r[1];
      assert d != "" ==> d[|d| - 1] != '/';
    }

    // What the CASE holds.

    lemma {:induction false} CasesAre(partitions: seq<Registered>, c: Case)
      requires |keys| == |types| && AllReadable(partitions)
      ensures c in Cases(partitions) <==> exists k | 0 <= k < |partitions| :: CaseOf(partitions[k]) == Some(c)
    {
      hide CaseOf;
      if partitions != [] {
        var front := partitions[..|partitions| - 1];
        CasesAre(front, c);
        assert forall k | 0 <= k < |front| :: front[k] == partitions[k];
      }
    }

    lemma {:induction false} CustomsAre(partitions: seq<Registered>, c: Custom)
      requires |keys| == |types| && AllReadable(partitions)
      ensures c in Customs(partitions) <==> exists k | 0 <= k < |partitions| :: c in CustomOf(partitions[k])
    {
      hide CustomOf;
      if partitions != [] {
        var front := partitions[..|partitions| - 1];
        CustomsAre(front, c);
        assert forall k | 0 <= k < |front| :: front[k] == partitions[k];
      }
    }

    static lemma {:induction false} FirstCaseIs(cases: seq<Case>, row: seq<Value>)
      ensures match FirstCase(cases, row)
              case Some(result) => Case(row, result) in cases
              case None => forall c | c in cases :: c.row != row
    {
      if cases != [] {
        FirstCaseIs(cases[1..], row);
        assert cases[0] in cases && forall c | c in cases[1..] :: c in cases;
      }
    }

    static lemma {:induction false} ValuesAtIs(customs: seq<Custom>, relative: string)
      ensures match ValuesAt(customs, relative)
              case Some(values) => Custom(relative, values) in customs
              case None => forall c | c in customs :: c.relative != relative
    {
      if customs != [] {
        ValuesAtIs(customs[1..], relative);
        assert customs[0] in customs && forall c | c in customs[1..] :: c in customs;
      }
    }

    // Rows and what they are registered as.

    /** Two partitions are never registered at one location, however it is spelled. */
    ghost predicate NoneShared(partitions: seq<Registered>) {
      forall i, j | 0 <= i < j < |partitions| :: ComparableLocation(partitions[i].location) != ComparableLocation(partitions[j].location)
    }

    ghost predicate Planned(partitions: seq<Registered>) {
      Valid() && AllReadable(partitions) && NoneShared(partitions)
    }

    /** Where a partition that declares other column types is at a row's default directory, the row is not accepted or
        some partition is registered with its values. */
    ghost predicate MismatchesApart(partitions: seq<Registered>)
      requires |keys| == |types|
    {
      forall row, k | IsRow(row) && !RefusedRow(row) && 0 <= k < |partitions| && InTheWay(partitions[k], row) :: HasPartition(partitions, row)
    }

    predicate HasPartition(partitions: seq<Registered>, row: seq<Value>)
      requires |keys| == |types|
    {
      exists m | 0 <= m < |partitions| :: Typed(partitions[m].values) == Some(row)
    }

    predicate InTheWay(p: Registered, row: seq<Value>)
      requires |row| == |keys|
    {
      p.mismatch && ComparableLocation(p.location) == ComparableLocation(location + "/" + HivePath(row))
    }

    ghost predicate Writable(partitions: seq<Registered>) {
      Planned(partitions) && MismatchesApart(partitions)
    }

    /** It is enough that every partition declares the table's column types. */
    lemma AllMatchIsApart(partitions: seq<Registered>)
      requires |keys| == |types| && forall k | 0 <= k < |partitions| :: !partitions[k].mismatch
      ensures MismatchesApart(partitions)
    {
    }

    /** The row is written to the location of an existing partition of its values, or to the default directory of values
        and a location that no partition has. */
    ghost predicate WellWritten(partitions: seq<Registered>, row: seq<Value>, relative: string, values: seq<string>)
      requires |keys| == |types| == |row|
    {
      && Typed(values) == Some(row) && Trimmed(location + "/" + relative) == location + "/" + relative
      && ((exists k | 0 <= k < |partitions| :: partitions[k].values == values &&
             ComparableLocation(partitions[k].location) == ComparableLocation(location + "/" + relative))
          || (relative == HivePath(row) && values == Rendered(row) &&
              forall k | 0 <= k < |partitions| :: partitions[k].values != values &&
                ComparableLocation(partitions[k].location) != ComparableLocation(location + "/" + relative)))
    }

    lemma CustomIsThere(p: Registered, c: Custom)
      requires Valid() && Typed(p.values).Some? && c in CustomOf(p)
      ensures Trimmed(location + "/" + c.relative) == location + "/" + c.relative
      ensures c.values == p.values && ComparableLocation(p.location) == ComparableLocation(location + "/" + c.relative)
    {
      RelativeIsThere(p.location);
    }

    /** One written directory is one partition's location. */
    lemma FinalizedExisting(partitions: seq<Registered>, k: nat, row: seq<Value>, relative: string)
      requires Planned(partitions) && k < |partitions| && CaseOf(partitions[k]) == Some(Case(row, WriteTo(relative)))
      ensures Finalized(partitions, relative) == Some(partitions[k].values)
      ensures Trimmed(location + "/" + relative) == location + "/" + relative
      ensures ComparableLocation(partitions[k].location) == ComparableLocation(location + "/" + relative)
    {
      hide ComparableLocation, CaseOf, RelativePartitionPath;
      var own := Custom(relative, partitions[k].values);
      assert own in CustomOf(partitions[k]);
      CustomIsThere(partitions[k], own);
      CustomsAre(partitions, own);
      ValuesAtIs(Customs(partitions), relative);
      var found := Custom(relative, ValuesAt(Customs(partitions), relative).value);
      CustomsAre(partitions, found);
      var m :| 0 <= m < |partitions| && found in CustomOf(partitions[m]);
      CustomIsThere(partitions[m], found);
      assert m == k;
    }

    /** Without a custom directory there, the default path gives the row's values back. */
    lemma FinalizedNew(partitions: seq<Registered>, row: seq<Value>)
      requires Planned(partitions) && IsRow(row) && !IsCustom(Customs(partitions), HivePath(row))
      ensures Finalized(partitions, HivePath(row)) == Some(Rendered(row))
    {
      hide Pieces, Component, Split, HivePath, ReadComponent, Customs;
      var path, parts := HivePath(row), Components(keys, Rendered(row));
      ValuesAtIs(Customs(partitions), path);
      NoneAt(Customs(partitions), path);
      HivePathSplits(row);
      PathBelowSplits(location, path);
      TailValues(Pieces(location, '/'), row);
    }

    static lemma NoneAt(customs: seq<Custom>, path: string)
      requires !IsCustom(customs, path)
      ensures ValuesAt(customs, path).None?
    {
      ValuesAtIs(customs, path);
    }

    lemma TailValues(above: seq<string>, row: seq<Value>)
      requires Valid() && |row| == |keys|
      ensures DirectoryValues(above + Components(keys, Rendered(row))) == Some(Rendered(row))
    {
      hide Component, ReadComponent, Rendered;
      var parts := Components(keys, Rendered(row));
      DirectoryReadsBack(keys, Rendered(row));
      var all := above + parts;
      assert forall i | 0 <= i < |keys| :: all[|all| - |keys| + i] == parts[i];
      assert DirectoryValues(all).Some?;
      assert DirectoryValues(all).value == Rendered(row);
    }

    static lemma PathBelowSplits(a: string, b: string)
      requires b != "" && b[|b| - 1] != '/'
      ensures Split(a + "/" + b, '/') == Pieces(a, '/') + Pieces(b, '/')
    {
      hide Pieces, Split;
      SplitThrough(a, b);
      PlainSplit(b);
    }

    lemma RowReadsBack(row: seq<Value>)
      requires |keys| == |types| && IsRow(row)
      ensures Typed(Rendered(row)) == Some(row) <==> !RefusedRow(row)
    {
      hide PartitionValue, RefusedAsNull, Render;
      forall i | 0 <= i < |row|
        ensures PartitionValue(Rendered(row)[i], types[i]) == Some(row[i]) <==> !RefusedAsNull(row[i], types[i])
      {
        StoredTextReadsBack(row[i], types[i]);
      }
      if Typed(Rendered(row)) == Some(row) {
        forall i | 0 <= i < |row|
          ensures PartitionValue(Rendered(row)[i], types[i]) == Some(row[i])
        {
          assert Typed(Rendered(row)).value[i] == row[i];
        }
      }
      if !RefusedRow(row) {
        assert Typed(Rendered(row)).Some? && forall i | 0 <= i < |row| :: Typed(Rendered(row)).value[i] == row[i];
        assert Typed(Rendered(row)).value == row;
      }
    }

    /** A partition that has the row's values, or is where its default directory is, is left to the default layout. */
    lemma DefaultIsFree(partitions: seq<Registered>, row: seq<Value>, k: nat)
      requires Writable(partitions) && IsRow(row) && !RefusedRow(row) && k < |partitions|
      requires FirstCase(Cases(partitions), row).None? && !IsCustom(Customs(partitions), HivePath(row))
      ensures partitions[k].values == Rendered(row) <==>
              ComparableLocation(partitions[k].location) == ComparableLocation(location + "/" + HivePath(row))
    {
      hide ComparableLocation, RelativePartitionPath, HivePath, IsDot, RefusedRow, Typed;
      var p := partitions[k];
      FirstCaseIs(Cases(partitions), row);
      if p.values == Rendered(row) {
        RowReadsBack(row);
        assert CaseOf(p).Some? ==> CaseOf(p).value.row == row;
        if CaseOf(p).Some? {
          CasesAre(partitions, CaseOf(p).value);
        }
        assert CaseOf(p).None?;
        DefaultIsThere(row, p.location);
      }
      if ComparableLocation(p.location) == ComparableLocation(location + "/" + HivePath(row)) {
        HivePathIsRelative(row, p.location);
        HivePathSplits(row);
        if p.mismatch {
          assert InTheWay(p, row);
          NotInTheWay(partitions, row, k);
        }
        if CaseOf(p).Some? {
          var c := Custom(HivePath(row), p.values);
          assert c in CustomOf(p);
          CustomsAre(partitions, c);
        }
        assert CaseOf(p).None?;
        SamePath(row, Typed(p.values).value);
      }
    }

    /** With a partition of the row's values a mismatching one is not in the way of a row left to the default layout. */
    lemma NotInTheWay(partitions: seq<Registered>, row: seq<Value>, k: nat)
      requires Planned(partitions) && IsRow(row) && k < |partitions| && HasPartition(partitions, row)
      requires FirstCase(Cases(partitions), row).None?
      ensures !InTheWay(partitions[k], row)
    {
      hide ComparableLocation, RelativePartitionPath, HivePath, Typed, Cases, Rendered;
      var m :| 0 <= m < |partitions| && Typed(partitions[m].values) == Some(row);
      FirstCaseIs(Cases(partitions), row);
      if CaseOf(partitions[m]).Some? {
        CasesAre(partitions, CaseOf(partitions[m]).value);
      }
      DefaultIsThere(row, partitions[m].location);
    }

    /** Without one the row goes to its default directory, although the mismatching partition is there. */
    lemma TakenByDefault(partitions: seq<Registered>, row: seq<Value>, k: nat)
      requires Planned(partitions) && IsRow(row) && !RefusedRow(row) && !HasPartition(partitions, row)
      requires k < |partitions| && InTheWay(partitions[k], row)
      ensures Route(partitions, row) == WriteTo(HivePath(row)) && Typed(partitions[k].values) != Some(row)
    {
      hide ComparableLocation, RelativePartitionPath, HivePath, Typed, Cases, Customs, Rendered, RefusedRow;
      FirstCaseIs(Cases(partitions), row);
      if FirstCase(Cases(partitions), row).Some? {
        var c := Case(row, FirstCase(Cases(partitions), row).value);
        CasesAre(partitions, c);
      }
      if IsCustom(Customs(partitions), HivePath(row)) {
        var n :| 0 <= n < |Customs(partitions)| && Customs(partitions)[n].relative == HivePath(row);
        var custom := Customs(partitions)[n];
        CustomsAre(partitions, custom);
        var m :| 0 <= m < |partitions| && custom in CustomOf(partitions[m]);
        CustomIsThere(partitions[m], custom);
      }
    }

    lemma DefaultIsThere(row: seq<Value>, partitionLocation: string)
      requires Valid() && |row| == |keys| && RelativePartitionPath(partitionLocation) == (HivePath(row), true)
      ensures ComparableLocation(partitionLocation) == ComparableLocation(location + "/" + HivePath(row))
    {
      HivePathSplits(row);
      RelativeIsThere(partitionLocation);
    }

    lemma SamePath(a: seq<Value>, b: seq<Value>)
      requires Valid() && |a| == |b| == |keys| && HivePath(a) == HivePath(b)
      ensures Rendered(a) == Rendered(b)
    {
      DirectoryIsInjective(keys, Rendered(a), Rendered(b));
    }

    /** A row the copy accepts is registered as a partition whose typed values are the row's. */
    lemma RoutedRowIsTyped(partitions: seq<Registered>, row: seq<Value>)
      requires Planned(partitions) && IsRow(row) && Route(partitions, row).WriteTo?
      ensures var relative := Route(partitions, row).relative;
              && Finalized(partitions, relative).Some? && Typed(Finalized(partitions, relative).value) == Some(row)
              && Trimmed(location + "/" + relative) == location + "/" + relative
    {
      hide ComparableLocation, RelativePartitionPath, HivePath, Typed, Finalized, Cases, Customs, Rendered, RefusedRow;
      var relative := Route(partitions, row).relative;
      FirstCaseIs(Cases(partitions), row);
      if FirstCase(Cases(partitions), row).Some? {
        CasesAre(partitions, Case(row, WriteTo(relative)));
        var k :| 0 <= k < |partitions| && CaseOf(partitions[k]) == Some(Case(row, WriteTo(relative)));
        FinalizedExisting(partitions, k, row, relative);
        assert Typed(partitions[k].values) == Some(row);
      } else {
        FinalizedNew(partitions, row);
        RowReadsBack(row);
        HivePathSplits(row);
        PlainIsTrimmed(location, HivePath(row));
      }
    }

    /** The main result of routing: a row the copy accepts is written where it is registered, as a partition whose typed
        values are the row's. */
    lemma RoutedRowIsRegistered(partitions: seq<Registered>, row: seq<Value>)
      requires Writable(partitions) && IsRow(row) && Route(partitions, row).WriteTo?
      ensures var relative := Route(partitions, row).relative;
              && Finalized(partitions, relative).Some?
              && WellWritten(partitions, row, relative, Finalized(partitions, relative).value)
    {
      hide ComparableLocation, RelativePartitionPath, HivePath, Typed, Finalized, Cases, Customs, Rendered, RefusedRow;
      var relative := Route(partitions, row).relative;
      FirstCaseIs(Cases(partitions), row);
      if FirstCase(Cases(partitions), row).Some? {
        CasesAre(partitions, Case(row, WriteTo(relative)));
        var k :| 0 <= k < |partitions| && CaseOf(partitions[k]) == Some(Case(row, WriteTo(relative)));
        FinalizedExisting(partitions, k, row, relative);
        assert Typed(partitions[k].values) == Some(row);
      } else {
        FinalizedNew(partitions, row);
        RowReadsBack(row);
        HivePathSplits(row);
        PlainIsTrimmed(location, HivePath(row));
        forall k | 0 <= k < |partitions|
          ensures partitions[k].values == Rendered(row) <==>
                  ComparableLocation(partitions[k].location) == ComparableLocation(location + "/" + HivePath(row))
        {
          DefaultIsFree(partitions, row, k);
        }
      }
    }
  }
}
