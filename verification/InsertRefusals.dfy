/** Which rows an INSERT refuses and where it sends the others, said of the partitions and their locations. */
module InsertRefusals {
  import opened Outcomes
  import opened Text
  import opened PartitionValues
  import opened Locations
  import opened InsertRouting

  /** The partition is where the default layout has its values, with values as the layout spells them and with the
      table's column types. */
  predicate Plain(target: Target, p: Registered, row: seq<Value>)
    requires |row| == |target.keys|
  {
    !p.mismatch && p.values == target.Rendered(row) &&
    ComparableLocation(p.location) == ComparableLocation(target.location + "/" + target.HivePath(row))
  }

  /** The location is the directory below the table's, with no empty component and no dot in it. */
  predicate IsAt(target: Target, p: Registered, directory: string) {
    ComparableLocation(p.location) == ComparableLocation(target.location) + "/" + directory &&
    forall c | c in Pieces(directory, '/') :: c != "" && c != "."
  }

  lemma RestIsThere(target: Target, p: Registered, rest: string)
    requires target.Valid() && ComparableLocation(p.location) == ComparableLocation(target.location) + "/" + rest
    ensures rest != "" && rest[|rest| - 1] != '/' && Split(rest, '/') == Pieces(rest, '/') && Join(Split(rest, '/'), '/') == rest
  {
    hide TrimEnd, NormalScheme, Pieces, Join, Split;
    var there := ComparableLocation(p.location);
    Target.ComparableTwice(p.location);
    assert there[|there| - 1] == if rest == "" then '/' else rest[|rest| - 1];
    Target.PlainSplit(rest);
  }

  lemma RelativeExactlyWhen(target: Target, p: Registered, rest: string)
    requires target.Valid()
    ensures !Below(ComparableLocation(p.location), ComparableLocation(target.location)) ==>
              target.RelativePartitionPath(p.location) == ("", true)
    ensures ComparableLocation(p.location) == ComparableLocation(target.location) + "/" + rest ==>
              (target.RelativePartitionPath(p.location).1 <==> IsAt(target, p, rest)) &&
              (IsAt(target, p, rest) ==> target.RelativePartitionPath(p.location) == (rest, true))
  {
    hide ComparableLocation, Pieces, Join, Split, WritableComponents;
    var prefix, there := ComparableLocation(target.location) + "/", ComparableLocation(p.location);
    if there == prefix + rest {
      RestIsThere(target, p, rest);
      assert there[..|prefix|] == prefix && there[|prefix|..] == rest;
      var parts := Split(rest, '/');
      Target.AllWritable(parts);
      assert (forall k | 0 <= k < |parts| :: !IsDot(parts[k])) <==> forall c | c in parts :: !IsDot(c);
    }
  }

  /** The rest of a location below the table's. */
  lemma BelowHasRest(target: Target, p: Registered) returns (rest: string)
    requires Below(ComparableLocation(p.location), ComparableLocation(target.location))
    ensures ComparableLocation(p.location) == ComparableLocation(target.location) + "/" + rest
  {
    hide ComparableLocation;
    var prefix, there := ComparableLocation(target.location) + "/", ComparableLocation(p.location);
    rest := there[|prefix|..];
    assert there == prefix + rest;
  }

  /** What is done with a partition's rows: those of one in the default layout go there; any others go to the
      partition's own directory below the table's, unless it has other column types or no such directory. */
  lemma CaseExactlyWhen(target: Target, p: Registered, directory: string)
    requires target.Valid() && target.Typed(p.values).Some?
    ensures var row := target.Typed(p.values).value;
            && (target.CaseOf(p) == None <==> Plain(target, p, row))
            && (target.CaseOf(p) == Some(Case(row, WriteTo(directory))) <==>
                !Plain(target, p, row) && !p.mismatch && IsAt(target, p, directory))
            && (target.CaseOf(p) == Some(Case(row, NotBelow)) <==>
                !p.mismatch && !Below(ComparableLocation(p.location), ComparableLocation(target.location)))
            && (target.CaseOf(p).Some? ==> target.CaseOf(p).value.row == row)
  {
    hide ComparableLocation, Target.Typed, Target.HivePath, Target.RelativePartitionPath, Target.Rendered, IsAt, Below;
    var row := target.Typed(p.values).value;
    PlainByPath(target, p, row);
    RelativeExactlyWhen(target, p, directory);
    AtIsBelow(target, p, directory);
    if Below(ComparableLocation(p.location), ComparableLocation(target.location)) {
      var rest := BelowHasRest(target, p);
      RestIsThere(target, p, rest);
      RelativeExactlyWhen(target, p, rest);
      SameRest(target, p, directory, rest);
    } else {
      HiveIsBelow(target, p, row);
    }
  }

  lemma PlainByPath(target: Target, p: Registered, row: seq<Value>)
    requires target.Valid() && |row| == |target.keys|
    ensures ComparableLocation(p.location) == ComparableLocation(target.location + "/" + target.HivePath(row)) <==>
            target.RelativePartitionPath(p.location) == (target.HivePath(row), true)
    ensures target.HivePath(row) != ""
  {
    hide ComparableLocation, Target.HivePath, Target.RelativePartitionPath;
    target.HivePathSplits(row);
    if ComparableLocation(p.location) == ComparableLocation(target.location + "/" + target.HivePath(row)) {
      target.HivePathIsRelative(row, p.location);
    }
    if target.RelativePartitionPath(p.location) == (target.HivePath(row), true) {
      target.DefaultIsThere(row, p.location);
    }
  }

  lemma HiveIsBelow(target: Target, p: Registered, row: seq<Value>)
    requires target.Valid() && |row| == |target.keys|
    requires !Below(ComparableLocation(p.location), ComparableLocation(target.location))
    ensures ComparableLocation(p.location) != ComparableLocation(target.location + "/" + target.HivePath(row))
  {
    hide ComparableLocation, Target.HivePath, Target.RelativePartitionPath;
    target.HivePathSplits(row);
    PlainByPath(target, p, row);
    RelativeExactlyWhen(target, p, "");
  }

  lemma AtIsBelow(target: Target, p: Registered, directory: string)
    ensures IsAt(target, p, directory) ==> Below(ComparableLocation(p.location), ComparableLocation(target.location))
  {
    hide ComparableLocation;
    var prefix := ComparableLocation(target.location) + "/";
    assert (prefix + directory)[..|prefix|] == prefix;
  }

  lemma SameRest(target: Target, p: Registered, directory: string, rest: string)
    requires ComparableLocation(p.location) == ComparableLocation(target.location) + "/" + rest
    ensures IsAt(target, p, directory) ==> directory == rest
  {
    hide ComparableLocation;
    var prefix, there := ComparableLocation(target.location) + "/", ComparableLocation(p.location);
    assert there[|prefix|..] == rest;
    if IsAt(target, p, directory) {
      assert (prefix + directory)[|prefix|..] == directory;
    }
  }

  /** The first partition of the row's values that is not in the default layout. */
  ghost predicate FirstOfRow(target: Target, partitions: seq<Registered>, row: seq<Value>, k: nat)
    requires |target.keys| == |target.types| == |row|
  {
    && k < |partitions| && OfRow(target, partitions[k], row)
    && forall j | 0 <= j < k :: !OfRow(target, partitions[j], row)
  }

  predicate OfRow(target: Target, p: Registered, row: seq<Value>)
    requires |target.keys| == |target.types| == |row|
  {
    target.Typed(p.values) == Some(row) && !Plain(target, p, row)
  }

  /** A partition registered at the row's default directory, as something else than the default layout has there. */
  ghost predicate Takes(target: Target, p: Registered, row: seq<Value>)
    requires |target.keys| == |target.types| == |row|
  {
    && !p.mismatch && ComparableLocation(p.location) == ComparableLocation(target.location + "/" + target.HivePath(row))
    && target.Typed(p.values).Some? && !Plain(target, p, target.Typed(p.values).value)
  }

  lemma {:induction false} FirstCaseFound(target: Target, partitions: seq<Registered>, row: seq<Value>)
    requires target.Valid() && |row| == |target.keys| && target.AllReadable(partitions)
    ensures Target.FirstCase(target.Cases(partitions), row).None? <==> forall k | 0 <= k < |partitions| :: !OfRow(target, partitions[k], row)
    ensures forall k: nat | FirstOfRow(target, partitions, row, k) :: target.CaseOf(partitions[k]).Some? &&
              Target.FirstCase(target.Cases(partitions), row) == Some(target.CaseOf(partitions[k]).value.result)
  {
    hide Target.CaseOf, Target.Typed, Plain;
    if partitions != [] {
      var n := |partitions| - 1;
      var front, last := partitions[..n], partitions[n];
      assert forall k | 0 <= k < n :: front[k] == partitions[k];
      FirstCaseFound(target, front, row);
      CaseExactlyWhen(target, last, "");
      var more := match target.CaseOf(last) case None => [] case Some(c) => [c];
      FirstCaseOfBoth(target.Cases(front), more, row);
      forall k: nat | FirstOfRow(target, partitions, row, k)
        ensures target.CaseOf(partitions[k]).Some? &&
                Target.FirstCase(target.Cases(partitions), row) == Some(target.CaseOf(partitions[k]).value.result)
      {
        if k < n {
          assert FirstOfRow(target, front, row, k);
        }
      }
    }
  }

  lemma {:induction false} FirstCaseOfBoth(a: seq<Case>, b: seq<Case>, row: seq<Value>)
    ensures Target.FirstCase(a + b, row) ==
            match Target.FirstCase(a, row) case Some(result) => Some(result) case None => Target.FirstCase(b, row)
  {
    if a == [] {
      assert a + b == b;
    } else {
      assert (a + b)[1..] == a[1..] + b;
      FirstCaseOfBoth(a[1..], b, row);
    }
  }

  lemma CustomExactlyWhen(target: Target, partitions: seq<Registered>, row: seq<Value>)
    requires target.Valid() && |row| == |target.keys| && target.AllReadable(partitions)
    ensures Target.IsCustom(target.Customs(partitions), target.HivePath(row)) <==>
            exists k :: 0 <= k < |partitions| && Takes(target, partitions[k], row)
  {
    hide Target.CaseOf, Target.Typed, Target.HivePath, Plain, ComparableLocation, Target.RelativePartitionPath;
    var path, customs := target.HivePath(row), target.Customs(partitions);
    forall k | 0 <= k < |partitions|
      ensures Takes(target, partitions[k], row) <==> Custom(path, partitions[k].values) in target.CustomOf(partitions[k])
    {
      CaseExactlyWhen(target, partitions[k], path);
      HiveIsAt(target, partitions[k], row);
    }
    if m :| 0 <= m < |customs| && customs[m].relative == path {
      target.CustomsAre(partitions, customs[m]);
    }
    forall k | 0 <= k < |partitions|
      ensures Custom(path, partitions[k].values) in target.CustomOf(partitions[k]) ==> Custom(path, partitions[k].values) in customs
    {
      target.CustomsAre(partitions, Custom(path, partitions[k].values));
    }
  }

  lemma HiveIsAt(target: Target, p: Registered, row: seq<Value>)
    requires target.Valid() && |row| == |target.keys|
    ensures IsAt(target, p, target.HivePath(row)) <==>
            ComparableLocation(p.location) == ComparableLocation(target.location + "/" + target.HivePath(row))
  {
    hide ComparableLocation, Target.HivePath, Target.RelativePartitionPath, IsAt;
    target.HivePathSplits(row);
    target.HivePathLocation(row);
    PlainByPath(target, p, row);
    RelativeExactlyWhen(target, p, target.HivePath(row));
    AtIsThere(target, p, target.HivePath(row));
  }

  lemma AtIsThere(target: Target, p: Registered, directory: string)
    ensures IsAt(target, p, directory) ==> ComparableLocation(p.location) == ComparableLocation(target.location) + "/" + directory
  {
  }

  /** The main result: what an INSERT does with a row. It refuses one that would read back as NULL; it sends those of the
      first partition that has the row's values, in another place or another spelling than the default layout, to that
      partition's directory below the table's, refusing them when it has other column types or no such directory; and
      any other row to its default directory, unless another partition is there. */
  lemma RoutedExactlyWhen(target: Target, partitions: seq<Registered>, row: seq<Value>)
    requires target.Valid() && target.AllReadable(partitions) && target.IsRow(row)
    ensures target.RefusedRow(row) ==> target.Route(partitions, row) == Refuse
    ensures !target.RefusedRow(row) ==> forall k: nat, directory: string | FirstOfRow(target, partitions, row, k) ::
              (target.Route(partitions, row) == WriteTo(directory) <==>
               !partitions[k].mismatch && IsAt(target, partitions[k], directory))
    ensures !target.RefusedRow(row) ==> forall k: nat | FirstOfRow(target, partitions, row, k) ::
              (target.Route(partitions, row) == NotBelow <==>
               !partitions[k].mismatch && !Below(ComparableLocation(partitions[k].location), ComparableLocation(target.location)))
    ensures !target.RefusedRow(row) && (forall k | 0 <= k < |partitions| :: !OfRow(target, partitions[k], row)) ==>
              target.Route(partitions, row) ==
              if exists k :: 0 <= k < |partitions| && Takes(target, partitions[k], row) then Refuse else WriteTo(target.HivePath(row))
  {
    hide Target.CaseOf, Target.Typed, Target.HivePath, Target.RefusedRow, Plain, ComparableLocation, Target.Customs, Target.Cases,
      IsAt, OfRow, Takes, Below, Target.IsCustom;
    FirstCaseFound(target, partitions, row);
    CustomExactlyWhen(target, partitions, row);
    if !target.RefusedRow(row) {
      forall k: nat, directory: string | FirstOfRow(target, partitions, row, k)
        ensures target.Route(partitions, row) == WriteTo(directory) <==>
                !partitions[k].mismatch && IsAt(target, partitions[k], directory)
      {
        RoutedAs(target, partitions, row, k);
        CaseExactlyWhen(target, partitions[k], directory);
      }
      forall k: nat | FirstOfRow(target, partitions, row, k)
        ensures target.Route(partitions, row) == NotBelow <==>
                !partitions[k].mismatch && !Below(ComparableLocation(partitions[k].location), ComparableLocation(target.location))
      {
        RoutedAs(target, partitions, row, k);
        CaseExactlyWhen(target, partitions[k], "");
      }
    }
  }

  lemma RoutedAs(target: Target, partitions: seq<Registered>, row: seq<Value>, k: nat)
    requires target.Valid() && target.AllReadable(partitions) && target.IsRow(row)
    requires !target.RefusedRow(row) && FirstOfRow(target, partitions, row, k)
    ensures target.Typed(partitions[k].values) == Some(row) && target.CaseOf(partitions[k]).Some?
    ensures target.Route(partitions, row) == target.CaseOf(partitions[k]).value.result
  {
    hide Target.CaseOf, Target.Typed, Target.HivePath, Target.RefusedRow, Plain, Target.Cases, Target.Customs;
    FirstCaseFound(target, partitions, row);
  }
}
