/** What listing a Hive table's partitions means: which stored objects are data files, which partition each belongs to,
    and when a table is refused. */
module ListingSpec {
  import opened Outcomes
  import opened Text
  import opened Locations

  /** A registered partition. storageMismatch: its own InputFormat and SerDe do not read like the table's. */
  datatype Partition = Partition(values: seq<string>, location: string, storageMismatch: bool)

  /** A stored object under its canonical name; not every file system reports a size. */
  datatype Object = Object(key: string, size: Option<nat>)

  /** A listed file, named in the spelling of the directory that was listed. */
  datatype File = File(path: string, size: Option<nat>)

  predicate Hidden(component: string) {
    component == "" || component[0] == '_' || component[0] == '.'
  }

  predicate Visible(relative: string) {
    var components := Split(relative, '/');
    components != [] && (forall c :: c in components ==> !Hidden(c)) &&
    !EndsWith(components[|components| - 1], "_$folder$")
  }

  predicate HoldsRows(size: Option<nat>) {
    size.None? || size.value > 0
  }

  predicate IsDataFile(file: File, prefix: string) {
    StartsWith(file.path, prefix) && Visible(file.path[|prefix|..]) && HoldsRows(file.size)
  }

  /** The object is a data file as seen from a directory. */
  predicate Data(directory: string, o: Object) {
    Below(o.key, directory) && Visible(o.key[|directory| + 1..]) && HoldsRows(o.size)
  }

  /** A recursive listing: every object below the directory, in the directory's spelling. */
  function ListDirectory(objects: seq<Object>, directory: string): seq<File> {
    if objects == [] then []
    else
      var o := objects[0];
      var name := NormalScheme(directory);
      (if Below(o.key, name) then [File(directory + o.key[|name|..], o.size)] else []) +
      ListDirectory(objects[1..], directory)
  }

  predicate Canonical(objects: seq<Object>) {
    forall o :: o in objects ==> NormalScheme(o.key) == o.key
  }

  /** The locations of the partitions in one spelling each: what they are compared by. */
  function Locs(ps: seq<Partition>): (r: seq<string>)
    ensures |r| == |ps|
    ensures forall i | 0 <= i < |ps| :: r[i] == ComparableLocation(ps[i].location)
  {
    seq(|ps|, i requires 0 <= i < |ps| => ComparableLocation(ps[i].location))
  }

  /** The same as they are spelled. */
  function Spelled(ps: seq<Partition>): (r: seq<string>)
    ensures |r| == |ps|
    ensures forall i | 0 <= i < |ps| :: r[i] == Trimmed(ps[i].location)
  {
    seq(|ps|, i requires 0 <= i < |ps| => Trimmed(ps[i].location))
  }

  /** Partition i is registered at a location above the (comparable) path. */
  predicate Holds(locs: seq<string>, i: nat, path: string) {
    i < |locs| && locs[i] != "" && Below(path, locs[i])
  }

  /** ... and no location registered above the path is deeper. */
  predicate Owns(locs: seq<string>, i: nat, path: string) {
    Holds(locs, i, path) && forall j | 0 <= j < |locs| :: Holds(locs, j, path) ==> |locs[j]| <= |locs[i]|
  }

  predicate Shared(locs: seq<string>, i: nat)
    requires i < |locs|
  {
    exists k | 0 <= k < |locs| :: k != i && locs[k] == locs[i]
  }

  predicate First(locs: seq<string>, i: nat)
    requires i < |locs|
  {
    forall k | 0 <= k < i :: locs[k] != locs[i]
  }

  predicate Indexes(locs: seq<string>, read: seq<nat>) {
    forall k | 0 <= k < |read| :: read[k] < |locs|
  }

  /** The partitions a scan can not read: with other than one value per key, or stored differently from the table. */
  function Malformed(ps: seq<Partition>, keyCount: nat): (r: set<nat>)
    ensures forall i | 0 <= i < |ps| :: i in r <==> |ps[i].values| != keyCount || ps[i].storageMismatch
  {
    set i | 0 <= i < |ps| && (|ps[i].values| != keyCount || ps[i].storageMismatch) :: i as nat
  }

  /** Each object belongs to the deepest registered location above it; the pairs read are those of the partitions
      read. */
  function Found(locs: seq<string>, objects: seq<Object>, read: seq<nat>): set<(string, nat)>
    requires Indexes(locs, read)
  {
    set i, o | i in read && o in objects && Owns(locs, i, ComparableLocation(o.key)) && Data(locs[i], o) :: (o.key, i)
  }

  /** A partition read would read data files that another partition is registered at too. */
  predicate ReadsShared(locs: seq<string>, objects: seq<Object>, read: seq<nat>)
    requires Indexes(locs, read)
  {
    exists i, o :: i in read && o in objects && Owns(locs, i, ComparableLocation(o.key)) && Data(locs[i], o) && Shared(locs, i)
  }

  /** The same two as one listing of the table root sees them. */
  function RootFound(locs: seq<string>, root: string, objects: seq<Object>, read: seq<nat>): set<(string, nat)>
    requires Indexes(locs, read)
  {
    set i, o | i in read && o in objects && Owns(locs, i, ComparableLocation(o.key)) && Data(root, o) :: (o.key, i)
  }

  predicate RootReadsShared(locs: seq<string>, root: string, objects: seq<Object>, read: seq<nat>)
    requires Indexes(locs, read)
  {
    exists i, o :: i in read && o in objects && Owns(locs, i, ComparableLocation(o.key)) && Data(root, o) && Shared(locs, i)
  }

  /** No component of the location below the root is one a listing of the root skips. */
  predicate NoHiddenBelow(location: string, root: string)
    requires Below(location, root)
  {
    forall c :: c in Pieces(location[|root| + 1..], '/') ==> !Hidden(c)
  }

  lemma OwnersShareLocation(locs: seq<string>, i: nat, j: nat, path: string)
    requires Owns(locs, i, path) && Owns(locs, j, path)
    ensures locs[i] == locs[j]
  {
    assert path[..|locs[i]| + 1] == locs[i] + "/";
    assert path[..|locs[j]| + 1] == locs[j] + "/";
    assert path[..|locs[i]|] == locs[i] && path[..|locs[j]|] == locs[j];
  }

  lemma ComparableOfKey(key: string)
    requires NormalScheme(key) == key
    ensures ComparableLocation(key) == Trimmed(key)
  {
    var t := Trimmed(key);
    assert t == key[..|t|];
    if HasS3Scheme(t) || HasHadoopScheme(t) {
      SchemeOfExtension(t, key[|t|..]);
      assert t + key[|t|..] == key;
      assert key[..5] == "s3://" && t[..5] == key[..5];
    }
  }

  lemma LastDropped(left: seq<string>, right: seq<string>)
    requires right != []
    ensures (left + right)[|left + right| - 1] == right[|right| - 1]
    ensures (left + right)[..|left + right| - 1] == left + right[..|right| - 1]
  {
  }

  lemma OnePiece(b: string)
    ensures |Pieces(b, '/')| == 1 ==> Pieces(b, '/')[0] == b
  {
    hide Pieces;
    JoinOfPieces(b, '/');
  }

  lemma SplitThrough(a: string, b: string)
    requires b != ""
    ensures Split(b, '/') != []
    ensures Split(a + "/" + b, '/') == Pieces(a, '/') + Split(b, '/')
  {
    hide Pieces;
    assert a + "/" + b == a + ['/'] + b;
    PiecesOfConcat(a, '/', b);
    OnePiece(b);
    LastDropped(Pieces(a, '/'), Pieces(b, '/'));
  }

  /** Visibility below a directory whose own components are visible. */
  lemma VisibleThrough(a: string, b: string)
    requires b != "" && forall c :: c in Pieces(a, '/') ==> !Hidden(c)
    ensures Visible(a + "/" + b) <==> Visible(b)
  {
    hide Pieces, Split;
    SplitThrough(a, b);
    var left, right := Pieces(a, '/'), Split(b, '/');
    var whole := left + right;
    assert whole[|whole| - 1] == right[|right| - 1];
    assert forall c :: c in whole <==> c in left || c in right;
  }

  lemma VisibleImpliesNoHidden(a: string, b: string)
    requires b != "" && Visible(a + "/" + b)
    ensures forall c :: c in Pieces(a, '/') ==> !Hidden(c)
  {
    SplitThrough(a, b);
    assert forall c :: c in Pieces(a, '/') ==> c in Pieces(a, '/') + Split(b, '/');
  }

  lemma KeyBelow(key: string, loc: string, root: string)
    requires Below(Trimmed(key), loc) && Below(loc, root)
    ensures Below(key, loc) && Below(key, root) && key[|loc| + 1..] != ""
    ensures key[|root| + 1..] == loc[|root| + 1..] + "/" + key[|loc| + 1..]
  {
    var t := Trimmed(key);
    assert t == key[..|t|];
    assert t[..|loc| + 1] == loc + "/" == key[..|loc| + 1];
    assert (loc + "/")[|loc|] == '/' == t[|loc|];
    assert key[..|root| + 1] == loc[..|root| + 1] == root + "/";
    assert key[|root| + 1..] == loc[|root| + 1..] + "/" + key[|loc| + 1..];
  }

  /** What a partition's own listing and the root's listing say of an object the partition owns: they agree exactly when
      no component of the location below the root is hidden, and the root never sees more. */
  lemma DataThrough(locs: seq<string>, i: nat, root: string, o: Object)
    requires Owns(locs, i, ComparableLocation(o.key)) && Below(locs[i], root)
    requires NormalScheme(o.key) == o.key
    ensures Data(root, o) <==> Data(locs[i], o) && NoHiddenBelow(locs[i], root)
  {
    hide Pieces, Split, Visible, Trimmed, NormalScheme;
    var loc, key := locs[i], o.key;
    ComparableOfKey(key);
    KeyBelow(key, loc, root);
    var a, b := loc[|root| + 1..], key[|loc| + 1..];
    if NoHiddenBelow(loc, root) {
      VisibleThrough(a, b);
    } else if Visible(a + "/" + b) {
      VisibleImpliesNoHidden(a, b);
    }
  }

  function ListedAs(o: Object, directory: string): File
    requires Below(o.key, NormalScheme(directory))
  {
    File(directory + o.key[|NormalScheme(directory)|..], o.size)
  }

  /** f is o as a listing of the directory names it. */
  ghost predicate IsListedAs(o: Object, directory: string, f: File) {
    && Below(o.key, NormalScheme(directory)) && f == ListedAs(o, directory)
    && NormalScheme(f.path) == o.key && ComparableLocation(f.path) == ComparableLocation(o.key)
    && (IsDataFile(f, directory + "/") <==> Data(NormalScheme(directory), o))
  }

  lemma ListedPath(directory: string, name: string, key: string)
    requires Below(key, name)
    ensures key == name + key[|name|..] && StartsWith(key, name)
    ensures var path := directory + key[|name|..];
            StartsWith(path, directory + "/") && path[|directory| + 1..] == key[|name| + 1..]
  {
    assert key[..|name|] == (name + "/")[..|name|] == name;
    assert key[|name|] == (name + "/")[|name|] == '/';
    var path := directory + key[|name|..];
    assert path[..|directory| + 1] == directory + "/";
    assert path[|directory| + 1..] == key[|name| + 1..];
  }

  lemma ListedAsObject(o: Object, directory: string)
    requires Trimmed(directory) == directory && NormalScheme(o.key) == o.key
    requires Below(o.key, NormalScheme(directory))
    ensures IsListedAs(o, directory, ListedAs(o, directory))
  {
    hide NormalScheme, ComparableLocation, Trimmed, Visible;
    ListedPath(directory, NormalScheme(directory), o.key);
    KeyOfListedPath(directory, o.key);
    ComparableOfChild(directory, o.key[|NormalScheme(directory)|..]);
  }

  // Which listed files are data files, in characters.

  lemma SplitOfJoin(components: seq<string>)
    requires components != [] && forall c | c in components :: '/' !in c
    ensures Split(Join(components, '/'), '/') ==
            if components[|components| - 1] == "" then components[..|components| - 1] else components
  {
    hide Pieces, Join;
    PiecesOfJoin(components, '/');
  }

  /** Of the files below the prefix those hold rows that are not in a directory, and have no name, that is empty or
      starts with an underscore or a dot, are no directory's marker, and are not known to be empty. */
  lemma DataFileExactlyWhen(prefix: string, components: seq<string>, size: Option<nat>)
    requires components != [] && (forall c | c in components :: '/' !in c) && components[|components| - 1] != ""
    ensures var last := components[|components| - 1];
            IsDataFile(File(prefix + Join(components, '/'), size), prefix) <==>
            && (forall c | c in components :: c != "" && c[0] != '_' && c[0] != '.')
            && (|last| < 9 || last[|last| - 9..] != "_$folder$")
            && (size == None || size.value > 0)
  {
    hide Split, Pieces, Join;
    SplitOfJoin(components);
    var path := prefix + Join(components, '/');
    assert path[..|prefix|] == prefix && path[|prefix|..] == Join(components, '/');
  }

  /** A slash at the end is not looked at: the file is seen as the directory it marks. */
  lemma SlashAtTheEnd(prefix: string, path: string, size: Option<nat>)
    requires path != "" && path[|path| - 1] != '/'
    ensures IsDataFile(File(prefix + (path + "/"), size), prefix) <==> IsDataFile(File(prefix + path, size), prefix)
  {
    hide Pieces;
    var marked := path + "/";
    assert marked == path + ['/'] + "";
    PiecesOfConcat(path, '/', "");
    PiecesOfOne("", '/');
    LastPiece(path);
    var pieces := Pieces(path, '/');
    assert (pieces + [""])[..|pieces|] == pieces;
    assert (prefix + marked)[..|prefix|] == prefix && (prefix + marked)[|prefix|..] == marked;
    assert (prefix + path)[..|prefix|] == prefix && (prefix + path)[|prefix|..] == path;
  }

  /** The last piece is empty only after a slash at the end. */
  lemma {:induction false} LastPiece(path: string)
    requires path != "" && path[|path| - 1] != '/'
    ensures var pieces := Pieces(path, '/'); pieces[|pieces| - 1] != ""
  {
    if |path| > 1 {
      LastPiece(path[1..]);
    } else {
      PiecesOfOne(path, '/');
    }
  }

  /** Neither the directory itself nor anything outside it. */
  lemma NoDataFile(file: File, prefix: string)
    requires file.path == prefix || |file.path| < |prefix| || file.path[..|prefix|] != prefix
    ensures !IsDataFile(file, prefix)
  {
    assert Pieces("", '/') == [""];
  }

  lemma DataOfFile(directory: string, o: Object)
    ensures Data(directory, o) <==> IsDataFile(File(o.key, o.size), directory + "/")
  {
  }

  /** A name that starts with neither an underscore nor a dot and marks no directory is seen. */
  lemma VisibleName(name: string)
    requires name != "" && '/' !in name
    ensures Visible(name) <==> name[0] != '_' && name[0] != '.' && (|name| < 9 || name[|name| - 9..] != "_$folder$")
  {
    hide Split, Pieces;
    DataFileExactlyWhen("", [name], None);
    assert "" + Join([name], '/') == name && name[|""|..] == name;
  }

  /** The same for what a scan finds: an object of n bytes below a partition it belongs to. */
  lemma ObjectIsFoundExactlyWhen(locs: seq<string>, objects: seq<Object>, read: seq<nat>, i: nat, components: seq<string>, n: nat)
    requires Indexes(locs, read) && i < |locs|
    requires components != [] && (forall c | c in components :: '/' !in c) && components[|components| - 1] != ""
    requires var o := Object(locs[i] + "/" + Join(components, '/'), Some(n));
             o in objects && forall other | other in objects && other.key == o.key :: other == o
    ensures var key, last := locs[i] + "/" + Join(components, '/'), components[|components| - 1];
            (key, i) in Found(locs, objects, read) <==>
            && i in read && Owns(locs, i, ComparableLocation(key))
            && (forall c | c in components :: c != "" && c[0] != '_' && c[0] != '.')
            && (|last| < 9 || last[|last| - 9..] != "_$folder$") && n > 0
  {
    hide Owns, ComparableLocation, IsDataFile, Data, Join;
    var o := Object(locs[i] + "/" + Join(components, '/'), Some(n));
    assert o.key == (locs[i] + "/") + Join(components, '/');
    DataOfFile(locs[i], o);
    DataFileExactlyWhen(locs[i] + "/", components, Some(n));
  }
}
