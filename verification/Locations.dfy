/** Locations of tables and partitions, and the default directory of a partition. */
module Locations {
  import opened Outcomes
  import opened Text
  import opened Escaping
  import opened PartitionValues

  /** s3a:// or s3n://, in any case. */
  predicate HasHadoopScheme(s: string) {
    |s| >= 6 && LowerChar(s[0]) == 's' && s[1] == '3' && LowerChar(s[2]) in {'a', 'n'} &&
    s[3] == ':' && s[4] == '/' && s[5] == '/'
  }

  /** s3://, in any case. */
  predicate HasS3Scheme(s: string) {
    |s| >= 5 && LowerChar(s[0]) == 's' && s[1] == '3' && s[2] == ':' && s[3] == '/' && s[4] == '/'
  }

  /** One spelling of the scheme for the same bucket. */
  function NormalScheme(s: string): string {
    if HasHadoopScheme(s) then "s3://" + s[6..]
    else if HasS3Scheme(s) then "s3://" + s[5..]
    else s
  }

  function Trimmed(location: string): string {
    TrimEnd(location, '/')
  }

  function ComparableLocation(location: string): string {
    NormalScheme(Trimmed(location))
  }

  predicate Below(key: string, directory: string) {
    StartsWith(key, directory + "/")
  }

  predicate LocationsOverlap(a: string, b: string) {
    a == b || Below(a, b) || Below(b, a)
  }

  lemma TrimmedOfChild(d: string, r: string)
    requires Trimmed(d) == d
    ensures Trimmed(d + r) == d + Trimmed(r)
    decreases |r|
  {
    if r == "" {
      assert d + r == d;
    } else if r[|r| - 1] == '/' {
      assert (d + r)[..|d + r| - 1] == d + r[..|r| - 1];
      TrimmedOfChild(d, r[..|r| - 1]);
    }
  }

  lemma NormalSchemeKeepsLast(d: string)
    requires Trimmed(d) == d
    ensures Trimmed(NormalScheme(d)) == NormalScheme(d)
    ensures d != "" ==> NormalScheme(d) != ""
  {
    if HasHadoopScheme(d) {
      assert |d| > 6;
    } else if HasS3Scheme(d) {
      assert |d| > 5;
    }
  }

  lemma SchemeOfExtension(d: string, r: string)
    requires HasHadoopScheme(d) || HasS3Scheme(d)
    ensures HasHadoopScheme(d + r) == HasHadoopScheme(d)
    ensures HasS3Scheme(d + r) == HasS3Scheme(d)
  {
    var s := d + r;
    assert s[0] == d[0] && s[1] == d[1] && s[2] == d[2] && s[3] == d[3] && s[4] == d[4];
    assert |d| > 5 ==> s[5] == d[5];
  }

  lemma NormalSchemeOfExtension(d: string, r: string)
    requires HasHadoopScheme(d) || HasS3Scheme(d)
    ensures NormalScheme(d + r) == NormalScheme(d) + r
  {
    SchemeOfExtension(d, r);
    var n := if HasHadoopScheme(d) then 6 else 5;
    assert (d + r)[n..] == d[n..] + r;
    assert "s3://" + (d[n..] + r) == ("s3://" + d[n..]) + r;
  }

  lemma SchemeReplaced(d: string) returns (rest: string)
    requires HasHadoopScheme(d) || HasS3Scheme(d)
    ensures NormalScheme(d) == "s3://" + rest
  {
    rest := d[if HasHadoopScheme(d) then 6 else 5..];
  }

  lemma SchemeKept(d: string)
    requires !HasHadoopScheme(d) && !HasS3Scheme(d)
    ensures NormalScheme(d) == d
  {
  }

  lemma NormalSchemeTwice(d: string, r: string)
    ensures NormalScheme(NormalScheme(d) + r) == NormalScheme(d + r)
  {
    hide NormalScheme, HasHadoopScheme, HasS3Scheme;
    if HasHadoopScheme(d) || HasS3Scheme(d) {
      var rest := SchemeReplaced(d);
      NormalSchemeOfExtension(d, r);
      assert ("s3://" + rest) + r == "s3://" + (rest + r);
      NormalSchemeOfCanonical(rest + r);
    } else {
      SchemeKept(d);
    }
  }

  lemma NormalSchemeOfCanonical(rest: string)
    ensures NormalScheme("s3://" + rest) == "s3://" + rest
  {
    var s := "s3://" + rest;
    assert s[2] == ':' && s[5..] == rest;
    assert HasS3Scheme(s);
  }

  /** What a path below a directory is compared as does not depend on how the directory is spelled. */
  lemma ComparableOfChild(d: string, r: string)
    requires Trimmed(d) == d
    ensures ComparableLocation(d + r) == ComparableLocation(NormalScheme(d) + r)
  {
    TrimmedOfChild(d, r);
    NormalSchemeKeepsLast(d);
    TrimmedOfChild(NormalScheme(d), r);
    NormalSchemeTwice(d, Trimmed(r));
  }

  /** A stored object has one canonical name, whichever spelling of a directory above it was listed. */
  lemma KeyOfListedPath(d: string, key: string)
    requires NormalScheme(key) == key && StartsWith(key, NormalScheme(d))
    ensures NormalScheme(d + key[|NormalScheme(d)|..]) == key
  {
    var rest := key[|NormalScheme(d)|..];
    assert key == NormalScheme(d) + rest;
    NormalSchemeTwice(d, rest);
  }

  function Component(key: string, value: string): string {
    PERCENT.Encode(key) + "=" + if value == DEFAULT_PARTITION then value else PERCENT.Encode(value)
  }

  function Components(keys: seq<string>, values: seq<string>): (r: seq<string>)
    requires |keys| == |values|
    ensures |r| == |keys|
  {
    seq(|keys|, i requires 0 <= i < |keys| => Component(keys[i], values[i]))
  }

  function PartitionDirectory(keys: seq<string>, values: seq<string>): string
    requires |keys| == |values|
  {
    Join(Components(keys, values), '/')
  }

  lemma {:induction false} JoinOfAppend(parts: seq<string>, last: string, sep: char)
    ensures Join(parts + [last], sep) == if parts == [] then last else Join(parts, sep) + [sep] + last
  {
    if |parts| > 1 {
      JoinOfAppend(parts[1..], last, sep);
      assert (parts + [last])[1..] == parts[1..] + [last];
    } else if |parts| == 1 {
      assert (parts + [last])[1..] == [last];
    }
  }

  /** Builds <key>=<value>/... one key at a time. */
  method HivePartitionDirectory(keys: seq<string>, values: seq<string>) returns (result: string)
    requires |keys| == |values|
    ensures result == PartitionDirectory(keys, values)
  {
    hide Component;
    result := "";
    ghost var parts := Components(keys, values);
    for i := 0 to |keys|
      invariant result == Join(parts[..i], '/')
    {
      JoinOfAppend(parts[..i], parts[i], '/');
      assert parts[..i] + [parts[i]] == parts[..i + 1];
      var component := Component(keys[i], values[i]);
      result := if i == 0 then component else result + "/" + component;
    }
    assert parts[..|keys|] == parts;
  }

  function Unescape(s: string): string {
    match PERCENT.Decode(s)
    case Some(r) => r
    case None => s
  }

  function IndexOf(s: string, c: char): (i: int)
    ensures -1 <= i < |s|
    ensures i >= 0 ==> s[i] == c && c !in s[..i]
    ensures i < 0 ==> c !in s
  {
    if s == "" then -1
    else if s[0] == c then 0
    else
      var i := IndexOf(s[1..], c);
      assert i >= 0 ==> s[..i + 1] == [s[0]] + s[1..][..i];
      if i < 0 then -1 else i + 1
  }

  lemma {:induction false} IndexOfFirst(a: string, c: char, b: string)
    requires c !in a
    ensures IndexOf(a + [c] + b, c) == |a|
  {
    if a != "" {
      assert (a + [c] + b)[1..] == a[1..] + [c] + b;
      IndexOfFirst(a[1..], c, b);
    }
  }

  /** The value a directory component gives for a key, if it names the key. */
  function ReadComponent(component: string, key: string): Option<string> {
    var equals := IndexOf(component, '=');
    if equals < 0 || !EqualIgnoringCase(Unescape(component[..equals]), key) then None
    else Some(Unescape(component[equals + 1..]))
  }

  lemma EncodedText(s: string)
    ensures '=' !in PERCENT.Encode(s) && '/' !in PERCENT.Encode(s)
    ensures Unescape(PERCENT.Encode(s)) == s
  {
    PERCENT.EncodeUses(s, '=');
    PERCENT.EncodeUses(s, '/');
    PERCENT.DecodeOfEncode(s);
  }

  lemma EncodedDefault()
    ensures PERCENT.Encode(DEFAULT_PARTITION) == DEFAULT_PARTITION
  {
    assert forall i :: 0 <= i < |DEFAULT_PARTITION| ==> DEFAULT_PARTITION[i] in PERCENT.safe;
    PERCENT.EncodeOfSafe(DEFAULT_PARTITION);
  }

  lemma ComponentReadsBack(key: string, value: string)
    ensures ReadComponent(Component(key, value), key) == Some(value)
    ensures '/' !in Component(key, value)
    ensures Component(key, value) != "." && Component(key, value) != ""
  {
    var name, text := PERCENT.Encode(key), PERCENT.Encode(value);
    EncodedText(key);
    EncodedText(value);
    EncodedDefault();
    IndexOfFirst(name, '=', text);
    var component := Component(key, value);
    assert component == name + "=" + text;
    assert component[|name|] == '=';
    assert component[..|name|] == name && component[|name| + 1..] == text;
  }

  /** The values are recovered from the directory's components. */
  lemma DirectoryReadsBack(keys: seq<string>, values: seq<string>)
    requires |keys| == |values| > 0
    ensures Pieces(PartitionDirectory(keys, values), '/') == Components(keys, values)
    ensures forall i :: 0 <= i < |keys| ==> ReadComponent(Components(keys, values)[i], keys[i]) == Some(values[i])
    ensures forall c :: c in Components(keys, values) ==> c != "" && c != "." && '/' !in c
  {
    var parts := Components(keys, values);
    forall i | 0 <= i < |keys|
      ensures ReadComponent(parts[i], keys[i]) == Some(values[i]) && '/' !in parts[i] && parts[i] != "" && parts[i] != "."
    {
      ComponentReadsBack(keys[i], values[i]);
    }
    PiecesOfJoin(parts, '/');
  }

  /** Different values have different directories. */
  lemma DirectoryIsInjective(keys: seq<string>, a: seq<string>, b: seq<string>)
    requires |keys| == |a| == |b| > 0
    requires PartitionDirectory(keys, a) == PartitionDirectory(keys, b)
    ensures a == b
  {
    DirectoryReadsBack(keys, a);
    DirectoryReadsBack(keys, b);
    forall i | 0 <= i < |keys|
      ensures a[i] == b[i]
    {
      assert Components(keys, a)[i] == Components(keys, b)[i];
    }
  }

  // Spellings.

  /** s3://, s3a:// and s3n:// in any case name the same bucket. */
  lemma OneBucket(scheme: string, rest: string)
    requires Lower(scheme) in {"s3://", "s3a://", "s3n://"}
    ensures NormalScheme(scheme + rest) == "s3://" + rest
  {
    var s, n, low := scheme + rest, |scheme|, Lower(scheme);
    assert "s3://"[0] == 's' && "s3://"[1] == '3' && "s3://"[2] == ':' && "s3://"[3] == '/' && "s3://"[4] == '/';
    assert "s3a://"[0] == 's' && "s3a://"[1] == '3' && "s3a://"[2] == 'a' && "s3a://"[3] == ':' && "s3a://"[5] == '/';
    assert "s3n://"[0] == 's' && "s3n://"[1] == '3' && "s3n://"[2] == 'n' && "s3n://"[3] == ':' && "s3n://"[5] == '/';
    assert forall i | 0 <= i < n :: s[i] == scheme[i] && low[i] == LowerChar(scheme[i]);
    assert s[n..] == rest;
  }

  lemma HadoopScheme(s: string)
    requires HasHadoopScheme(s)
    ensures Lower(s[..6]) in {"s3a://", "s3n://"}
  {
    var c := LowerChar(s[2]);
    assert Lower(s[..6]) == "s3" + [c] + "://";
    assert "s3a://" == "s3" + ['a'] + "://" && "s3n://" == "s3" + ['n'] + "://";
  }

  /** Any other location is compared as it is spelled, up to slashes at its end. */
  lemma OtherSchemesStay(s: string)
    requires |s| < 5 || Lower(s[..5]) != "s3://"
    requires |s| < 6 || Lower(s[..6]) !in {"s3a://", "s3n://"}
    ensures NormalScheme(s) == s
  {
    if HasHadoopScheme(s) {
      HadoopScheme(s);
    }
  }

  /** A component names a key in any case, once escapes are undone, and gives it the text after its first '='. */
  lemma ComponentReads(name: string, text: string, key: string)
    requires '=' !in name
    ensures ReadComponent(name + "=" + text, key) == if Lower(Unescape(name)) == Lower(key) then Some(Unescape(text)) else None
    ensures ReadComponent(name, key) == None
  {
    hide Unescape, Lower;
    IndexOfFirst(name, '=', text);
    var component := name + "=" + text;
    assert component == name + ['='] + text && component[..|name|] == name && component[|name| + 1..] == text;
  }
}
