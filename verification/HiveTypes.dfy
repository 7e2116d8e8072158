/** Column types as Glue writes them: what a type string means, and how a type is written. */
module HiveTypes {
  import opened Outcomes
  import opened Text

  datatype HiveType =
    | Boolean | TinyInt | SmallInt | Integer | BigInt | UTinyInt | USmallInt | UInteger | Float | Double
    | Decimal(width: nat, scale: nat) | Varchar | Blob | Date | Time | Timestamp | TimestampTz | Uuid | Variant
    | List(child: HiveType) | Map(key: HiveType, value: HiveType) | Struct(fields: seq<Field>)
    | Aliased(alias: string, base: HiveType) | Other(name: string)

  datatype Field = Field(name: string, fieldType: HiveType)

  const MAX_WIDTH_DECIMAL := 38
  const MAX_INT64 := 0x7FFF_FFFF_FFFF_FFFF

  predicate IsSpace(c: char) {
    c in {' ', '\t', '\n', '\r', '\U{0B}', '\U{0C}'}
  }

  /** What is left once the leading whitespace is skipped. */
  function SkipSpace(s: string): (r: string)
    ensures |r| <= |s| && r == s[|s| - |r|..]
    ensures r != "" ==> !IsSpace(r[0])
  {
    if s != "" && IsSpace(s[0]) then SkipSpace(s[1..]) else s
  }

  /** The length of the part before the first of some characters. */
  function Until(s: string, stops: char -> bool): (n: nat)
    ensures n <= |s|
    ensures forall i | 0 <= i < n :: !stops(s[i])
    ensures n < |s| ==> stops(s[n])
  {
    if s == "" || stops(s[0]) then 0 else Until(s[1..], stops) + 1
  }

  const EndsIdentifier: char -> bool := c => c in {'<', '>', ',', ':', '(', ')'} || IsSpace(c)
  const EndsField: char -> bool := c => c in {':', '<', '>', ','}
  const EndsQuoted: char -> bool := c => c == '`'
  const EndsNumber: char -> bool := c => !IsDigit(c)

  function TrimSpace(s: string): (r: string)
    ensures |r| <= |s| && r == s[..|r|]
  {
    if s != "" && IsSpace(s[|s| - 1]) then TrimSpace(s[..|s| - 1]) else s
  }

  datatype Keyword = ArrayWord | MapWord | StructWord | DecimalWord | CharWord | TypeWord(t: HiveType) | UnknownWord

  /** Type names, folded to lower case. */
  function Classify(name: string): Keyword {
    if name == "array" then ArrayWord
    else if name == "map" then MapWord
    else if name == "struct" then StructWord
    else if name == "decimal" || name == "numeric" then DecimalWord
    else if name == "varchar" || name == "char" then CharWord
    else if name == "boolean" || name == "bool" then TypeWord(Boolean)
    else if name == "tinyint" then TypeWord(TinyInt)
    else if name == "smallint" then TypeWord(SmallInt)
    else if name == "int" || name == "integer" then TypeWord(Integer)
    else if name == "bigint" || name == "long" then TypeWord(BigInt)
    else if name == "float" || name == "real" then TypeWord(Float)
    else if name == "double" then TypeWord(Double)
    else if name == "string" then TypeWord(Varchar)
    else if name == "binary" then TypeWord(Blob)
    else if name == "date" then TypeWord(Date)
    else if name == "time" then TypeWord(Time)
    else if name == "timestamp" then TypeWord(Timestamp)
    else if name == "timestamptz" || name == "timestamp with time zone" || name == "timestamp_with_local_time_zone" then
      TypeWord(TimestampTz)
    else if name == "uuid" then TypeWord(Uuid)
    else if name == "variant" then TypeWord(Variant)
    else UnknownWord
  }

  /** Something read from the front of a string, and what is left of it; None is a malformed or unsupported type. */
  type Parsed<T> = Option<(T, string)>

  function Expect(s: string, c: char): (r: Option<string>)
    ensures r.Some? ==> |r.value| < |s|
  {
    var t := SkipSpace(s);
    if t != "" && t[0] == c then Some(t[1..]) else None
  }

  function Identifier(s: string): (r: Parsed<string>)
    ensures r.Some? ==> |r.value.1| < |s|
  {
    var t := SkipSpace(s);
    var n := Until(t, EndsIdentifier);
    if n == 0 then None else Some((t[..n], t[n..]))
  }

  /** A field's name is what stands before its ':', or what stands between backticks. */
  function FieldName(s: string): (r: Parsed<string>)
    ensures r.Some? ==> |r.value.1| <= |s|
  {
    var t := SkipSpace(s);
    if t != "" && t[0] == '`' then QuotedName(t[1..]) else PlainName(t)
  }

  function QuotedName(s: string): (r: Parsed<string>)
    ensures r.Some? ==> |r.value.1| < |s|
  {
    var n := Until(s, EndsQuoted);
    if n == |s| then None else Some((s[..n], s[n + 1..]))
  }

  function PlainName(s: string): (r: Parsed<string>)
    ensures r.Some? ==> |r.value.1| <= |s|
  {
    var n := Until(s, EndsField);
    var name := TrimSpace(s[..n]);
    if name == "" then None else Some((name, s[n..]))
  }

  function Number(s: string): (r: Parsed<nat>)
    ensures r.Some? ==> |r.value.1| < |s|
  {
    var t := SkipSpace(s);
    var n := Until(t, EndsNumber);
    if n == 0 || ParseDigits(t[..n]) > MAX_INT64 then None else Some((ParseDigits(t[..n]), t[n..]))
  }

  /** (precision), (precision, scale), or Hive's default. */
  function DecimalOf(s: string): (r: Parsed<HiveType>)
    ensures r.Some? ==> |r.value.1| <= |s|
  {
    match Expect(s, '(')
    case None => Some((Decimal(10, 0), SkipSpace(s)))
    case Some(a) =>
      match Number(a)
      case None => None
      case Some((width, b)) =>
        match Scale(b)
        case None => None
        case Some((scale, c)) =>
          match Expect(c, ')')
          case None => None
          case Some(d) =>
            if width < 1 || width > MAX_WIDTH_DECIMAL || scale > width then None else Some((Decimal(width, scale), d))
  }

  function Scale(s: string): (r: Parsed<nat>)
    ensures r.Some? ==> |r.value.1| <= |s|
  {
    match Expect(s, ',')
    case None => Some((0, SkipSpace(s)))
    case Some(a) => Number(a)
  }

  /** A length is read and not kept. */
  function LengthOf(s: string): (r: Parsed<HiveType>)
    ensures r.Some? ==> |r.value.1| <= |s|
  {
    match Expect(s, '(')
    case None => Some((Varchar, SkipSpace(s)))
    case Some(a) =>
      match Number(a)
      case None => None
      case Some((_, b)) =>
        match Expect(b, ')')
        case None => None
        case Some(c) => Some((Varchar, c))
  }

  /** The type a string starts with. Every type consumes something, so the recursion ends. */
  function TypeOf(s: string): (r: Parsed<HiveType>)
    ensures r.Some? ==> |r.value.1| < |s|
    decreases |s|, 0
  {
    match Identifier(s)
    case None => None
    case Some((name, rest)) =>
      match Classify(Lower(name))
      case UnknownWord => None
      case TypeWord(t) => Some((t, rest))
      case DecimalWord => DecimalOf(rest)
      case CharWord => LengthOf(rest)
      case ArrayWord => ListOf(rest)
      case MapWord => MapOf(rest)
      case StructWord => StructOf(rest)
  }

  function ListOf(s: string): (r: Parsed<HiveType>)
    ensures r.Some? ==> |r.value.1| < |s|
    decreases |s|, 1
  {
    match Expect(s, '<')
    case None => None
    case Some(a) =>
      match TypeOf(a)
      case None => None
      case Some((child, b)) =>
        match Expect(b, '>')
        case None => None
        case Some(c) => Some((List(child), c))
  }

  function MapOf(s: string): (r: Parsed<HiveType>)
    ensures r.Some? ==> |r.value.1| < |s|
    decreases |s|, 1
  {
    match Expect(s, '<')
    case None => None
    case Some(a) =>
      match TypeOf(a)
      case None => None
      case Some((key, b)) =>
        match Expect(b, ',')
        case None => None
        case Some(c) =>
          match TypeOf(c)
          case None => None
          case Some((value, d)) =>
            match Expect(d, '>')
            case None => None
            case Some(e) => Some((Map(key, value), e))
  }

  function StructOf(s: string): (r: Parsed<HiveType>)
    ensures r.Some? ==> |r.value.1| < |s|
    decreases |s|, 1
  {
    match Expect(s, '<')
    case None => None
    case Some(a) =>
      match FieldsOf(a)
      case None => None
      case Some((fields, b)) =>
        match Expect(b, '>')
        case None => None
        case Some(c) => Some((Struct(fields), c))
  }

  function FieldsOf(s: string): (r: Parsed<seq<Field>>)
    ensures r.Some? ==> |r.value.1| < |s|
    decreases |s|, 1
  {
    match OneField(s)
    case None => None
    case Some((field, a)) =>
      match Expect(a, ',')
      case None => Some(([field], SkipSpace(a)))
      case Some(b) =>
        match FieldsOf(b)
        case None => None
        case Some((rest, c)) => Some(([field] + rest, c))
  }

  function OneField(s: string): (r: Parsed<Field>)
    ensures r.Some? ==> |r.value.1| < |s|
    decreases |s|, 0
  {
    match FieldName(s)
    case None => None
    case Some((name, a)) =>
      match Expect(a, ':')
      case None => None
      case Some(b) =>
        match TypeOf(b)
        case None => None
        case Some((t, c)) => Some((Field(name, t), c))
  }

  /** The type a whole string means. */
  function ToHiveType(s: string): Option<HiveType> {
    match TypeOf(s)
    case None => None
    case Some((t, rest)) => if SkipSpace(rest) == "" then Some(t) else None
  }

  predicate PlainFieldName(name: string) {
    name != "" && (forall i | 0 <= i < |name| :: name[i] !in {':', ',', '<', '>', '`'}) &&
    !IsSpace(name[0]) && !IsSpace(name[|name| - 1])
  }

  /** The type as Glue writes it. */
  function FromHiveType(t: HiveType): Option<string> {
    match t
    case Boolean => Some("boolean")
    case TinyInt => Some("tinyint")
    case SmallInt => Some("smallint")
    case Integer => Some("int")
    case BigInt => Some("bigint")
    case UTinyInt => Some("smallint")
    case USmallInt => Some("int")
    case UInteger => Some("bigint")
    case Float => Some("float")
    case Double => Some("double")
    case Decimal(width, scale) => Some("decimal(" + NatToString(width) + "," + NatToString(scale) + ")")
    case Varchar => Some("string")
    case Blob => Some("binary")
    case Date => Some("date")
    case Time => Some("time")
    case Timestamp => Some("timestamp")
    case TimestampTz => Some("timestamptz")
    case Uuid => Some("uuid")
    case Variant => Some("variant")
    case List(child) =>
      (match FromHiveType(child)
       case Some(c) => Some("array<" + c + ">")
       case None => None)
    case Map(key, value) =>
      (match (FromHiveType(key), FromHiveType(value))
       case (Some(k), Some(v)) => Some("map<" + k + "," + v + ">")
       case _ => None)
    case Struct(fields) =>
      if fields == [] then None
      else
        (match FromFields(fields)
         case Some(f) => Some("struct<" + f + ">")
         case None => None)
    case Aliased(_, base) => FromHiveType(base)
    case Other(_) => None
  }

  function FromFields(fields: seq<Field>): Option<string>
    requires fields != []
  {
    var field := fields[0];
    if !PlainFieldName(field.name) then None
    else match FromHiveType(field.fieldType)
      case None => None
      case Some(t) =>
        var first := field.name + ":" + t;
        if |fields| == 1 then Some(first)
        else match FromFields(fields[1..])
          case Some(rest) => Some(first + "," + rest)
          case None => None
  }

  /** The type a stored type is read as: no alias, and signed. */
  function Widened(t: HiveType): HiveType {
    match t
    case UTinyInt => SmallInt
    case USmallInt => Integer
    case UInteger => BigInt
    case List(child) => List(Widened(child))
    case Map(key, value) => Map(Widened(key), Widened(value))
    case Struct(fields) => Struct(WidenedFields(fields))
    case Aliased(_, base) => Widened(base)
    case _ => t
  }

  function WidenedFields(fields: seq<Field>): seq<Field> {
    if fields == [] then []
    else [Field(fields[0].name, Widened(fields[0].fieldType))] + WidenedFields(fields[1..])
  }

  /** Decimals as DuckDB has them. */
  predicate WellFormed(t: HiveType) {
    match t
    case Decimal(width, scale) => 1 <= width <= MAX_WIDTH_DECIMAL && scale <= width
    case List(child) => WellFormed(child)
    case Map(key, value) => WellFormed(key) && WellFormed(value)
    case Struct(fields) => forall i | 0 <= i < |fields| :: WellFormed(fields[i].fieldType)
    case Aliased(_, base) => WellFormed(base)
    case _ => true
  }

  // Reading undoes writing.

  lemma {:induction false} UntilStop(word: string, rest: string, stops: char -> bool)
    requires forall i | 0 <= i < |word| :: !stops(word[i])
    requires rest != "" ==> stops(rest[0])
    ensures Until(word + rest, stops) == |word|
  {
    if word != "" {
      assert (word + rest)[1..] == word[1..] + rest;
      UntilStop(word[1..], rest, stops);
    } else {
      assert word + rest == rest;
    }
  }

  /** The rest of a type string after a type: nothing, or what closes or follows it. */
  predicate Follows(rest: string) {
    rest == "" || rest[0] == ',' || rest[0] == '>'
  }

  lemma SkipNothing(s: string, first: char)
    requires s != "" && s[0] == first && !IsSpace(first)
    ensures SkipSpace(s) == s
  {
  }

  lemma WordReads(word: string, rest: string)
    requires word != "" && forall i | 0 <= i < |word| :: !EndsIdentifier(word[i])
    requires rest != "" ==> EndsIdentifier(rest[0])
    ensures Identifier(word + rest) == Some((word, rest))
  {
    var s := word + rest;
    SkipNothing(s, word[0]);
    UntilStop(word, rest, EndsIdentifier);
    assert s[..|word|] == word && s[|word|..] == rest;
  }

  lemma CharReads(c: char, rest: string)
    requires !IsSpace(c)
    ensures Expect([c] + rest, c) == Some(rest)
  {
    assert ([c] + rest)[1..] == rest;
  }

  lemma NoChar(c: char, rest: string)
    requires rest != "" ==> rest[0] != c && !IsSpace(rest[0])
    ensures Expect(rest, c) == None && SkipSpace(rest) == rest
  {
  }

  lemma NumberReads(n: nat, rest: string)
    requires n <= MAX_INT64 && rest != "" && !IsDigit(rest[0])
    ensures Number(NatToString(n) + rest) == Some((n, rest))
  {
    hide NatToString, ParseDigits, Until, SkipSpace;
    var digits := NatToString(n);
    var s := digits + rest;
    assert s[0] == digits[0] && IsDigit(digits[0]);
    SkipNothing(s, digits[0]);
    UntilStop(digits, rest, EndsNumber);
    assert s[..|digits|] == digits && s[|digits|..] == rest;
    ParseOfNat(n);
  }

  lemma DecimalReads(width: nat, scale: nat, rest: string)
    requires 1 <= width <= MAX_WIDTH_DECIMAL && scale <= width
    ensures DecimalOf("(" + NatToString(width) + "," + NatToString(scale) + ")" + rest) == Some((Decimal(width, scale), rest))
  {
    hide Number, Expect, NatToString, ParseDigits, Until, SkipSpace;
    var c := ")" + rest;
    var b := "," + (NatToString(scale) + c);
    var a := NatToString(width) + b;
    assert "(" + NatToString(width) + "," + NatToString(scale) + ")" + rest == "(" + a;
    CharReads('(', a);
    NumberReads(width, b);
    CharReads(',', NatToString(scale) + c);
    NumberReads(scale, c);
    CharReads(')', rest);
  }

  lemma FieldNameReads(name: string, rest: string)
    requires PlainFieldName(name)
    ensures FieldName(name + ":" + rest) == Some((name, ":" + rest))
  {
    var tail := ":" + rest;
    var s := name + tail;
    assert name + ":" + rest == s;
    assert s[0] == name[0] && SkipSpace(s) == s;
    UntilStop(name, tail, EndsField);
    assert s[..|name|] == name && s[|name|..] == tail;
    assert TrimSpace(name) == name;
  }

  lemma KeywordReads(word: string, rest: string, meaning: Keyword)
    requires word != "" && forall i | 0 <= i < |word| :: 'a' <= word[i] <= 'z'
    requires Classify(word) == meaning && (rest != "" ==> EndsIdentifier(rest[0]))
    ensures Identifier(word + rest) == Some((word, rest)) && Classify(Lower(word)) == meaning
  {
    hide Classify;
    assert Lower(word) == word;
    WordReads(word, rest);
  }

  lemma NestedWordsMean()
    ensures Classify("array") == ArrayWord && Classify("map") == MapWord && Classify("struct") == StructWord
    ensures Classify("decimal") == DecimalWord
  {
  }

  lemma NumberWordsMean()
    ensures Classify("boolean") == TypeWord(Boolean) && Classify("tinyint") == TypeWord(TinyInt)
    ensures Classify("smallint") == TypeWord(SmallInt) && Classify("int") == TypeWord(Integer)
    ensures Classify("bigint") == TypeWord(BigInt)
  {
  }

  lemma RealWordsMean()
    ensures Classify("float") == TypeWord(Float) && Classify("double") == TypeWord(Double)
    ensures Classify("string") == TypeWord(Varchar) && Classify("binary") == TypeWord(Blob)
  {
  }

  lemma DateWordsMean()
    ensures Classify("date") == TypeWord(Date) && Classify("time") == TypeWord(Time)
    ensures Classify("timestamp") == TypeWord(Timestamp)
  {
  }

  lemma OtherWordsMean()
    ensures Classify("timestamptz") == TypeWord(TimestampTz)
    ensures Classify("uuid") == TypeWord(Uuid) && Classify("variant") == TypeWord(Variant)
  {
  }

  /** The types without parts. */
  predicate Simple(t: HiveType) {
    !t.Decimal? && !t.List? && !t.Map? && !t.Struct? && !t.Aliased? && !t.Other?
  }

  lemma SimpleReads(t: HiveType, rest: string)
    requires Simple(t) && (rest != "" ==> EndsIdentifier(rest[0]))
    ensures TypeOf(FromHiveType(t).value + rest) == Some((Widened(t), rest))
  {
    hide Classify, Identifier;
    NumberWordsMean();
    RealWordsMean();
    DateWordsMean();
    OtherWordsMean();
    KeywordReads(FromHiveType(t).value, rest, TypeWord(Widened(t)));
  }

  lemma NestedStarts(rest: string)
    requires rest != "" && EndsIdentifier(rest[0])
    ensures TypeOf("array" + rest) == ListOf(rest) && TypeOf("map" + rest) == MapOf(rest)
    ensures TypeOf("struct" + rest) == StructOf(rest) && TypeOf("decimal" + rest) == DecimalOf(rest)
  {
    hide Classify, Identifier, ListOf, MapOf, StructOf, DecimalOf;
    NestedWordsMean();
    KeywordReads("array", rest, ArrayWord);
    KeywordReads("map", rest, MapWord);
    KeywordReads("struct", rest, StructWord);
    KeywordReads("decimal", rest, DecimalWord);
  }

  /** The main result: a printed type reads back as the type, without aliases and with unsigned types widened, whatever
      follows it. */
  lemma {:induction false} TypeReads(t: HiveType, rest: string)
    requires WellFormed(t) && FromHiveType(t).Some? && Follows(rest)
    ensures TypeOf(FromHiveType(t).value + rest) == Some((Widened(t), rest))
    decreases t, 1
  {
    hide TypeOf, ListOf, MapOf, StructOf, FieldsOf, Expect, DecimalOf, Classify, Lower, Identifier, FromFields, WidenedFields, NatToString;
    match t
    case Decimal(width, scale) =>
      var size := "(" + NatToString(width) + "," + NatToString(scale) + ")" + rest;
      assert FromHiveType(t).value + rest == "decimal" + size;
      NestedStarts(size);
      DecimalReads(width, scale, rest);
    case List(_) => ListReads(t, rest);
    case Map(_, _) => MapReads(t, rest);
    case Struct(_) => StructReads(t, rest);
    case Aliased(_, base) => TypeReads(base, rest);
    case Other(_) =>
    case _ => SimpleReads(t, rest);
  }

  lemma {:induction false} ListReads(t: HiveType, rest: string)
    requires t.List? && WellFormed(t) && FromHiveType(t).Some? && Follows(rest)
    ensures TypeOf(FromHiveType(t).value + rest) == Some((Widened(t), rest))
    decreases t, 0
  {
    hide TypeOf, Expect;
    var inner := FromHiveType(t.child).value;
    var close := ">" + rest;
    assert FromHiveType(t).value + rest == "array" + ("<" + (inner + close));
    NestedStarts("<" + (inner + close));
    CharReads('<', inner + close);
    TypeReads(t.child, close);
    CharReads('>', rest);
  }

  lemma {:induction false} MapReads(t: HiveType, rest: string)
    requires t.Map? && WellFormed(t) && FromHiveType(t).Some? && Follows(rest)
    ensures TypeOf(FromHiveType(t).value + rest) == Some((Widened(t), rest))
    decreases t, 0
  {
    hide TypeOf, Expect, FromFields, WidenedFields, NatToString, SkipSpace;
    var k, v := FromHiveType(t.key).value, FromHiveType(t.value).value;
    var close := ">" + rest;
    var afterKey := "," + (v + close);
    assert FromHiveType(t).value + rest == "map" + ("<" + (k + afterKey));
    NestedStarts("<" + (k + afterKey));
    CharReads('<', k + afterKey);
    TypeReads(t.key, afterKey);
    CharReads(',', v + close);
    TypeReads(t.value, close);
    CharReads('>', rest);
  }

  lemma {:induction false} StructReads(t: HiveType, rest: string)
    requires t.Struct? && WellFormed(t) && FromHiveType(t).Some? && Follows(rest)
    ensures TypeOf(FromHiveType(t).value + rest) == Some((Widened(t), rest))
    decreases t, 0
  {
    hide TypeOf, Expect, FieldsOf, FromFields;
    var inner := FromFields(t.fields).value;
    var close := ">" + rest;
    assert FromHiveType(t).value + rest == "struct" + ("<" + (inner + close));
    NestedStarts("<" + (inner + close));
    CharReads('<', inner + close);
    FieldsRead(t.fields, rest);
    CharReads('>', rest);
  }

  lemma {:induction false} FieldsRead(fields: seq<Field>, rest: string)
    requires fields != [] && FromFields(fields).Some?
    requires forall i | 0 <= i < |fields| :: WellFormed(fields[i].fieldType)
    ensures FieldsOf(FromFields(fields).value + (">" + rest)) == Some((WidenedFields(fields), ">" + rest))
    decreases fields, 0
  {
    hide Expect, OneField, FromHiveType, WellFormed, Widened;
    var close := ">" + rest;
    var more := |fields| > 1;
    var after := if more then "," + (FromFields(fields[1..]).value + close) else close;
    var t := FromHiveType(fields[0].fieldType).value;
    assert FromFields(fields).value + close == fields[0].name + ":" + (t + after);
    FieldReads(fields[0], after);
    if more {
      CharReads(',', FromFields(fields[1..]).value + close);
      FieldsRead(fields[1..], rest);
    } else {
      NoChar(',', after);
      assert fields[1..] == [];
      assert WidenedFields(fields) == [Field(fields[0].name, Widened(fields[0].fieldType))];
    }
  }

  lemma {:induction false} FieldReads(field: Field, rest: string)
    requires PlainFieldName(field.name) && WellFormed(field.fieldType) && FromHiveType(field.fieldType).Some? && Follows(rest)
    ensures OneField(field.name + ":" + (FromHiveType(field.fieldType).value + rest))
            == Some((Field(field.name, Widened(field.fieldType)), rest))
    decreases field, 2
  {
    hide Expect, FieldName, TypeOf, FromHiveType, Widened;
    var after := FromHiveType(field.fieldType).value + rest;
    FieldNameReads(field.name, after);
    CharReads(':', after);
    TypeReads(field.fieldType, rest);
  }

  /** A column's type survives being stored. */
  lemma StoredTypeReadsBack(t: HiveType)
    requires WellFormed(t) && FromHiveType(t).Some?
    ensures ToHiveType(FromHiveType(t).value) == Some(Widened(t))
  {
    hide TypeOf, FromHiveType, Widened;
    TypeReads(t, "");
    assert FromHiveType(t).value + "" == FromHiveType(t).value;
  }

  /** What is read is as DuckDB has it, and already signed and without alias. */
  lemma {:induction false} ReadIsWidened(s: string)
    requires TypeOf(s).Some?
    ensures WellFormed(TypeOf(s).value.0) && Widened(TypeOf(s).value.0) == TypeOf(s).value.0
    decreases |s|, 0
  {
    hide Identifier, Expect, Lower, Classify, ListOf, MapOf, StructOf, DecimalOf, LengthOf, Widened, WellFormed;
    var (name, rest) := Identifier(s).value;
    IdentifierShortens(s);
    match Classify(Lower(name))
    case ArrayWord => ListIsWidened(rest);
    case MapWord => MapIsWidened(rest);
    case StructWord => StructIsWidened(rest);
    case DecimalWord => SizesAreWidened(rest);
    case CharWord => SizesAreWidened(rest);
    case TypeWord(t) => WordIsWidened(Lower(name));
    case _ =>
  }

  lemma {:induction false} ListIsWidened(s: string)
    requires ListOf(s).Some?
    ensures WellFormed(ListOf(s).value.0) && Widened(ListOf(s).value.0) == ListOf(s).value.0
    decreases |s|, 1
  {
    hide Expect, TypeOf;
    ReadIsWidened(Expect(s, '<').value);
  }

  lemma {:induction false} MapIsWidened(s: string)
    requires MapOf(s).Some?
    ensures WellFormed(MapOf(s).value.0) && Widened(MapOf(s).value.0) == MapOf(s).value.0
    decreases |s|, 1
  {
    hide Expect, TypeOf;
    var a := Expect(s, '<').value;
    ReadIsWidened(a);
    ReadIsWidened(Expect(TypeOf(a).value.1, ',').value);
  }

  lemma {:induction false} StructIsWidened(s: string)
    requires StructOf(s).Some?
    ensures WellFormed(StructOf(s).value.0) && Widened(StructOf(s).value.0) == StructOf(s).value.0
    decreases |s|, 2
  {
    hide Expect, FieldsOf;
    FieldsAreWidened(Expect(s, '<').value);
  }

  lemma SizesAreWidened(s: string)
    ensures DecimalOf(s).Some? ==> WellFormed(DecimalOf(s).value.0) && Widened(DecimalOf(s).value.0) == DecimalOf(s).value.0
    ensures LengthOf(s).Some? ==> WellFormed(LengthOf(s).value.0) && Widened(LengthOf(s).value.0) == LengthOf(s).value.0
  {
    hide Expect, Number, Scale, SkipSpace;
  }

  lemma IdentifierShortens(s: string)
    ensures Identifier(s).Some? ==> |Identifier(s).value.1| < |s|
  {
  }

  lemma WordIsWidened(name: string)
    ensures Classify(name).TypeWord? ==> WellFormed(Classify(name).t) && Widened(Classify(name).t) == Classify(name).t
  {
  }

  lemma {:induction false} FieldsAreWidened(s: string)
    requires FieldsOf(s).Some?
    ensures WidenedFields(FieldsOf(s).value.0) == FieldsOf(s).value.0
    ensures forall i | 0 <= i < |FieldsOf(s).value.0| :: WellFormed(FieldsOf(s).value.0[i].fieldType)
    decreases |s|, 1
  {
    hide FieldName, Expect, TypeOf, Widened, WellFormed;
    var (name, a) := FieldName(s).value;
    var b := Expect(a, ':').value;
    ReadIsWidened(b);
    var (field, c) := OneField(s).value;
    if Expect(c, ',').Some? {
      FieldsAreWidened(Expect(c, ',').value);
      var fields := FieldsOf(s).value.0;
      assert fields[1..] == FieldsOf(Expect(c, ',').value).value.0;
    }
  }

  /** Every type read that can be written again reads as itself. */
  lemma ReadTypeReadsBack(s: string)
    requires ToHiveType(s).Some? && FromHiveType(ToHiveType(s).value).Some?
    ensures ToHiveType(FromHiveType(ToHiveType(s).value).value) == ToHiveType(s)
  {
    ReadIsWidened(s);
    StoredTypeReadsBack(ToHiveType(s).value);
  }
}
