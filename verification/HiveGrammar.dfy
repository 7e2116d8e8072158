/** The grammar of type strings, and that a string is read exactly when the grammar spells it, as what it spells. */
module HiveGrammar {
  import opened Outcomes
  import opened Text
  import opened HiveTypes

  /** The names of the types without parts. (The parser's "timestamp with time zone" is not among them: a name ends at
      a space, see ZoneInWordsIsRefused.) */
  function Spellings(t: HiveType): set<string> {
    match t
    case Boolean => {"boolean", "bool"}
    case TinyInt => {"tinyint"}
    case SmallInt => {"smallint"}
    case Integer => {"int", "integer"}
    case BigInt => {"bigint", "long"}
    case Float => {"float", "real"}
    case Double => {"double"}
    case Varchar => {"string"}
    case Blob => {"binary"}
    case Date => {"date"}
    case Time => {"time"}
    case Timestamp => {"timestamp"}
    case TimestampTz => {"timestamptz", "timestamp_with_local_time_zone"}
    case Uuid => {"uuid"}
    case Variant => {"variant"}
    case _ => {}
  }

  /** A type as it is written: its names in any case, with whitespace wherever it may stand. */
  datatype Syntax =
    | Word(lead: string, word: string, meaning: HiveType)
    | Characters(lead: string, word: string, length: Option<Length>)
    | Number(lead: string, word: string, size: Option<Size>)
    | ArrayType(lead: string, word: string, open: string, child: Syntax, close: string)
    | MapType(lead: string, word: string, open: string, key: Syntax, comma: string, value: Syntax, close: string)
    | StructType(lead: string, word: string, open: string, fields: seq<FieldSyntax>, close: string)

  /** (n) */
  datatype Length = Length(open: string, lead: string, digits: string, close: string)

  /** (width) or (width, scale) */
  datatype Size = Size(open: string, lead: string, digits: string, scale: Option<ScaleSyntax>, close: string)

  datatype ScaleSyntax = ScaleSyntax(comma: string, lead: string, digits: string)

  /** name: type, with the name in backticks or not, and the whitespace before a comma after it. */
  datatype FieldSyntax = FieldSyntax(lead: string, quoted: bool, name: string, colon: string, fieldType: Syntax, comma: string)

  predicate Blank(s: string) {
    forall i | 0 <= i < |s| :: IsSpace(s[i])
  }

  predicate Digits(s: string) {
    s != "" && AllDigits(s) && ParseDigits(s) <= 0x7FFF_FFFF_FFFF_FFFF
  }

  predicate ValidLength(n: Length) {
    Blank(n.open) && Blank(n.lead) && Digits(n.digits) && Blank(n.close)
  }

  predicate ValidSize(n: Size) {
    && Blank(n.open) && Blank(n.lead) && Digits(n.digits) && Blank(n.close) && 1 <= ParseDigits(n.digits) <= 38
    && match n.scale
       case None => true
       case Some(scale) =>
         Blank(scale.comma) && Blank(scale.lead) && Digits(scale.digits) && ParseDigits(scale.digits) <= ParseDigits(n.digits)
  }

  predicate ValidName(name: string, quoted: bool) {
    if quoted then '`' !in name
    else
      && name != "" && !IsSpace(name[0]) && name[0] != '`' && !IsSpace(name[|name| - 1])
      && forall i | 0 <= i < |name| :: name[i] !in {':', ',', '<', '>'}
  }

  predicate Valid(x: Syntax) {
    Blank(x.lead) &&
    match x
    case Word(_, word, t) => Lower(word) in Spellings(t)
    case Characters(_, word, length) =>
      Lower(word) in {"varchar", "char"} && (length.Some? ==> ValidLength(length.value))
    case Number(_, word, size) => Lower(word) in {"decimal", "numeric"} && (size.Some? ==> ValidSize(size.value))
    case ArrayType(_, word, open, child, close) => Lower(word) == "array" && Blank(open) && Valid(child) && Blank(close)
    case MapType(_, word, open, key, comma, value, close) =>
      Lower(word) == "map" && Blank(open) && Valid(key) && Blank(comma) && Valid(value) && Blank(close)
    case StructType(_, word, open, fields, close) =>
      Lower(word) == "struct" && Blank(open) && fields != [] && Blank(close) &&
      forall i | 0 <= i < |fields| :: ValidField(fields[i])
  }

  predicate ValidField(f: FieldSyntax) {
    Blank(f.lead) && ValidName(f.name, f.quoted) && Blank(f.colon) && Blank(f.comma) && Valid(f.fieldType)
  }

  /** The text, followed by the rest. */
  function Spell(x: Syntax, rest: string): string
    decreases x
  {
    x.lead + (x.word +
    match x
    case Word(_, _, _) => rest
    case Characters(_, _, length) =>
      (match length
       case None => rest
       case Some(n) => n.open + ("(" + (n.lead + (n.digits + (n.close + (")" + rest))))))
    case Number(_, _, size) =>
      (match size
       case None => rest
       case Some(n) => n.open + ("(" + (n.lead + (n.digits + SpellScale(n.scale, n.close + (")" + rest))))))
    case ArrayType(_, _, open, child, close) => open + ("<" + Spell(child, close + (">" + rest)))
    case MapType(_, _, open, key, comma, value, close) =>
      open + ("<" + Spell(key, comma + ("," + Spell(value, close + (">" + rest)))))
    case StructType(_, _, open, fields, close) => open + ("<" + SpellFields(fields, close + (">" + rest))))
  }

  function SpellScale(scale: Option<ScaleSyntax>, rest: string): string {
    match scale
    case None => rest
    case Some(n) => n.comma + ("," + (n.lead + (n.digits + rest)))
  }

  function SpellFields(fields: seq<FieldSyntax>, rest: string): string
    decreases fields
  {
    if fields == [] then rest
    else
      var f := fields[0];
      f.lead + SpellName(f.name, f.quoted, f.colon + (":" + Spell(f.fieldType,
        if |fields| == 1 then rest else f.comma + ("," + SpellFields(fields[1..], rest)))))
  }

  function SpellName(name: string, quoted: bool, rest: string): string {
    if quoted then "`" + (name + ("`" + rest)) else name + rest
  }

  function Meaning(x: Syntax): HiveType {
    match x
    case Word(_, _, t) => t
    case Characters(_, _, _) => Varchar
    case Number(_, _, size) =>
      (match size
       case Some(Size(_, _, width, scale, _)) =>
         if !AllDigits(width) || (scale.Some? && !AllDigits(scale.value.digits)) then Other("")
         else Decimal(ParseDigits(width), if scale.None? then 0 else ParseDigits(scale.value.digits))
       case None => Decimal(10, 0))
    case ArrayType(_, _, _, child, _) => List(Meaning(child))
    case MapType(_, _, _, key, _, value, _) => Map(Meaning(key), Meaning(value))
    case StructType(_, _, _, fields, _) => Struct(FieldsMeaning(fields))
  }

  function FieldsMeaning(fields: seq<FieldSyntax>): seq<Field> {
    if fields == [] then [] else [Field(fields[0].name, Meaning(fields[0].fieldType))] + FieldsMeaning(fields[1..])
  }

  // Names.

  predicate IsName(word: string) {
    word != "" && forall i | 0 <= i < |word| :: !EndsIdentifier(word[i])
  }

  lemma SynonymsMean()
    ensures Classify("bool") == TypeWord(Boolean) && Classify("integer") == TypeWord(Integer)
    ensures Classify("long") == TypeWord(BigInt) && Classify("real") == TypeWord(Float)
  {
  }

  lemma ZoneMeans()
    ensures Classify("timestamp_with_local_time_zone") == TypeWord(TimestampTz)
  {
  }

  lemma SpellingsAreRead(t: HiveType, name: string)
    requires name in Spellings(t)
    ensures Classify(name) == TypeWord(t)
  {
    hide Classify;
    NumberWordsMean();
    RealWordsMean();
    DateWordsMean();
    OtherWordsMean();
    SynonymsMean();
    ZoneMeans();
  }

  lemma SizedNamesAreRead(name: string)
    ensures name in {"varchar", "char"} <==> Classify(name) == CharWord
    ensures name in {"decimal", "numeric"} <==> Classify(name) == DecimalWord
  {
  }

  lemma NestedNamesAreRead(name: string)
    ensures name == "array" <==> Classify(name) == ArrayWord
    ensures name == "map" <==> Classify(name) == MapWord
    ensures name == "struct" <==> Classify(name) == StructWord
  {
  }

  lemma NumberIsASpelling(name: string)
    requires Classify(name) in {TypeWord(Boolean), TypeWord(TinyInt), TypeWord(SmallInt), TypeWord(Integer), TypeWord(BigInt)}
    ensures name in Spellings(Classify(name).t)
  {
  }

  lemma OtherIsASpelling(name: string)
    requires Classify(name).TypeWord? && ' ' !in name
    requires Classify(name).t !in {Boolean, TinyInt, SmallInt, Integer, BigInt}
    ensures name in Spellings(Classify(name).t)
  {
    assert "timestamp with time zone"[9] == ' ';
  }

  lemma ReadIsASpelling(name: string)
    requires Classify(name).TypeWord? && ' ' !in name
    ensures name in Spellings(Classify(name).t)
  {
    hide Classify, Spellings;
    if Classify(name).t in {Boolean, TinyInt, SmallInt, Integer, BigInt} {
      NumberIsASpelling(name);
    } else {
      OtherIsASpelling(name);
    }
  }

  lemma NamesEnd(word: string)
    requires IsName(Lower(word))
    ensures IsName(word)
  {
    forall i | 0 <= i < |word|
      ensures !EndsIdentifier(word[i])
    {
      assert !EndsIdentifier(Lower(word)[i]) && Lower(word)[i] == LowerChar(word[i]);
    }
  }

  predicate Letters(name: string) {
    name != "" && forall i | 0 <= i < |name| :: 'a' <= name[i] <= 'z' || name[i] == '_'
  }

  lemma LettersAreName(name: string)
    requires Letters(name)
    ensures IsName(name)
  {
  }

  lemma NumbersAreLetters()
    ensures Letters("boolean") && Letters("bool") && Letters("tinyint") && Letters("smallint") && Letters("int")
    ensures Letters("integer") && Letters("bigint") && Letters("long")
  {
  }

  lemma RealsAreLetters()
    ensures Letters("float") && Letters("real") && Letters("double") && Letters("string") && Letters("binary")
    ensures Letters("uuid") && Letters("variant")
  {
  }

  lemma DatesAreLetters()
    ensures Letters("date") && Letters("time") && Letters("timestamp") && Letters("timestamptz")
    ensures Letters("timestamp_with_local_time_zone")
  {
  }

  lemma SpellingsAreNames(t: HiveType, name: string)
    requires name in Spellings(t)
    ensures IsName(name)
  {
    hide Letters, IsName;
    NumbersAreLetters();
    RealsAreLetters();
    DatesAreLetters();
    LettersAreName(name);
  }

  lemma PartNamesAreNames(name: string)
    requires name in {"varchar", "char", "decimal", "numeric", "array", "map", "struct"}
    ensures IsName(name)
  {
  }

  // Whitespace.

  lemma {:induction false} BlankIsSkipped(b: string, s: string)
    requires Blank(b)
    ensures SkipSpace(b + s) == SkipSpace(s)
  {
    if b == "" {
      assert b + s == s;
    } else {
      assert (b + s)[1..] == b[1..] + s;
      BlankIsSkipped(b[1..], s);
    }
  }

  lemma SkippedTwice(s: string)
    ensures SkipSpace(SkipSpace(s)) == SkipSpace(s)
  {
  }

  lemma {:induction false} SkippedAreSpaces(s: string)
    ensures forall i | 0 <= i < |s| - |SkipSpace(s)| :: IsSpace(s[i])
  {
    hide IsSpace;
    if s != "" && IsSpace(s[0]) {
      SkippedAreSpaces(s[1..]);
      assert forall i | 0 < i < |s| :: s[i] == s[1..][i - 1];
    }
  }

  lemma SkippedIsBlank(s: string) returns (b: string)
    ensures Blank(b) && s == b + SkipSpace(s)
  {
    hide IsSpace;
    SkippedAreSpaces(s);
    b := s[..|s| - |SkipSpace(s)|];
  }

  /** All that may follow a type. */
  predicate Closes(rest: string) {
    SkipSpace(rest) == "" || SkipSpace(rest)[0] == ',' || SkipSpace(rest)[0] == '>'
  }

  lemma BlankThen(b: string, c: char, rest: string)
    requires Blank(b) && !IsSpace(c)
    ensures SkipSpace(b + ([c] + rest)) == [c] + rest && Expect(b + ([c] + rest), c) == Some(rest)
  {
    BlankIsSkipped(b, [c] + rest);
    assert ([c] + rest)[1..] == rest;
  }

  lemma BlankNot(s: string, c: char)
    requires SkipSpace(s) == "" || SkipSpace(s)[0] != c
    ensures Expect(s, c) == None
  {
  }

  /** What follows a name ends it. */
  predicate Ends(rest: string) {
    rest != "" ==> EndsIdentifier(rest[0])
  }

  lemma ClosesEnds(rest: string)
    requires Closes(rest)
    ensures Ends(rest)
  {
  }

  lemma BlankEnds(b: string, c: char, rest: string)
    requires Blank(b) && EndsIdentifier(c)
    ensures Ends(b + ([c] + rest))
  {
    var s := b + ([c] + rest);
    assert s[0] == if b == "" then c else b[0];
  }

  lemma NameIsRead(lead: string, word: string, rest: string)
    requires Blank(lead) && IsName(word) && Ends(rest)
    ensures Identifier(lead + (word + rest)) == Some((word, rest))
  {
    BlankIsSkipped(lead, word + rest);
    WordReads(word, rest);
    assert SkipSpace(word + rest) == word + rest;
  }

  lemma NumberIsRead(lead: string, digits: string, rest: string)
    requires Blank(lead) && Digits(digits) && (rest != "" ==> !IsDigit(rest[0]))
    ensures HiveTypes.Number(lead + (digits + rest)) == Some((ParseDigits(digits), rest))
  {
    hide ParseDigits;
    BlankIsSkipped(lead, digits + rest);
    var s := digits + rest;
    assert s[0] == digits[0] && !IsSpace(s[0]);
    UntilStop(digits, rest, EndsNumber);
    assert s[..|digits|] == digits && s[|digits|..] == rest;
  }

  lemma BlankIsNoDigit(b: string, c: char, rest: string)
    requires Blank(b) && !IsDigit(c)
    ensures !IsDigit((b + ([c] + rest))[0])
  {
    var s := b + ([c] + rest);
    assert s[0] == if b == "" then c else b[0];
  }

  lemma LengthIsRead(length: Option<Length>, rest: string)
    requires (length.Some? ==> ValidLength(length.value)) && Closes(rest)
    ensures var s := match length
                     case None => rest
                     case Some(n) => n.open + ("(" + (n.lead + (n.digits + (n.close + (")" + rest)))));
            && LengthOf(s).Some? && LengthOf(s).value.0 == Varchar && SkipSpace(LengthOf(s).value.1) == SkipSpace(rest)
            && Ends(s)
  {
    hide Digits, HiveTypes.Number, Expect, SkipSpace, Blank;
    match length
    case None =>
      ClosesIsNo(rest, '(');
      ClosesEnds(rest);
      SkippedTwice(rest);
    case Some(n) =>
      var d := n.close + (")" + rest);
      var c := n.lead + (n.digits + d);
      BlankThen(n.open, '(', c);
      BlankEnds(n.open, '(', c);
      BlankIsNoDigit(n.close, ')', rest);
      NumberIsRead(n.lead, n.digits, d);
      BlankThen(n.close, ')', rest);
  }

  lemma ClosesIsNo(rest: string, c: char)
    requires Closes(rest) && c != ',' && c != '>'
    ensures Expect(rest, c) == None
  {
  }

  lemma ScaleIsRead(scale: Option<ScaleSyntax>, close: string, rest: string)
    requires Blank(close)
    requires scale.Some? ==> Blank(scale.value.comma) && Blank(scale.value.lead) && Digits(scale.value.digits)
    ensures var s := SpellScale(scale, close + (")" + rest));
            && !IsDigit(s[0]) && Scale(s).Some?
            && Scale(s).value.0 == (if scale.None? then 0 else ParseDigits(scale.value.digits))
            && Expect(Scale(s).value.1, ')') == Some(rest)
  {
    hide Digits, HiveTypes.Number, ParseDigits, Blank;
    var d := close + (")" + rest);
    BlankThen(close, ')', rest);
    BlankIsNoDigit(close, ')', rest);
    match scale
    case None =>
      BlankNot(d, ',');
      SkippedTwice(d);
    case Some(n) =>
      var c := n.lead + (n.digits + d);
      BlankThen(n.comma, ',', c);
      BlankIsNoDigit(n.comma, ',', c);
      NumberIsRead(n.lead, n.digits, d);
  }

  lemma SizeIsRead(x: Syntax, n: Size, rest: string)
    requires x.Number? && x.size == Some(n) && ValidSize(n) && Closes(rest)
    ensures var s := n.open + ("(" + (n.lead + (n.digits + SpellScale(n.scale, n.close + (")" + rest)))));
            && DecimalOf(s) == Some((Meaning(x), rest)) && Ends(s)
  {
    hide HiveTypes.Number, Scale, SpellScale, Expect, SkipSpace, Blank, ParseDigits;
    var d := SpellScale(n.scale, n.close + (")" + rest));
    var c := n.lead + (n.digits + d);
    BlankThen(n.open, '(', c);
    BlankEnds(n.open, '(', c);
    ScaleIsRead(n.scale, n.close, rest);
    NumberIsRead(n.lead, n.digits, d);
  }

  lemma NoSizeIsRead(rest: string)
    requires Closes(rest)
    ensures DecimalOf(rest) == Some((Decimal(10, 0), SkipSpace(rest))) && Ends(rest)
  {
    ClosesIsNo(rest, '(');
    ClosesEnds(rest);
  }

  lemma FieldNameIsRead(f: FieldSyntax, rest: string)
    requires ValidName(f.name, f.quoted) && Blank(f.lead) && Blank(f.colon)
    ensures var s := f.lead + SpellName(f.name, f.quoted, f.colon + (":" + rest));
            && FieldName(s).Some? && FieldName(s).value.0 == f.name && Expect(FieldName(s).value.1, ':') == Some(rest)
  {
    hide QuotedName, PlainName, Expect, Blank, SkipSpace, ValidName;
    var after := f.colon + (":" + rest);
    BlankThen(f.colon, ':', rest);
    if f.quoted {
      var inner := f.name + ("`" + after);
      BlankThen(f.lead, '`', inner);
      QuotedNameIsRead(f.name, after);
      assert ("`" + inner)[1..] == inner;
    } else {
      BlankIsSkipped(f.lead, f.name + after);
      PlainNameIsRead(f.name, f.colon, rest);
      BlankThen("", ':', rest);
      assert "" + (":" + rest) == ":" + rest;
    }
  }

  lemma QuotedNameIsRead(name: string, after: string)
    requires ValidName(name, true)
    ensures QuotedName(name + ("`" + after)) == Some((name, after))
  {
    var inner := name + ("`" + after);
    UntilStop(name, "`" + after, EndsQuoted);
    assert inner[..|name|] == name && inner[|name| + 1..] == after;
  }

  lemma PlainNameIsRead(name: string, colon: string, rest: string)
    requires ValidName(name, false) && Blank(colon)
    ensures var t := name + (colon + (":" + rest)); SkipSpace(t) == t && t[0] != '`' && PlainName(t) == Some((name, ":" + rest))
  {
    hide TrimSpace;
    var t := name + (colon + (":" + rest));
    var whole := name + colon;
    assert t == whole + (":" + rest);
    assert t[0] == name[0];
    forall i | 0 <= i < |whole|
      ensures !EndsField(whole[i])
    {
      if i < |name| {
        assert whole[i] == name[i];
      } else {
        assert whole[i] == colon[i - |name|];
      }
    }
    UntilStop(whole, ":" + rest, EndsField);
    assert t[..|whole|] == whole && t[|whole|..] == ":" + rest;
    BlankIsTrimmed(name, colon);
  }

  lemma {:induction false} BlankIsTrimmed(name: string, b: string)
    requires Blank(b) && name != "" && !IsSpace(name[|name| - 1])
    ensures TrimSpace(name + b) == name
  {
    if b == "" {
      assert name + b == name;
    } else {
      assert (name + b)[..|name + b| - 1] == name + b[..|b| - 1];
      BlankIsTrimmed(name, b[..|b| - 1]);
    }
  }

  // What the grammar spells is read as it means.

  /** A type read from the front, whatever whitespace is left before the rest. */
  predicate ReadsAs(p: Parsed<HiveType>, t: HiveType, rest: string) {
    p.Some? && p.value.0 == t && SkipSpace(p.value.1) == SkipSpace(rest)
  }

  lemma ExpectAfter(p: string, b: string, c: char, rest: string)
    requires Blank(b) && !IsSpace(c) && SkipSpace(p) == SkipSpace(b + ([c] + rest))
    ensures Expect(p, c) == Some(rest)
  {
    BlankThen(b, c, rest);
  }

  lemma CloseCloses(b: string, c: char, rest: string)
    requires Blank(b) && (c == ',' || c == '>')
    ensures Closes(b + ([c] + rest))
  {
    BlankThen(b, c, rest);
  }

  lemma {:induction false} SpelledIsRead(x: Syntax, rest: string)
    requires Valid(x) && Closes(rest)
    ensures ReadsAs(TypeOf(Spell(x, rest)), Meaning(x), rest)
    decreases x, 1
  {
    match x
    case Word(_, _, _) => WordIsRead(x, rest);
    case Characters(_, _, _) => CharactersAreRead(x, rest);
    case Number(_, _, _) => DecimalIsRead(x, rest);
    case ArrayType(_, _, _, _, _) => ArrayIsRead(x, rest);
    case MapType(_, _, _, _, _, _, _) => MapIsRead(x, rest);
    case StructType(_, _, _, _, _) => StructIsRead(x, rest);
  }

  lemma WordIsRead(x: Syntax, rest: string)
    requires x.Word? && Valid(x) && Closes(rest)
    ensures ReadsAs(TypeOf(Spell(x, rest)), Meaning(x), rest)
  {
    hide Identifier, Classify, Spellings, IsName, Closes, Ends, Blank, EndsIdentifier;
    SpellingsAreNames(x.meaning, Lower(x.word));
    SpellingsAreRead(x.meaning, Lower(x.word));
    NamesEnd(x.word);
    ClosesEnds(rest);
    NameIsRead(x.lead, x.word, rest);
  }

  lemma CharactersAreRead(x: Syntax, rest: string)
    requires x.Characters? && Valid(x) && Closes(rest)
    ensures ReadsAs(TypeOf(Spell(x, rest)), Meaning(x), rest)
  {
    hide Identifier, Classify, LengthOf, IsName, Closes, Ends, Blank, EndsIdentifier, SkipSpace, ValidLength;
    var s := match x.length
             case None => rest
             case Some(n) => n.open + ("(" + (n.lead + (n.digits + (n.close + (")" + rest)))));
    PartNamesAreNames(Lower(x.word));
    SizedNamesAreRead(Lower(x.word));
    NamesEnd(x.word);
    LengthIsRead(x.length, rest);
    NameIsRead(x.lead, x.word, s);
  }

  lemma DecimalNameIsRead(lead: string, word: string, rest: string)
    requires Blank(lead) && Lower(word) in {"decimal", "numeric"} && Ends(rest)
    ensures TypeOf(lead + (word + rest)) == DecimalOf(rest)
  {
    hide Identifier, Classify, DecimalOf, IsName, Ends, Blank, EndsIdentifier;
    PartNamesAreNames(Lower(word));
    SizedNamesAreRead(Lower(word));
    NamesEnd(word);
    NameIsRead(lead, word, rest);
  }

  lemma DecimalIsRead(x: Syntax, rest: string)
    requires x.Number? && Valid(x) && Closes(rest)
    ensures ReadsAs(TypeOf(Spell(x, rest)), Meaning(x), rest)
  {
    hide *;
    match x.size
    case None => BareDecimalIsRead(x, rest);
    case Some(n) => SizedDecimalIsRead(x, n, rest);
  }

  lemma BareDecimalIs(x: Syntax, rest: string)
    requires x.Number? && x.size == None && Valid(x)
    ensures Spell(x, rest) == x.lead + (x.word + rest) && Meaning(x) == Decimal(10, 0)
    ensures Blank(x.lead) && Lower(x.word) in {"decimal", "numeric"}
  {
  }

  lemma BareDecimalIsRead(x: Syntax, rest: string)
    requires x.Number? && x.size == None && Valid(x) && Closes(rest)
    ensures ReadsAs(TypeOf(Spell(x, rest)), Meaning(x), rest)
  {
    hide TypeOf, DecimalOf, Closes, Ends, Blank, SkipSpace, Spell, Meaning, Valid, Lower;
    BareDecimalIs(x, rest);
    NoSizeIsRead(rest);
    SkippedTwice(rest);
    DecimalNameIsRead(x.lead, x.word, rest);
  }

  lemma SizedDecimalIsRead(x: Syntax, n: Size, rest: string)
    requires x.Number? && x.size == Some(n) && Valid(x) && Closes(rest)
    ensures ReadsAs(TypeOf(Spell(x, rest)), Meaning(x), rest)
  {
    hide TypeOf, DecimalOf, Closes, Ends, Blank, SkipSpace, ValidSize, SpellScale, Meaning;
    var s := n.open + ("(" + (n.lead + (n.digits + SpellScale(n.scale, n.close + (")" + rest)))));
    SizeIsRead(x, n, rest);
    DecimalNameIsRead(x.lead, x.word, s);
    assert Spell(x, rest) == x.lead + (x.word + s);
  }

  lemma NestedStart(lead: string, word: string, open: string, inner: string)
    requires Blank(lead) && Blank(open) && Lower(word) in {"array", "map", "struct"}
    ensures var s := open + ("<" + inner);
            && Expect(s, '<') == Some(inner)
            && TypeOf(lead + (word + s)) == if Lower(word) == "array" then ListOf(s)
                                            else if Lower(word) == "map" then MapOf(s) else StructOf(s)
  {
    hide Identifier, Classify, Expect, ListOf, MapOf, StructOf, IsName, Ends, Blank;
    PartNamesAreNames(Lower(word));
    NestedNamesAreRead(Lower(word));
    NamesEnd(word);
    BlankThen(open, '<', inner);
    BlankEnds(open, '<', inner);
    NameIsRead(lead, word, open + ("<" + inner));
  }

  lemma {:induction false} ArrayIsRead(x: Syntax, rest: string)
    requires x.ArrayType? && Valid(x) && Closes(rest)
    ensures ReadsAs(TypeOf(Spell(x, rest)), Meaning(x), rest)
    decreases x, 0
  {
    hide TypeOf, Expect, SkipSpace, Closes, Blank;
    var close := x.close + (">" + rest);
    var inner := Spell(x.child, close);
    NestedStart(x.lead, x.word, x.open, inner);
    CloseCloses(x.close, '>', rest);
    SpelledIsRead(x.child, close);
    ExpectAfter(TypeOf(inner).value.1, x.close, '>', rest);
  }

  lemma {:induction false} MapIsRead(x: Syntax, rest: string)
    requires x.MapType? && Valid(x) && Closes(rest)
    ensures ReadsAs(TypeOf(Spell(x, rest)), Meaning(x), rest)
    decreases x, 0
  {
    hide TypeOf, Expect, SkipSpace, Closes, Blank;
    var close := x.close + (">" + rest);
    var value := Spell(x.value, close);
    var comma := x.comma + ("," + value);
    var inner := Spell(x.key, comma);
    NestedStart(x.lead, x.word, x.open, inner);
    CloseCloses(x.comma, ',', value);
    SpelledIsRead(x.key, comma);
    ExpectAfter(TypeOf(inner).value.1, x.comma, ',', value);
    CloseCloses(x.close, '>', rest);
    SpelledIsRead(x.value, close);
    ExpectAfter(TypeOf(value).value.1, x.close, '>', rest);
  }

  lemma {:induction false} StructIsRead(x: Syntax, rest: string)
    requires x.StructType? && Valid(x) && Closes(rest)
    ensures ReadsAs(TypeOf(Spell(x, rest)), Meaning(x), rest)
    decreases x, 0
  {
    hide TypeOf, Expect, SkipSpace, Blank, FieldsOf, SpellFields;
    var inner := SpellFields(x.fields, x.close + (">" + rest));
    NestedStart(x.lead, x.word, x.open, inner);
    FieldsAreRead(x.fields, x.close, rest);
    BlankThen(x.close, '>', rest);
    ExpectAfter(FieldsOf(inner).value.1, x.close, '>', rest);
  }

  lemma {:induction false} FieldsAreRead(fields: seq<FieldSyntax>, close: string, rest: string)
    requires fields != [] && Blank(close) && forall i | 0 <= i < |fields| :: ValidField(fields[i])
    ensures var s := SpellFields(fields, close + (">" + rest));
            && FieldsOf(s).Some? && FieldsOf(s).value.0 == FieldsMeaning(fields)
            && SkipSpace(FieldsOf(s).value.1) == ">" + rest
    decreases fields, 1
  {
    hide TypeOf, Expect, SkipSpace, Blank, OneField, ValidField, SpellName, Spell, FieldsOf;
    if |fields| == 1 {
      LastFieldIsRead(fields, close, rest);
    } else {
      var f, last := fields[0], close + (">" + rest);
      var more := SpellFields(fields[1..], last);
      FieldIsRead(f, f.comma + ("," + more), f.comma, ',', more);
      var s := SpellFields(fields, last);
      assert s == f.lead + SpellName(f.name, f.quoted, f.colon + (":" + Spell(f.fieldType, f.comma + ("," + more))));
      FieldsAreRead(fields[1..], close, rest);
      assert SkipSpace(OneField(s).value.1) == SkipSpace(f.comma + ("," + more));
      CommaFollows(f, more, OneField(s).value.1);
      MoreFields(s, more);
    }
  }

  lemma MoreFields(s: string, more: string)
    requires OneField(s).Some? && Expect(OneField(s).value.1, ',') == Some(more) && FieldsOf(more).Some?
    ensures FieldsOf(s) == Some(([OneField(s).value.0] + FieldsOf(more).value.0, FieldsOf(more).value.1))
  {
    hide OneField, Expect;
  }

  lemma {:induction false} LastFieldIsRead(fields: seq<FieldSyntax>, close: string, rest: string)
    requires |fields| == 1 && Blank(close) && ValidField(fields[0])
    ensures var s := SpellFields(fields, close + (">" + rest));
            && FieldsOf(s).Some? && FieldsOf(s).value.0 == FieldsMeaning(fields)
            && SkipSpace(FieldsOf(s).value.1) == ">" + rest
    decreases fields, 0
  {
    hide TypeOf, Expect, SkipSpace, Blank, OneField, ValidField, SpellName, Spell;
    var f, last := fields[0], close + (">" + rest);
    BlankThen(close, '>', rest);
    FieldIsRead(f, last, close, '>', rest);
    var after := OneField(SpellFields(fields, last)).value.1;
    BlankNot(after, ',');
    SkippedTwice(after);
    assert fields[1..] == [] && FieldsMeaning(fields) == [Field(f.name, Meaning(f.fieldType))];
  }

  lemma CommaFollows(f: FieldSyntax, rest: string, after: string)
    requires ValidField(f) && SkipSpace(after) == SkipSpace(f.comma + ("," + rest))
    ensures Expect(after, ',') == Some(rest)
  {
    hide SkipSpace, Blank, Valid, ValidName;
    ExpectAfter(after, f.comma, ',', rest);
  }

  lemma {:induction false} FieldIsRead(f: FieldSyntax, more: string, b: string, c: char, rest: string)
    requires ValidField(f) && more == b + ([c] + rest) && (c == ',' || c == '>') && (Blank(b) || b == f.comma)
    ensures var s := f.lead + SpellName(f.name, f.quoted, f.colon + (":" + Spell(f.fieldType, more)));
            && OneField(s).Some? && OneField(s).value.0 == Field(f.name, Meaning(f.fieldType))
            && SkipSpace(OneField(s).value.1) == SkipSpace(more)
    decreases f, 2
  {
    hide TypeOf, Expect, SkipSpace, Blank, Closes, FieldName, SpellName, ValidName;
    CloseCloses(b, c, rest);
    SpelledIsRead(f.fieldType, more);
    FieldNameIsRead(f, Spell(f.fieldType, more));
  }

  // Whatever is read is spelled by the grammar.

  lemma ExpectSpells(s: string, c: char) returns (b: string)
    requires Expect(s, c).Some?
    ensures Blank(b) && s == b + ([c] + Expect(s, c).value)
  {
    b := SkippedIsBlank(s);
    var t := SkipSpace(s);
    assert t == [c] + t[1..];
  }

  lemma ExpectAgain(p: string, q: string, c: char) returns (b: string)
    requires SkipSpace(p) == SkipSpace(q) && Expect(p, c).Some?
    ensures Blank(b) && q == b + ([c] + Expect(p, c).value)
  {
    b := ExpectSpells(q, c);
  }

  lemma IdentifierSpells(s: string) returns (lead: string)
    requires Identifier(s).Some?
    ensures var (word, after) := Identifier(s).value; Blank(lead) && IsName(word) && s == lead + (word + after)
  {
    hide SkipSpace, Until, Blank, EndsIdentifier;
    lead := SkippedIsBlank(s);
    var t := SkipSpace(s);
    var n := Until(t, EndsIdentifier);
    assert t == t[..n] + t[n..];
    assert forall i | 0 <= i < n :: t[..n][i] == t[i];
  }

  lemma NumberSpells(s: string) returns (lead: string, digits: string)
    requires HiveTypes.Number(s).Some?
    ensures var (n, after) := HiveTypes.Number(s).value;
            Blank(lead) && Digits(digits) && ParseDigits(digits) == n && s == lead + (digits + after)
  {
    hide SkipSpace, Until, Blank, ParseDigits;
    lead := SkippedIsBlank(s);
    var t := SkipSpace(s);
    var n := Until(t, EndsNumber);
    digits := t[..n];
    assert t == digits + t[n..];
    assert forall i | 0 <= i < n :: digits[i] == t[i];
  }

  lemma LengthSpells(s: string) returns (length: Option<Length>, rest: string)
    requires LengthOf(s).Some?
    ensures LengthOf(s).value.0 == Varchar && SkipSpace(rest) == SkipSpace(LengthOf(s).value.1)
    ensures match length
            case None => s == rest
            case Some(n) => ValidLength(n) && s == n.open + ("(" + (n.lead + (n.digits + (n.close + (")" + rest)))))
  {
    hide HiveTypes.Number, Digits, Expect, SkipSpace, Blank;
    match Expect(s, '(')
    case None =>
      length, rest := None, s;
      SkippedTwice(s);
    case Some(a) =>
      var open := ExpectSpells(s, '(');
      var lead, digits := NumberSpells(a);
      var b := HiveTypes.Number(a).value.1;
      var close := ExpectSpells(b, ')');
      length, rest := Some(Length(open, lead, digits, close)), Expect(b, ')').value;
  }

  lemma ScaleSpells(s: string) returns (scale: Option<ScaleSyntax>, rest: string)
    requires Scale(s).Some?
    ensures s == SpellScale(scale, rest) && SkipSpace(rest) == SkipSpace(Scale(s).value.1)
    ensures match scale
            case None => Scale(s).value.0 == 0
            case Some(n) => Blank(n.comma) && Blank(n.lead) && Digits(n.digits) && ParseDigits(n.digits) == Scale(s).value.0
  {
    hide HiveTypes.Number, Digits, Expect, SkipSpace, Blank, ParseDigits;
    match Expect(s, ',')
    case None =>
      scale, rest := None, s;
      SkippedTwice(s);
    case Some(a) =>
      var comma := ExpectSpells(s, ',');
      var lead, digits := NumberSpells(a);
      scale, rest := Some(ScaleSyntax(comma, lead, digits)), HiveTypes.Number(a).value.1;
  }

  lemma DecimalSpells(s: string) returns (size: Option<Size>, rest: string)
    requires DecimalOf(s).Some?
    ensures DecimalOf(s).value.0 == Meaning(Number("", "", size)) && SkipSpace(rest) == SkipSpace(DecimalOf(s).value.1)
    ensures match size
            case None => s == rest
            case Some(n) => ValidSize(n) && s == n.open + ("(" + (n.lead + (n.digits + SpellScale(n.scale, n.close + (")" + rest)))))
  {
    hide HiveTypes.Number, Scale, Expect, SkipSpace, Blank, ParseDigits, SpellScale;
    match Expect(s, '(')
    case None =>
      size, rest := None, s;
      SkippedTwice(s);
    case Some(a) =>
      var open := ExpectSpells(s, '(');
      var lead, digits := NumberSpells(a);
      var b := HiveTypes.Number(a).value.1;
      var scale, after := ScaleSpells(b);
      var close := ExpectAgain(Scale(b).value.1, after, ')');
      rest := Expect(Scale(b).value.1, ')').value;
      size := Some(Size(open, lead, digits, scale, close));
  }

  lemma {:induction false} TrimmedIsBlank(s: string) returns (b: string)
    ensures Blank(b) && s == TrimSpace(s) + b
    ensures TrimSpace(s) != "" ==> !IsSpace(TrimSpace(s)[|TrimSpace(s)| - 1])
  {
    if s != "" && IsSpace(s[|s| - 1]) {
      b := TrimmedIsBlank(s[..|s| - 1]);
      b := b + [s[|s| - 1]];
    } else {
      b := "";
    }
  }

  lemma FieldNameSpells(s: string) returns (lead: string, quoted: bool, colon: string)
    requires FieldName(s).Some? && Expect(FieldName(s).value.1, ':').Some?
    ensures var name, rest := FieldName(s).value.0, Expect(FieldName(s).value.1, ':').value;
            Blank(lead) && Blank(colon) && ValidName(name, quoted) && s == lead + SpellName(name, quoted, colon + (":" + rest))
  {
    hide QuotedName, PlainName, Blank, Expect, ValidName, SkipSpace, IsSpace;
    lead := SkippedIsBlank(s);
    var t := SkipSpace(s);
    quoted := t != "" && t[0] == '`';
    if quoted {
      QuotedNameSpells(t[1..]);
      colon := ExpectSpells(FieldName(s).value.1, ':');
      assert t == "`" + t[1..];
    } else {
      colon := PlainNameSpells(t);
    }
  }

  lemma QuotedNameSpells(s: string)
    requires QuotedName(s).Some?
    ensures ValidName(QuotedName(s).value.0, true) && s == QuotedName(s).value.0 + ("`" + QuotedName(s).value.1)
  {
    var n := Until(s, EndsQuoted);
    assert s == s[..n] + ("`" + s[n + 1..]);
  }

  lemma FieldEndIsNoSpace(c: char)
    requires EndsField(c)
    ensures !IsSpace(c)
  {
  }

  lemma StopsAtColon(after: string)
    requires (after != "" ==> EndsField(after[0])) && Expect(after, ':').Some?
    ensures after == ":" + Expect(after, ':').value
  {
    hide EndsField, IsSpace;
    if after != "" {
      FieldEndIsNoSpace(after[0]);
    }
    assert SkipSpace(after) == after && after == ":" + after[1..];
  }

  lemma PlainNameSpells(t: string) returns (colon: string)
    requires PlainName(t).Some? && Expect(PlainName(t).value.1, ':').Some?
    requires t != "" ==> !IsSpace(t[0]) && t[0] != '`'
    ensures var name, rest := PlainName(t).value.0, Expect(PlainName(t).value.1, ':').value;
            Blank(colon) && ValidName(name, false) && t == name + (colon + (":" + rest))
  {
    hide TrimSpace, Until, Expect, IsSpace, Blank;
    var n := Until(t, EndsField);
    colon := TrimmedIsBlank(t[..n]);
    var name, after := TrimSpace(t[..n]), t[n..];
    StopsAtColon(after);
    assert t == t[..n] + after == name + (colon + after);
    assert name == t[..n][..|name|];
    assert forall i | 0 <= i < |name| :: name[i] == t[i];
    NameHasNoEnd(t, n, name);
  }

  lemma NameHasNoEnd(t: string, n: nat, name: string)
    requires n <= |t| && (forall i | 0 <= i < n :: !EndsField(t[i])) && |name| <= n && forall i | 0 <= i < |name| :: name[i] == t[i]
    ensures forall i | 0 <= i < |name| :: name[i] !in {':', ',', '<', '>'}
  {
    forall i | 0 <= i < |name|
      ensures name[i] !in {':', ',', '<', '>'}
    {
      assert !EndsField(t[i]);
    }
  }

  lemma {:induction false} ReadIsSpelled(s: string) returns (x: Syntax, rest: string)
    requires TypeOf(s).Some?
    ensures Valid(x) && s == Spell(x, rest) && ReadsAs(TypeOf(s), Meaning(x), rest)
    decreases |s|, 0
  {
    hide Identifier, Classify, Expect, DecimalOf, LengthOf, ListOf, MapOf, StructOf, SkipSpace, Blank, Valid, Spell, Spellings;
    var lead := IdentifierSpells(s);
    var (word, after) := Identifier(s).value;
    IdentifierShortens(s);
    SizedNamesAreRead(Lower(word));
    NestedNamesAreRead(Lower(word));
    match Classify(Lower(word))
    case TypeWord(t) =>
      x := SpelledWord(lead, word, t, after);
      rest := after;
    case CharWord => x, rest := SpelledCharacters(lead, word, after);
    case DecimalWord => x, rest := SpelledDecimal(lead, word, after);
    case ArrayWord => x, rest := SpelledArray(lead, word, after);
    case MapWord => x, rest := SpelledMap(lead, word, after);
    case StructWord => x, rest := SpelledStruct(lead, word, after);
    case _ =>
  }

  lemma SpelledWord(lead: string, word: string, t: HiveType, after: string) returns (x: Syntax)
    requires Blank(lead) && IsName(word) && Classify(Lower(word)) == TypeWord(t)
    ensures Valid(x) && Meaning(x) == t && Spell(x, after) == lead + (word + after)
  {
    hide Classify, Spellings;
    assert ' ' !in Lower(word) by {
      forall i | 0 <= i < |word|
        ensures Lower(word)[i] != ' '
      {
        assert !EndsIdentifier(word[i]);
      }
    }
    ReadIsASpelling(Lower(word));
    x := Word(lead, word, t);
  }

  lemma SpelledCharacters(lead: string, word: string, after: string) returns (x: Syntax, rest: string)
    requires Blank(lead) && Lower(word) in {"varchar", "char"} && LengthOf(after).Some?
    ensures Valid(x) && lead + (word + after) == Spell(x, rest) && ReadsAs(LengthOf(after), Meaning(x), rest)
  {
    hide LengthOf, Blank, SkipSpace, ValidLength;
    var length;
    length, rest := LengthSpells(after);
    x := Characters(lead, word, length);
  }

  lemma SpelledDecimal(lead: string, word: string, after: string) returns (x: Syntax, rest: string)
    requires Blank(lead) && Lower(word) in {"decimal", "numeric"} && DecimalOf(after).Some?
    ensures Valid(x) && lead + (word + after) == Spell(x, rest) && ReadsAs(DecimalOf(after), Meaning(x), rest)
  {
    hide DecimalOf, Blank, SkipSpace, ValidSize, ParseDigits, SpellScale;
    var size;
    size, rest := DecimalSpells(after);
    x := Number(lead, word, size);
  }

  lemma {:induction false} SpelledArray(lead: string, word: string, s: string) returns (x: Syntax, rest: string)
    requires Blank(lead) && Lower(word) == "array" && ListOf(s).Some?
    ensures Valid(x) && lead + (word + s) == Spell(x, rest) && ReadsAs(ListOf(s), Meaning(x), rest)
    decreases |s|, 1
  {
    hide TypeOf, Expect, SkipSpace, Blank;
    var open := ExpectSpells(s, '<');
    var a := Expect(s, '<').value;
    var child, after := ReadIsSpelled(a);
    var close := ExpectAgain(TypeOf(a).value.1, after, '>');
    rest := Expect(TypeOf(a).value.1, '>').value;
    x := ArrayType(lead, word, open, child, close);
  }

  lemma {:induction false} SpelledMap(lead: string, word: string, s: string) returns (x: Syntax, rest: string)
    requires Blank(lead) && Lower(word) == "map" && MapOf(s).Some?
    ensures Valid(x) && lead + (word + s) == Spell(x, rest) && ReadsAs(MapOf(s), Meaning(x), rest)
    decreases |s|, 1
  {
    hide TypeOf, Expect, SkipSpace, Blank;
    var open := ExpectSpells(s, '<');
    var a := Expect(s, '<').value;
    var key, afterKey := ReadIsSpelled(a);
    var comma := ExpectAgain(TypeOf(a).value.1, afterKey, ',');
    var c := Expect(TypeOf(a).value.1, ',').value;
    var value, after := ReadIsSpelled(c);
    var close := ExpectAgain(TypeOf(c).value.1, after, '>');
    rest := Expect(TypeOf(c).value.1, '>').value;
    x := MapType(lead, word, open, key, comma, value, close);
  }

  lemma {:induction false} SpelledStruct(lead: string, word: string, s: string) returns (x: Syntax, rest: string)
    requires Blank(lead) && Lower(word) == "struct" && StructOf(s).Some?
    ensures Valid(x) && lead + (word + s) == Spell(x, rest) && ReadsAs(StructOf(s), Meaning(x), rest)
    decreases |s|, 2
  {
    hide FieldsOf, Expect, SkipSpace, Blank, SpellFields;
    var open := ExpectSpells(s, '<');
    var a := Expect(s, '<').value;
    var fields, after := SpelledFields(a);
    var close := ExpectAgain(FieldsOf(a).value.1, after, '>');
    rest := Expect(FieldsOf(a).value.1, '>').value;
    x := StructType(lead, word, open, fields, close);
  }

  lemma {:induction false} SpelledFields(s: string) returns (fields: seq<FieldSyntax>, rest: string)
    requires FieldsOf(s).Some?
    ensures fields != [] && (forall i | 0 <= i < |fields| :: ValidField(fields[i]))
    ensures s == SpellFields(fields, rest) && FieldsMeaning(fields) == FieldsOf(s).value.0
    ensures SkipSpace(rest) == SkipSpace(FieldsOf(s).value.1)
    decreases |s|, 1
  {
    hide OneField, Expect, SkipSpace, Blank, ValidField, SpellName, Spell;
    var f, after := SpelledField(s);
    var a := OneField(s).value.1;
    match Expect(a, ',')
    case None =>
      fields, rest := [f], after;
      SkippedTwice(a);
      assert fields[1..] == [];
      assert FieldsMeaning(fields) == [Field(f.name, Meaning(f.fieldType))];
    case Some(b) =>
      var comma := ExpectAgain(a, after, ',');
      var more;
      more, rest := SpelledFields(b);
      var first := f.(comma := comma);
      WithComma(f, comma);
      fields := [first] + more;
      assert fields[1..] == more;
  }

  lemma WithComma(f: FieldSyntax, comma: string)
    requires ValidField(f) && Blank(comma)
    ensures ValidField(f.(comma := comma))
  {
  }

  lemma {:induction false} SpelledField(s: string) returns (f: FieldSyntax, rest: string)
    requires OneField(s).Some?
    ensures ValidField(f) && f.comma == ""
    ensures s == f.lead + SpellName(f.name, f.quoted, f.colon + (":" + Spell(f.fieldType, rest)))
    ensures OneField(s).value.0 == Field(f.name, Meaning(f.fieldType)) && SkipSpace(rest) == SkipSpace(OneField(s).value.1)
    decreases |s|, 0
  {
    hide TypeOf, Expect, SkipSpace, FieldName, SpellName, ValidName;
    var lead, quoted, colon := FieldNameSpells(s);
    var b := Expect(FieldName(s).value.1, ':').value;
    var t;
    t, rest := ReadIsSpelled(b);
    f := FieldSyntax(lead, quoted, FieldName(s).value.0, colon, t, "");
  }

  /** The string spells the type. */
  ghost predicate Spells(s: string, t: HiveType) {
    exists x, blank :: Valid(x) && Blank(blank) && s == Spell(x, blank) && Meaning(x) == t
  }

  lemma SpelledMeans(x: Syntax, blank: string)
    requires Valid(x) && Blank(blank)
    ensures ToHiveType(Spell(x, blank)) == Some(Meaning(x))
  {
    hide TypeOf, Spell, Valid;
    BlankIsSkipped(blank, "");
    assert blank + "" == blank;
    SpelledIsRead(x, blank);
  }

  /** The main result: a type string is read as a type exactly when the grammar spells the type so. */
  lemma ReadExactlyWhen(s: string, t: HiveType)
    ensures ToHiveType(s) == Some(t) <==> Spells(s, t)
  {
    hide TypeOf, Spell, Valid, Meaning, SkipSpace, Blank;
    if x, blank :| Valid(x) && Blank(blank) && s == Spell(x, blank) && Meaning(x) == t {
      SpelledMeans(x, blank);
    }
    if ToHiveType(s) == Some(t) {
      var x, rest := ReadIsSpelled(s);
      var blank := SkippedIsBlank(rest);
      assert blank + "" == blank;
      assert Valid(x) && Blank(rest) && s == Spell(x, rest) && Meaning(x) == t;
    }
  }

  // What some strings mean.

  lemma {:induction false} CanonicalDigits(n: nat)
    requires n <= MAX_INT64
    ensures Digits(NatToString(n)) && ParseDigits(NatToString(n)) == n
  {
    ParseOfNat(n);
  }

  /** A length does not matter, nor does the case of the name. */
  lemma LengthsMeanText(word: string, n: nat)
    requires Lower(word) in {"varchar", "char"} && n <= MAX_INT64
    ensures ToHiveType(word) == Some(Varchar) && ToHiveType(word + "(" + NatToString(n) + ")") == Some(Varchar)
  {
    hide ToHiveType, NatToString, ParseDigits, Lower;
    CanonicalDigits(n);
    var bare, sized := Characters("", word, None), Characters("", word, Some(Length("", "", NatToString(n), "")));
    SpelledMeans(bare, "");
    SpelledMeans(sized, "");
    assert Spell(bare, "") == word;
    assert Spell(sized, "") == word + "(" + NatToString(n) + ")";
  }

  /** A decimal has ten digits and no scale unless it says otherwise; at most 38 digits, the scale among them. */
  lemma DecimalsMean(word: string, width: nat, scale: nat)
    requires Lower(word) in {"decimal", "numeric"} && 1 <= width <= 38 && scale <= width
    ensures ToHiveType(word) == Some(Decimal(10, 0))
    ensures ToHiveType(word + "(" + NatToString(width) + ")") == Some(Decimal(width, 0))
    ensures ToHiveType(word + "(" + NatToString(width) + "," + NatToString(scale) + ")") == Some(Decimal(width, scale))
  {
    hide ToHiveType, NatToString, ParseDigits, Lower;
    var bare := Number("", word, None);
    SpelledMeans(bare, "");
    assert Spell(bare, "") == word;
    SizedDecimalMeans(word, width);
    ScaledDecimalMeans(word, width, scale);
  }

  lemma SizedDecimalMeans(word: string, width: nat)
    requires Lower(word) in {"decimal", "numeric"} && 1 <= width <= 38
    ensures ToHiveType(word + "(" + NatToString(width) + ")") == Some(Decimal(width, 0))
  {
    hide ToHiveType, NatToString, ParseDigits, Lower;
    CanonicalDigits(width);
    var x := Number("", word, Some(Size("", "", NatToString(width), None, "")));
    SpelledMeans(x, "");
    assert Spell(x, "") == word + "(" + NatToString(width) + ")";
  }

  lemma ScaledDecimalMeans(word: string, width: nat, scale: nat)
    requires Lower(word) in {"decimal", "numeric"} && 1 <= width <= 38 && scale <= width
    ensures ToHiveType(word + "(" + NatToString(width) + "," + NatToString(scale) + ")") == Some(Decimal(width, scale))
  {
    hide ToHiveType, NatToString, ParseDigits, Lower;
    CanonicalDigits(width);
    CanonicalDigits(scale);
    var x := Number("", word, Some(Size("", "", NatToString(width), Some(ScaleSyntax("", "", NatToString(scale))), "")));
    SpelledMeans(x, "");
    assert Spell(x, "") == word + "(" + NatToString(width) + "," + NatToString(scale) + ")";
  }

  /** The other names mean the type they spell, in any case. */
  lemma NamesMean(word: string, t: HiveType)
    requires Lower(word) in Spellings(t)
    ensures ToHiveType(word) == Some(t)
  {
    hide ToHiveType, Spellings, Lower;
    SpelledMeans(Word("", word, t), "");
    assert Spell(Word("", word, t), "") == word;
  }

  /** A name with more after it than whitespace is refused. */
  lemma MoreIsRefused(t: HiveType, rest: string)
    requires Simple(t) && rest != "" && EndsIdentifier(rest[0]) && SkipSpace(rest) != ""
    ensures ToHiveType(FromHiveType(t).value + rest) == None
  {
    hide TypeOf, FromHiveType, EndsIdentifier, SkipSpace, Widened;
    SimpleReads(t, rest);
  }

  /** The false case: the name the parser has for it ends at its first space, so this spelling is refused. */
  lemma ZoneInWordsIsRefused()
    ensures ToHiveType("timestamp" + (" " + "with time zone")) == None
  {
    hide ToHiveType, SkipSpace;
    var words := "with time zone";
    BlankIsSkipped(" ", words);
    SkipNothing(words, 'w');
    assert (" " + words)[0] == ' ';
    MoreIsRefused(Timestamp, " " + words);
  }

  // What is written.

  const HIVE_NAMES := {"boolean", "tinyint", "smallint", "int", "bigint", "float", "double", "string", "binary", "date",
                       "time", "timestamp", "timestamptz", "uuid", "variant"}

  /** Of the names of a type it is written by the one Glue has for it; a type without parts always is. */
  lemma WrittenByGluesName(t: HiveType)
    requires Simple(t)
    ensures FromHiveType(t).Some? && FromHiveType(t).value in HIVE_NAMES && FromHiveType(t).value in Spellings(Widened(t))
  {
  }

  /** A type can be written unless it has a part of a kind Glue has no name for, no fields, or a field whose name would
      be read as more than a name. */
  predicate Writable(t: HiveType) {
    match t
    case List(child) => Writable(child)
    case Map(key, value) => Writable(key) && Writable(value)
    case Struct(fields) =>
      && fields != [] && (forall f | f in fields :: Writable(f.fieldType) && f.name != "")
      && (forall f | f in fields && f.name != "" ::
            (forall c | c in f.name :: c !in ":,<>`") && !IsSpace(f.name[0]) && !IsSpace(f.name[|f.name| - 1]))
    case Aliased(_, base) => Writable(base)
    case Other(_) => false
    case _ => true
  }

  lemma {:induction false} WrittenExactlyWhen(t: HiveType)
    ensures FromHiveType(t).Some? <==> Writable(t)
  {
    match t
    case List(child) => WrittenExactlyWhen(child);
    case Map(key, value) =>
      WrittenExactlyWhen(key);
      WrittenExactlyWhen(value);
    case Struct(fields) =>
      if fields != [] {
        FieldsWrittenExactlyWhen(fields);
      }
    case Aliased(_, base) => WrittenExactlyWhen(base);
    case _ =>
  }

  lemma {:induction false} FieldsWrittenExactlyWhen(fields: seq<Field>)
    requires fields != []
    ensures FromFields(fields).Some? <==>
            forall f | f in fields :: Writable(f.fieldType) && f.name != "" &&
              (forall c | c in f.name :: c !in ":,<>`") && !IsSpace(f.name[0]) && !IsSpace(f.name[|f.name| - 1])
  {
    hide FromHiveType, Writable, IsSpace;
    assert fields == [fields[0]] + fields[1..];
    WrittenExactlyWhen(fields[0].fieldType);
    PlainExactlyWhen(fields[0].name);
    if |fields| > 1 {
      FieldsWrittenExactlyWhen(fields[1..]);
    }
  }

  lemma PlainExactlyWhen(name: string)
    ensures PlainFieldName(name) <==> name != "" && (forall c | c in name :: c !in ":,<>`") && !IsSpace(name[0]) && !IsSpace(name[|name| - 1])
  {
    hide IsSpace;
    forall c: char
      ensures c in ":,<>`" <==> c in {':', ',', '<', '>', '`'}
    {
      var marks := ":,<>`";
      assert marks[0] == ':' && marks[1] == ',' && marks[2] == '<' && marks[3] == '>' && marks[4] == '`';
    }
    assert forall i | 0 <= i < |name| :: name[i] in name;
  }
}
