/** Rows of LazySimpleSerDe text files: fields without quotes, written by an INSERT and split again by a scan. */
module TextRows {
  import opened Outcomes

  predicate IsLineBreak(c: char) {
    c == '\n' || c == '\r'
  }

  /** The dialect of a table's files. */
  datatype Dialect = Dialect(delimiter: char, escape: Option<char>, nullString: string) {
    /** The combinations the table checks let through: delimiters are no line breaks, the escape character is not the
        delimiter, and the NULL string holds no delimiter. */
    predicate Supported() {
      !IsLineBreak(delimiter) && escape != Some(delimiter) && delimiter !in nullString
    }

    predicate IsEscape(c: char) {
      escape == Some(c)
    }

    // Writing.

    /** Puts the escape character before each occurrence of a character. */
    static function Replace(text: string, special: char, escape: char): string {
      if text == "" then ""
      else (if text[0] == special then [escape, special] else [text[0]]) + Replace(text[1..], special, escape)
    }

    /** The escape character first, then the delimiter. */
    function EscapedText(text: string): string {
      match escape
      case None => text
      case Some(e) => Replace(Replace(text, e, e), delimiter, e)
    }

    /** A field as it is written; None is a value the table's files can not hold. */
    function WriteField(value: Option<string>): Option<string> {
      match value
      case None => Some(nullString)
      case Some(text) =>
        if (exists i | 0 <= i < |text| :: IsLineBreak(text[i]) || (escape.None? && text[i] == delimiter)) || text == nullString
        then None
        else Some(EscapedText(text))
    }

    /** A NULL is always written; a text is unless it has a line break, is the NULL string, or has a delimiter that
        nothing can escape. */
    lemma AcceptedExactlyWhen(text: string)
      ensures WriteField(None) == Some(nullString)
      ensures WriteField(Some(text)).Some? <==>
              '\n' !in text && '\r' !in text && text != nullString && (escape == None ==> delimiter !in text)
    {
      assert forall i | 0 <= i < |text| :: text[i] in text;
    }

    /** A text with nothing to escape is written as it is. */
    lemma PlainIsVerbatim(text: string)
      requires Supported() && WriteField(Some(text)).Some?
      requires escape.Some? ==> delimiter !in text && escape.value !in text
      ensures WriteField(Some(text)) == Some(text)
    {
      if escape.Some? {
        NothingReplaced(text, escape.value, escape.value);
        NothingReplaced(text, delimiter, escape.value);
      }
    }

    static lemma {:induction false} NothingReplaced(text: string, special: char, escape: char)
      requires special !in text
      ensures Replace(text, special, escape) == text
    {
      if text != "" {
        NothingReplaced(text[1..], special, escape);
        assert [text[0]] + text[1..] == text;
      }
    }

    predicate Accepts(row: seq<Option<string>>) {
      forall k | 0 <= k < |row| :: WriteField(row[k]).Some?
    }

    predicate IsRow(row: seq<Option<string>>) {
      row != [] && Accepts(row)
    }

    function WriteFields(row: seq<Option<string>>): string
      requires IsRow(row)
    {
      var field := WriteField(row[0]).value;
      if |row| == 1 then field
      else
        assert forall k | 0 <= k < |row| - 1 :: row[1..][k] == row[k + 1];
        field + [delimiter] + WriteFields(row[1..])
    }

    function WriteRows(rows: seq<seq<Option<string>>>): string
      requires forall r {:trigger rows[r]} | 0 <= r < |rows| :: IsRow(rows[r])
    {
      if rows == [] then "" else WriteFields(rows[0]) + "\n" + WriteRows(rows[1..])
    }

    // Reading.

    /** The records of a file, from within a field with some of its text read, after some fields. An escape character
        makes the next character part of the field, whatever it is; blank lines are skipped. */
    function Records(s: string, field: string, fields: seq<string>): seq<seq<string>>
      decreases |s|
    {
      if s == "" then if field == "" && fields == [] then [] else [fields + [field]]
      else if IsEscape(s[0]) && |s| > 1 then Records(s[2..], field + s[..2], fields)
      else if IsEscape(s[0]) then Records(s[1..], field + [s[0]], fields)
      else if s[0] == delimiter then Records(s[1..], "", fields + [field])
      else if IsLineBreak(s[0]) then
        (if field == "" && fields == [] then [] else [fields + [field]]) + Records(s[1..], "", [])
      else Records(s[1..], field + [s[0]], fields)
    }

    /** Drops the escape characters of a field. */
    function Unescaped(field: string): string {
      if field == "" then ""
      else if IsEscape(field[0]) && |field| > 1 then [field[1]] + Unescaped(field[2..])
      else [field[0]] + Unescaped(field[1..])
    }

    function ReadField(field: string): Option<string> {
      if field == nullString then None else Some(Unescaped(field))
    }

    function ReadRecord(fields: seq<string>): seq<Option<string>> {
      seq(|fields|, k requires 0 <= k < |fields| => ReadField(fields[k]))
    }

    function ReadRows(s: string): seq<seq<Option<string>>> {
      var records := Records(s, "", []);
      seq(|records|, r requires 0 <= r < |records| => ReadRecord(records[r]))
    }

    // One field.

    /** A written field holds nothing that ends it: line breaks, delimiters and a last escape character are escaped. */
    predicate Clean(s: string) {
      if s == "" then true
      else if IsEscape(s[0]) then |s| > 1 && Clean(s[2..])
      else s[0] != delimiter && !IsLineBreak(s[0]) && Clean(s[1..])
    }

    /** One character escaped when it needs to be. */
    function EscapedChar(c: char): string {
      if escape.Some? && (c == escape.value || c == delimiter) then [escape.value, c] else [c]
    }

    function Charwise(text: string): string {
      if text == "" then "" else EscapedChar(text[0]) + Charwise(text[1..])
    }

    static lemma {:induction false} ReplaceOfConcat(a: string, b: string, special: char, escape: char)
      ensures Replace(a + b, special, escape) == Replace(a, special, escape) + Replace(b, special, escape)
    {
      if a == "" {
        assert a + b == b;
      } else {
        assert (a + b)[1..] == a[1..] + b;
        ReplaceOfConcat(a[1..], b, special, escape);
      }
    }

    /** Escaping the escape character first and the delimiter next escapes each character once. */
    lemma {:induction false} EscapedOnce(text: string)
      requires Supported()
      ensures EscapedText(text) == Charwise(text)
    {
      if text == "" {
      } else {
        EscapedOnce(text[1..]);
        assert [text[0]] + text[1..] == text;
        if escape.Some? {
          var e := escape.value;
          var head := if text[0] == e then [e, e] else [text[0]];
          assert Replace(text, e, e) == head + Replace(text[1..], e, e);
          ReplaceOfConcat(head, Replace(text[1..], e, e), delimiter, e);
          ReplaceOfTwo(head, delimiter, e);
        }
      }
    }

    static lemma ReplaceOfTwo(s: string, special: char, escape: char)
      requires 1 <= |s| <= 2
      ensures |s| == 1 ==> Replace(s, special, escape) == if s[0] == special then [escape, special] else s
      ensures |s| == 2 && s[0] != special && s[1] != special ==> Replace(s, special, escape) == s
    {
      if |s| == 2 {
        assert s[1..] == [s[1]] && s[1..][1..] == "";
        assert [s[0]] + [s[1]] == s;
      }
    }

    /** Escaped delimiters would be escaped again the other way around. */
    lemma OrderMatters(e: char)
      requires Supported() && escape == Some(e)
      ensures Replace(Replace([delimiter], delimiter, e), e, e) == [e, e, delimiter] != Charwise([delimiter])
    {
      assert Replace([delimiter], delimiter, e) == [e, delimiter];
      assert [e, delimiter][1..] == [delimiter];
      assert Replace([delimiter], e, e) == [delimiter];
    }

    lemma {:induction false} CharwiseIsClean(text: string)
      requires Supported()
      requires forall i | 0 <= i < |text| :: !IsLineBreak(text[i]) && (escape.None? ==> text[i] != delimiter)
      ensures Clean(Charwise(text)) && Unescaped(Charwise(text)) == text
    {
      if text != "" {
        var rest := Charwise(text[1..]);
        CharwiseIsClean(text[1..]);
        var head := EscapedChar(text[0]);
        assert Charwise(text) == head + rest;
        assert [text[0]] + text[1..] == text;
        if |head| == 2 {
          assert (head + rest)[2..] == rest;
        } else {
          assert (head + rest)[1..] == rest;
        }
      }
    }

    /** What keeps the NULL string apart from values and from the ends of fields and rows: it ends where its field ends,
        and the text it reads as is not written like it. */
    predicate NullStringIsApart() {
      Clean(nullString) && WriteField(Some(Unescaped(nullString))) != Some(nullString)
    }

    lemma WrittenFieldReads(value: Option<string>)
      requires Supported() && NullStringIsApart() && WriteField(value).Some?
      ensures Clean(WriteField(value).value) && ReadField(WriteField(value).value) == value
    {
      if value.Some? {
        EscapedOnce(value.value);
        CharwiseIsClean(value.value);
      }
    }

    // Whole files.

    /** The reader takes in a clean field up to its end. */
    lemma {:induction false} CleanFieldPasses(s: string, rest: string, field: string, fields: seq<string>)
      requires Clean(s) && Supported()
      ensures Records(s + rest, field, fields) == Records(rest, field + s, fields)
      decreases |s|
    {
      if s == "" {
        assert s + rest == rest && field + s == field;
      } else if IsEscape(s[0]) {
        assert (s + rest)[2..] == s[2..] + rest && (s + rest)[..2] == s[..2];
        CleanFieldPasses(s[2..], rest, field + s[..2], fields);
        assert (field + s[..2]) + s[2..] == field + s;
      } else {
        assert (s + rest)[1..] == s[1..] + rest;
        CleanFieldPasses(s[1..], rest, field + [s[0]], fields);
        assert (field + [s[0]]) + s[1..] == field + s;
      }
    }

    /** Past a delimiter the next field starts; a line feed ends the last record of a file. */
    lemma Steps(rest: string, field: string, fields: seq<string>)
      requires Supported()
      ensures Records([delimiter] + rest, field, fields) == Records(rest, "", fields + [field])
      ensures !IsEscape('\n') && (field != "" || fields != []) ==>
                Records("\n" + rest, field, fields) == [fields + [field]] + Records(rest, "", [])
    {
      assert ([delimiter] + rest)[1..] == rest && ("\n" + rest)[1..] == rest;
    }

    /** Either line break ends a line, so a carriage return and a line feed together end one; a blank line is none; the
        last line of a file needs no break. */
    lemma LinesEnd(c: char, line: string, rest: string, fields: seq<string>)
      requires Supported() && (c == '\n' || c == '\r') && escape != Some(c) && Clean(line)
      ensures line != "" || fields != [] ==>
                Records(line + ([c] + rest), "", fields) == [fields + [line]] + Records(rest, "", [])
      ensures Records([c] + rest, "", []) == Records(rest, "", [])
      ensures line != "" || fields != [] ==> Records(line, "", fields) == [fields + [line]]
    {
      CleanFieldPasses(line, [c] + rest, "", fields);
      CleanFieldPasses(line, "", "", fields);
      assert "" + line == line && line + "" == line && ([c] + rest)[1..] == rest;
    }

    function RawFields(row: seq<Option<string>>): (r: seq<string>)
      requires Accepts(row)
      ensures |r| == |row|
    {
      seq(|row|, k requires 0 <= k < |row| => WriteField(row[k]).value)
    }

    lemma {:induction false} RowPasses(row: seq<Option<string>>, rest: string, fields: seq<string>)
      requires Supported() && !IsEscape('\n') && NullStringIsApart() && row != [] && Accepts(row)
      requires |fields| + |row| > 1 || RawFields(row) != [""]
      ensures Records(WriteFields(row) + "\n" + rest, "", fields) == [fields + RawFields(row)] + Records(rest, "", [])
      decreases |row|
    {
      hide Clean, Records, NullStringIsApart, ReadField, WriteField;
      var field := WriteField(row[0]).value;
      WrittenFieldReads(row[0]);
      assert "" + field == field;
      if |row| == 1 {
        assert WriteFields(row) + "\n" + rest == field + ("\n" + rest);
        CleanFieldPasses(field, "\n" + rest, "", fields);
        assert RawFields(row) == [field];
        Steps(rest, field, fields);
      } else {
        var tail := row[1..];
        assert forall k | 0 <= k < |tail| :: tail[k] == row[k + 1];
        var after := WriteFields(tail) + "\n" + rest;
        assert WriteFields(row) + "\n" + rest == field + ([delimiter] + after);
        CleanFieldPasses(field, [delimiter] + after, "", fields);
        Steps(after, field, fields);
        RowPasses(tail, rest, fields + [field]);
        assert RawFields(row) == [field] + RawFields(tail);
        assert fields + RawFields(row) == (fields + [field]) + RawFields(tail);
      }
    }

    /** A row the writer accepts, of at least two fields, or of one that does not leave the line blank. */
    predicate Writable(row: seq<Option<string>>) {
      IsRow(row) && (|row| > 1 || RawFields(row) != [""])
    }

    /** The rows that do not leave their line blank, in order. */
    function NotBlank(rows: seq<seq<Option<string>>>): seq<seq<Option<string>>> {
      if rows == [] then [] else (if Writable(rows[0]) then [rows[0]] else []) + NotBlank(rows[1..])
    }

    /** A file of accepted rows reads as those of its rows that do not leave their line blank. */
    lemma {:induction false} FileReads(rows: seq<seq<Option<string>>>)
      requires Supported() && !IsEscape('\n') && NullStringIsApart()
      requires forall r {:trigger rows[r]} | 0 <= r < |rows| :: IsRow(rows[r])
      ensures ReadRows(WriteRows(rows)) == NotBlank(rows)
      decreases |rows|
    {
      hide NullStringIsApart, WriteFields, WriteField, ReadRecord;
      if rows != [] {
        var row, rest := rows[0], WriteRows(rows[1..]);
        FileReads(rows[1..]);
        assert WriteRows(rows) == WriteFields(row) + "\n" + rest;
        var records := Records(WriteRows(rows), "", []);
        var read := ReadRows(WriteRows(rows));
        if Writable(row) {
          RowPasses(row, rest, []);
          RecordReads(row);
          assert [] + RawFields(row) == RawFields(row);
          assert records == [RawFields(row)] + Records(rest, "", []);
          assert read[0] == row && read[1..] == ReadRows(rest);
        } else {
          BlankPasses(row, rest);
          assert read == ReadRows(rest);
        }
      }
    }

    lemma RecordReads(row: seq<Option<string>>)
      requires Supported() && NullStringIsApart() && IsRow(row)
      ensures ReadRecord(RawFields(row)) == row
    {
      hide NullStringIsApart, WriteField, ReadField;
      forall k | 0 <= k < |row|
        ensures ReadField(RawFields(row)[k]) == row[k]
      {
        WrittenFieldReads(row[k]);
      }
    }

    /** A blank line is no record. */
    lemma BlankPasses(row: seq<Option<string>>, rest: string)
      requires Supported() && !IsEscape('\n') && IsRow(row) && !Writable(row)
      ensures Records(WriteFields(row) + "\n" + rest, "", []) == Records(rest, "", [])
    {
      hide WriteField;
      assert RawFields(row)[0] == "" && WriteFields(row) == "";
      assert "" + "\n" + rest == "\n" + rest && ("\n" + rest)[1..] == rest;
    }

    lemma {:induction false} NotBlankIsAll(rows: seq<seq<Option<string>>>)
      ensures |NotBlank(rows)| <= |rows|
      ensures NotBlank(rows) == rows <==> forall r | 0 <= r < |rows| :: Writable(rows[r])
    {
      hide Writable;
      if rows != [] {
        NotBlankIsAll(rows[1..]);
        if Writable(rows[0]) {
          assert NotBlank(rows)[1..] == NotBlank(rows[1..]);
          assert (forall r | 0 <= r < |rows| :: Writable(rows[r])) ==> forall r | 0 <= r < |rows| - 1 :: Writable(rows[1..][r]);
          assert (forall r | 0 <= r < |rows| - 1 :: Writable(rows[1..][r])) ==>
                   forall r | 1 <= r < |rows| :: rows[r] == rows[1..][r - 1] && Writable(rows[r]);
        }
      }
    }

    /** A file of accepted rows reads back as written exactly when none of its rows leaves its line blank. */
    lemma FileReadsBackExactlyWhen(rows: seq<seq<Option<string>>>)
      requires Supported() && !IsEscape('\n') && NullStringIsApart()
      requires forall r {:trigger rows[r]} | 0 <= r < |rows| :: IsRow(rows[r])
      ensures ReadRows(WriteRows(rows)) == rows <==> forall r | 0 <= r < |rows| :: Writable(rows[r])
    {
      FileReads(rows);
      NotBlankIsAll(rows);
    }

    /** Only one row does: a single empty text, or a single NULL where the NULL string is empty. */
    lemma BlankRowExactlyWhen(row: seq<Option<string>>)
      requires Supported() && IsRow(row)
      ensures !Writable(row) <==> row == [if nullString == "" then None else Some("")]
    {
      if |row| == 1 {
        assert RawFields(row) == [WriteField(row[0]).value];
        if row[0].Some? && WriteField(row[0]).value == "" {
          EscapedOnce(row[0].value);
        }
        EscapedOnce("");
        assert row == [row[0]];
      }
    }

    // The condition is exact.

    /** A NULL string that is not clean ends its field early or runs into the next. */
    lemma {:induction false} UncleanBreaks(s: string, field: string, fields: seq<string>)
      requires Supported() && !Clean(s) && delimiter !in s && !IsEscape('\n')
      requires field != "" || fields != []
      ensures var records := Records(s + "\n", field, fields);
              |records| > 0 && (|records[0]| == |fields| + 1 ==> records[0][|fields|] != field + s)
              && |records[0]| > 0
      ensures |fields| < |Records(s + "\n", field, fields)[0]|
      decreases |s|
    {
      var whole := s + "\n";
      if IsEscape(s[0]) && |s| > 1 {
        assert whole[2..] == s[2..] + "\n" && whole[..2] == s[..2];
        UncleanBreaks(s[2..], field + s[..2], fields);
        assert (field + s[..2]) + s[2..] == field + s;
      } else if IsEscape(s[0]) {
        assert whole[2..] == "" && whole[..2] == whole;
        assert Records(whole, field, fields) == [fields + [field + whole]];
        assert |field + whole| > |field + s|;
      } else if IsLineBreak(s[0]) {
        assert |field| < |field + s|;
      } else {
        assert whole[1..] == s[1..] + "\n";
        UncleanBreaks(s[1..], field + [s[0]], fields);
        assert (field + [s[0]]) + s[1..] == field + s;
      }
    }

    /** With an escaping line feed the end of a row is part of its last field. */
    lemma LineFeedEscapeBreaks()
      requires Supported() && IsEscape('\n')
      ensures exists row :: |row| == 2 && Accepts(row) && ReadRows(WriteRows([row])) != [row]
    {
      var value: Option<string> := if nullString == "" then None else Some("");
      var row := [value, value];
      assert WriteField(value) == Some("");
      var s := [delimiter] + "\n";
      assert row[1..] == [value];
      assert WriteFields(row) == [delimiter];
      assert WriteRows([row][1..]) == "";
      assert WriteRows([row]) == s;
      Steps("\n", "", []);
      assert [] + [""] == [""] && "\n"[1..] == "" && "" + "\n" == "\n";
      assert Records("\n", "", [""]) == Records("", "\n", [""]);
      assert [""] + ["\n"] == ["", "\n"];
      assert Records(s, "", []) == [["", "\n"]];
      var read := ReadRows(s);
      assert read[0][1] == ReadField("\n");
      assert Unescaped("\n") == "\n";
      assert ReadField("\n") != value;
    }

    lemma UncleanNullBreaks()
      requires Supported() && !IsEscape('\n') && !Clean(nullString)
      ensures exists row :: |row| == 2 && Accepts(row) && ReadRows(WriteRows([row])) != [row]
    {
      var row: seq<Option<string>> := [Some(""), None];
      EscapedOnce("");
      assert WriteField(Some("")) == Some("");
      assert row[1..] == [None];
      var s := [delimiter] + (nullString + "\n");
      assert WriteFields(row) == [delimiter] + nullString;
      assert WriteRows([row][1..]) == "";
      assert WriteRows([row]) == s;
      Steps(nullString + "\n", "", []);
      assert [] + [""] == [""];
      UncleanBreaks(nullString, "", [""]);
      var records := Records(s, "", []);
      assert "" + nullString == nullString;
      assert ReadRows(s)[0] == ReadRecord(records[0]);
      assert |records[0]| == 2 ==> ReadRecord(records[0])[1] == ReadField(records[0][1]) != None;
      assert ReadRows(s)[0] != row;
    }

    lemma ClashingNullBreaks(text: string)
      requires Supported() && !IsEscape('\n') && Clean(nullString)
      requires WriteField(Some(text)) == Some(nullString)
      ensures exists row :: |row| == 2 && Accepts(row) && ReadRows(WriteRows([row])) != [row]
    {
      hide Records, Clean, ReadField, WriteField;
      var row: seq<Option<string>> := [Some(text), Some(text)];
      NullIsNull();
      assert row[1..] == [Some(text)];
      var line := nullString + [delimiter] + nullString;
      assert WriteFields(row) == line;
      assert WriteRows([row][1..]) == "";
      assert WriteRows([row]) == line + "\n" + "";
      var after := nullString + "\n";
      assert WriteRows([row]) == nullString + ([delimiter] + after);
      CleanFieldPasses(nullString, [delimiter] + after, "", []);
      assert "" + nullString == nullString && "\n" + "" == "\n" && [] + [nullString] == [nullString];
      Steps(after, nullString, []);
      CleanFieldPasses(nullString, "\n", "", [nullString]);
      Steps("", nullString, [nullString]);
      assert [nullString] + [nullString] == [nullString, nullString];
      assert Records(WriteRows([row]), "", []) == [[nullString, nullString]];
      assert ReadRows(WriteRows([row]))[0][0] == None;
    }

    lemma NullIsNull()
      ensures ReadField(nullString) == None && Records("", "", []) == []
    {
    }

    /** The main result: every file of rows the writer accepts reads back as written, exactly when line feeds are not
        the escape character, the NULL string ends where its field ends, and no other value is written like it. */
    lemma FilesReadBackExactlyWhen()
      requires Supported()
      ensures (forall rows: seq<seq<Option<string>>> :: (forall r {:trigger rows[r]} | 0 <= r < |rows| :: Writable(rows[r])) ==>
                ReadRows(WriteRows(rows)) == rows)
              <==> !IsEscape('\n') && NullStringIsApart()
    {
      hide Records, Unescaped, WriteRows, ReadRows, Replace, WriteFields, EscapedText;
      if !IsEscape('\n') && NullStringIsApart() {
        forall rows: seq<seq<Option<string>>> | forall r {:trigger rows[r]} | 0 <= r < |rows| :: Writable(rows[r])
          ensures ReadRows(WriteRows(rows)) == rows
        {
          FileReadsBackExactlyWhen(rows);
        }
      } else {
        if IsEscape('\n') {
          LineFeedEscapeBreaks();
        } else if !Clean(nullString) {
          UncleanNullBreaks();
        } else {
          ClashingNullBreaks(Unescaped(nullString));
        }
        var row :| |row| == 2 && Accepts(row) && ReadRows(WriteRows([row])) != [row];
        assert Writable(row) && forall r | 0 <= r < 1 :: [row][r] == row;
      }
    }

    /** The false case: that row is a blank line, which reads as no row. */
    lemma EmptyTextIsLost()
      requires Supported() && !IsEscape('\n')
      ensures var row := [if nullString == "" then None else Some("")]; IsRow(row) && ReadRows(WriteRows([row])) == []
    {
      var row: seq<Option<string>> := [if nullString == "" then None else Some("")];
      EscapedOnce("");
      BlankRowExactlyWhen(row);
      BlankPasses(row, "");
      assert WriteRows([row][1..]) == "" && WriteRows([row]) == WriteFields(row) + "\n" + "";
    }
  }
}
