/** Fields of OpenCSVSerde files: written between quotes, read by a csv reader, and freed of the escape character that
    reader does not apply. */
module OpenCsv {
  import opened Outcomes
  import opened TextRows

  /** separatorChar, quoteChar and escapeChar, if the table records one. */
  datatype Csv = Csv(separator: char, quote: char, escapeChar: Option<char>) {
    predicate Supported() {
      !IsLineBreak(separator) && !IsLineBreak(quote) && separator != quote && escapeChar != Some(separator) &&
      (escapeChar.Some? ==> !IsLineBreak(escapeChar.value))
    }

    /** What the csv reader and writer escape with: the quote unless the table says otherwise. */
    function Escape(): char {
      match escapeChar
      case None => quote
      case Some(c) => c
    }

    /** The escape character that is dropped after the csv reader: OpenCSVSerde's '\', where the table has no
        escapeChar and '\' means nothing else. */
    predicate DropsEscape() {
      escapeChar.None? && separator != '\\' && quote != '\\'
    }

    // Writing.

    /** Puts the csv writer's escape character before quotes and itself. */
    function InQuotes(text: string): string {
      if text == "" then ""
      else (if text[0] == quote || text[0] == Escape() then [Escape(), text[0]] else [text[0]]) + InQuotes(text[1..])
    }

    function FieldText(text: string): string {
      if DropsEscape() then Dialect.Replace(text, '\\', '\\') else text
    }

    /** NULL is written as an empty field, every value between quotes. */
    function WriteField(value: Option<string>): Option<string> {
      match value
      case None => Some("")
      case Some(text) =>
        if exists i | 0 <= i < |text| :: IsLineBreak(text[i]) then None
        else Some([quote] + InQuotes(FieldText(text)) + [quote])
    }

    /** Every NULL, and every text without a line break. */
    lemma AcceptedExactlyWhen(value: Option<string>)
      ensures WriteField(value).Some? <==> (value.Some? ==> '\n' !in value.value && '\r' !in value.value)
    {
      if value.Some? {
        assert forall i | 0 <= i < |value.value| :: value.value[i] in value.value;
      }
    }

    /** What is written for a text stands between quotes, itself when it has nothing to escape. */
    lemma {:induction false} PlainIsVerbatim(text: string)
      requires quote !in text && Escape() !in text && '\\' !in text && '\n' !in text && '\r' !in text
      ensures WriteField(Some(text)) == Some([quote] + text + [quote])
    {
      AcceptedExactlyWhen(Some(text));
      Dialect.NothingReplaced(text, '\\', '\\');
      NothingInQuotes(text);
    }

    lemma {:induction false} NothingInQuotes(text: string)
      requires quote !in text && Escape() !in text
      ensures InQuotes(text) == text
    {
      if text != "" {
        NothingInQuotes(text[1..]);
        assert [text[0]] + text[1..] == text;
      }
    }

    predicate Accepts(row: seq<Option<string>>) {
      row != [] && forall k | 0 <= k < |row| :: WriteField(row[k]).Some?
    }

    function WriteFields(row: seq<Option<string>>): string
      requires Accepts(row)
    {
      var field := WriteField(row[0]).value;
      if |row| == 1 then field + "\n"
      else
        assert forall k | 0 <= k < |row| - 1 :: row[1..][k] == row[k + 1];
        field + [separator] + WriteFields(row[1..])
    }

    // Reading.

    /** The text up to the closing quote, and what follows it; None is a quote that is not closed. */
    function Quoted(s: string): (r: Option<(string, string)>)
      ensures r.Some? ==> |r.value.1| < |s|
      decreases |s|
    {
      if s == "" then None
      else if s[0] == Escape() && |s| > 1 && (s[1] == quote || s[1] == Escape()) then
        (match Quoted(s[2..])
         case None => None
         case Some((text, rest)) => Some(([s[1]] + text, rest)))
      else if s[0] == quote then Some(("", s[1..]))
      else
        (match Quoted(s[1..])
         case None => None
         case Some((text, rest)) => Some(([s[0]] + text, rest)))
    }

    /** The text of a field without quotes. */
    function Unquoted(s: string): (r: (string, string))
      ensures |r.1| <= |s|
    {
      if s == "" || s[0] == separator || IsLineBreak(s[0]) then ("", s)
      else
        var (text, rest) := Unquoted(s[1..]);
        ([s[0]] + text, rest)
    }

    function Field(s: string): (r: Option<(string, string)>)
      ensures r.Some? ==> |r.value.1| <= |s|
    {
      if s != "" && s[0] == quote then Quoted(s[1..]) else Some(Unquoted(s))
    }

    /** The fields of a row, and the rows after it. */
    function Fields(s: string): Option<(seq<string>, string)>
      decreases |s|
    {
      match Field(s)
      case None => None
      case Some((text, rest)) =>
        if rest == "" || IsLineBreak(rest[0]) then Some(([text], if rest == "" then "" else rest[1..]))
        else if rest[0] != separator then None
        else match Fields(rest[1..])
          case None => None
          case Some((more, left)) => Some(([text] + more, left))
    }

    /** Drops escape characters from left to right: an escape or a quote after one is kept. */
    function Dropped(text: string): string {
      if text == "" then ""
      else if text[0] != '\\' then [text[0]] + Dropped(text[1..])
      else if |text| > 1 && (text[1] == '\\' || text[1] == quote) then [text[1]] + Dropped(text[2..])
      else Dropped(text[1..])
    }

    function ReadText(text: string): string {
      if DropsEscape() then Dropped(text) else text
    }

    function ReadTexts(texts: seq<string>): seq<string> {
      seq(|texts|, k requires 0 <= k < |texts| => ReadText(texts[k]))
    }

    // Reading undoes writing.

    /** Doubled escape characters are dropped once. */
    lemma {:induction false} DroppedOfDoubled(text: string)
      requires quote != '\\'
      ensures Dropped(Dialect.Replace(text, '\\', '\\')) == text
    {
      if text != "" {
        var rest := Dialect.Replace(text[1..], '\\', '\\');
        DroppedOfDoubled(text[1..]);
        assert [text[0]] + text[1..] == text;
        if text[0] == '\\' {
          assert (['\\', '\\'] + rest)[2..] == rest;
        } else {
          assert ([text[0]] + rest)[1..] == rest;
        }
      }
    }

    /** What is dropped is never more than there is: a text without escape characters stays, and none is left unpaired. */
    lemma {:induction false} DroppedOnlyEscapes(text: string)
      ensures '\\' !in text ==> Dropped(text) == text
      ensures |Dropped(text)| <= |text|
      decreases |text|
    {
      if text != "" {
        DroppedOnlyEscapes(text[1..]);
        assert [text[0]] + text[1..] == text;
        if |text| > 1 {
          DroppedOnlyEscapes(text[2..]);
        }
      }
    }

    lemma {:induction false} QuotedReads(text: string, rest: string)
      requires rest != "" ==> rest[0] != quote && rest[0] != Escape()
      ensures Quoted(InQuotes(text) + ([quote] + rest)) == Some((text, rest))
    {
      var tail := [quote] + rest;
      if text == "" {
        assert InQuotes(text) + tail == tail && tail[1..] == rest;
        assert |tail| > 1 ==> tail[1] == rest[0];
      } else {
        QuotedReads(text[1..], rest);
        var inner := InQuotes(text[1..]) + tail;
        assert [text[0]] + text[1..] == text;
        var head := if text[0] == quote || text[0] == Escape() then [Escape(), text[0]] else [text[0]];
        var s := InQuotes(text) + tail;
        assert s == head + inner;
        assert s[|head|..] == inner;
      }
    }

    function TextOf(value: Option<string>): string {
      match value
      case None => ""
      case Some(text) => text
    }

    lemma FieldReads(value: Option<string>, rest: string)
      requires Supported() && WriteField(value).Some? && rest != "" && (rest[0] == separator || rest[0] == '\n')
      ensures Field(WriteField(value).value + rest).Some?
      ensures var (text, left) := Field(WriteField(value).value + rest).value;
              ReadText(text) == TextOf(value) && left == rest
    {
      match value
      case None =>
        assert "" + rest == rest;
      case Some(text) =>
        var written := InQuotes(FieldText(text)) + ([quote] + rest);
        var s := WriteField(value).value + rest;
        assert s == [quote] + written && s[1..] == written;
        QuotedReads(FieldText(text), rest);
        if DropsEscape() {
          DroppedOfDoubled(text);
        }
    }

    // Files that others wrote.

    /** A backslash is dropped unless the table has an escape character of its own, or a backslash has another part. */
    lemma BackslashReads(c: char)
      requires c != '\\' && c != quote
      ensures ReadText(['\\', c]) == if escapeChar == None && separator != '\\' && quote != '\\' then [c] else ['\\', c]
    {
      assert ['\\', c][1..] == [c] && [c][1..] == "" && [c] + "" == [c];
      assert Dropped([c]) == [c];
    }

    predicate PlainText(text: string) {
      (text != "" ==> text[0] != quote) && forall i | 0 <= i < |text| :: text[i] != separator && !IsLineBreak(text[i])
    }

    /** A field without quotes ends at the next separator, line break, or the end of the file. */
    lemma {:induction false} UnquotedReads(text: string, rest: string)
      requires forall i | 0 <= i < |text| :: text[i] != separator && !IsLineBreak(text[i])
      requires rest == "" || rest[0] == separator || IsLineBreak(rest[0])
      ensures Unquoted(text + rest) == (text, rest)
    {
      if text == "" {
        assert text + rest == rest;
      } else {
        assert (text + rest)[1..] == text[1..] + rest;
        UnquotedReads(text[1..], rest);
        assert [text[0]] + text[1..] == text;
      }
    }

    /** The last field of a row may end with the file, and a separator goes on with the next. */
    lemma PlainFieldReads(text: string, next: string, rest: string)
      requires Supported() && PlainText(text)
      ensures Fields(text) == Some(([text], ""))
      ensures forall c | IsLineBreak(c) :: Fields(text + ([c] + rest)) == Some(([text], rest))
      ensures PlainText(next) ==> Fields(text + ([separator] + next)) == Some(([text, next], ""))
    {
      assert text + "" == text && (text != "" ==> text[0] != quote);
      UnquotedReads(text, "");
      forall c | IsLineBreak(c)
        ensures Fields(text + ([c] + rest)) == Some(([text], rest))
      {
        UnquotedReads(text, [c] + rest);
        assert (text + ([c] + rest))[0] == if text == "" then c else text[0];
        assert ([c] + rest)[1..] == rest;
      }
      if PlainText(next) {
        assert next + "" == next;
        UnquotedReads(next, "");
        UnquotedReads(text, [separator] + next);
        assert (text + ([separator] + next))[0] == if text == "" then separator else text[0];
        assert ([separator] + next)[1..] == next && [text] + [next] == [text, next];
        assert Field(next) == Some((next, "")) && Fields(next) == Some(([next], ""));
      }
    }

    /** Text after a closing quote is refused. */
    lemma NothingAfterQuote(text: string, c: char, rest: string)
      requires c != quote && c != Escape() && c != separator && !IsLineBreak(c)
      ensures Fields([quote] + (InQuotes(text) + ([quote] + ([c] + rest)))) == None
    {
      var inner := InQuotes(text) + ([quote] + ([c] + rest));
      QuotedReads(text, [c] + rest);
      assert ([quote] + inner)[1..] == inner;
    }

    /** The main result: every row of values without line breaks reads back, a NULL as an empty text. */
    lemma {:induction false} RowReads(row: seq<Option<string>>, rest: string)
      requires Supported() && Accepts(row)
      ensures Fields(WriteFields(row) + rest).Some?
      ensures var (texts, left) := Fields(WriteFields(row) + rest).value;
              && left == rest && |texts| == |row|
              && forall k | 0 <= k < |row| :: ReadTexts(texts)[k] == TextOf(row[k])
      decreases |row|
    {
      hide Field, WriteField, ReadText;
      var field := WriteField(row[0]).value;
      if |row| == 1 {
        assert WriteFields(row) + rest == field + ("\n" + rest);
        FieldReads(row[0], "\n" + rest);
        assert ("\n" + rest)[1..] == rest;
      } else {
        var tail := row[1..];
        assert forall k | 0 <= k < |tail| :: tail[k] == row[k + 1];
        var after := WriteFields(tail) + rest;
        assert WriteFields(row) + rest == field + ([separator] + after);
        FieldReads(row[0], [separator] + after);
        assert ([separator] + after)[1..] == after;
        RowReads(tail, rest);
        var texts := Fields(after).value.0;
        forall k | 0 <= k < |row|
          ensures ReadTexts(Fields(WriteFields(row) + rest).value.0)[k] == TextOf(row[k])
        {
          if k > 0 {
            assert ReadTexts(texts)[k - 1] == TextOf(tail[k - 1]);
          }
        }
      }
    }
  }
}
