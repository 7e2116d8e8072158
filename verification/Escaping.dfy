/** Bytes written as a marker and two hexadecimal digits: percent-encoding in partition directories (section 2.1 of
    RFC 3986), and the text form of binary values. */
module Escaping {
  import opened Outcomes
  import opened Text

  const HEX := "0123456789ABCDEF"

  function HexDigit(n: nat): (c: char)
    requires n < 16
    ensures HexValue(c) == Some(n)
  {
    HEX[n]
  }

  function HexValue(c: char): Option<nat> {
    if '0' <= c <= '9' then Some(c as int - '0' as int)
    else if 'A' <= c <= 'F' then Some(c as int - 'A' as int + 10)
    else if 'a' <= c <= 'f' then Some(c as int - 'a' as int + 10)
    else None
  }

  /** Which characters are written as they are, and the marker the others are written with. */
  datatype Codec = Codec(marker: string, safe: set<char>, strict: bool) {
    predicate Valid() {
      marker != "" && marker[0] !in safe && marker[0] as int < 256
    }

    predicate Plain(c: char) {
      c in safe || c as int >= 256
    }

    function EncodeChar(c: char): string {
      if Plain(c) then [c] else marker + [HexDigit(c as int / 16), HexDigit(c as int % 16)]
    }

    function Encode(s: string): string {
      if s == "" then "" else EncodeChar(s[0]) + Encode(s[1..])
    }

    /** The character an escape at the start of s stands for. */
    function Escape(s: string): Option<char> {
      var n := |marker|;
      if !StartsWith(s, marker) || |s| < n + 2 then None
      else match (HexValue(s[n]), HexValue(s[n + 1]))
        case (Some(high), Some(low)) => Some((16 * high + low) as char)
        case _ => None
    }

    /** An escape that is not followed by two digits fails when strict, and stands for itself otherwise. */
    function Decode(s: string): Option<string>
      decreases |s|
    {
      if s == "" then Some("")
      else match Escape(s)
        case Some(c) =>
          if |marker| + 2 <= |s| then Prepend(c, Decode(s[|marker| + 2..])) else None
        case None =>
          if strict && s[0] !in safe then None else Prepend(s[0], Decode(s[1..]))
    }

    static function Prepend(c: char, rest: Option<string>): Option<string> {
      match rest
      case None => None
      case Some(r) => Some([c] + r)
    }

    lemma EscapeOfEncoded(c: char, rest: string)
      requires Valid()
      ensures Plain(c) ==> Escape(EncodeChar(c) + rest) == None
      ensures !Plain(c) ==> Escape(EncodeChar(c) + rest) == Some(c)
      ensures !Plain(c) ==> |marker| + 2 <= |EncodeChar(c) + rest|
      ensures !Plain(c) ==> (EncodeChar(c) + rest)[|marker| + 2..] == rest
    {
      var n, whole := |marker|, EncodeChar(c) + rest;
      if Plain(c) {
        assert whole[0] == c && c != marker[0];
        assert |whole| >= n ==> whole[..n][0] != marker[0];
      } else {
        var high, low := c as int / 16, c as int % 16;
        assert whole == marker + [HexDigit(high), HexDigit(low)] + rest;
        assert whole[..n] == marker && whole[n] == HexDigit(high) && whole[n + 1] == HexDigit(low);
        assert 16 * high + low == c as int;
      }
    }

    /** Decoding undoes encoding. */
    lemma {:induction false} DecodeOfEncode(s: string)
      requires Valid()
      requires strict ==> forall i :: 0 <= i < |s| ==> s[i] as int < 256
      ensures Decode(Encode(s)) == Some(s)
      decreases |s|
    {
      if s != "" {
        var c, rest := s[0], Encode(s[1..]);
        DecodeOfEncode(s[1..]);
        EscapeOfEncoded(c, rest);
        var whole := EncodeChar(c) + rest;
        assert Encode(s) == whole;
        if Plain(c) {
          assert whole[0] == c && whole[1..] == rest;
        }
        assert [c] + s[1..] == s;
      }
    }

    lemma {:induction false} EncodeUses(s: string, c: char)
      requires c as int < 256 && c !in safe && c !in marker && c !in HEX
      ensures c !in Encode(s)
      decreases |s|
    {
      if s != "" {
        EncodeUses(s[1..], c);
        if !Plain(s[0]) {
          var high, low := HexDigit(s[0] as int / 16), HexDigit(s[0] as int % 16);
          assert high in HEX && low in HEX;
        }
      }
    }

    lemma {:induction false} EncodeOfSafe(s: string)
      requires forall c :: c in s ==> c in safe
      ensures Encode(s) == s
      decreases |s|
    {
      if s != "" {
        EncodeOfSafe(s[1..]);
        assert s[0] in s;
      }
    }
  }

  const ALPHANUMERIC: set<char> :=
    set c: char | 'a' <= c <= 'z' || 'A' <= c <= 'Z' || '0' <= c <= '9'

  const PERCENT := Codec("%", ALPHANUMERIC + {'-', '_', '.', '~'}, false)
  const BLOB_TEXT := Codec("\\x", (set c: char | ' ' <= c <= '~') - {'\\', '\'', '"'}, true)

  predicate IsHex(c: char) {
    '0' <= c <= '9' || 'A' <= c <= 'F' || 'a' <= c <= 'f'
  }

  /** Letters, digits and four marks stay in a directory name; any other byte is a percent sign and two capital
      hexadecimal digits. */
  lemma PercentWrites(c: char)
    requires c as int < 256
    ensures PERCENT.Encode([c]) ==
            if 'a' <= c <= 'z' || 'A' <= c <= 'Z' || '0' <= c <= '9' || c in "-_.~" then [c]
            else "%" + ["0123456789ABCDEF"[c as int / 16], "0123456789ABCDEF"[c as int % 16]]
  {
    var marks := "-_.~";
    assert marks[0] == '-' && marks[1] == '_' && marks[2] == '.' && marks[3] == '~';
    assert [c][1..] == "" && PERCENT.Encode("") == "" && PERCENT.EncodeChar(c) + "" == PERCENT.EncodeChar(c);
  }

  /** Binary values stay readable up to quotes and backslashes; any other byte is a backslash, an x and two digits. */
  lemma BlobWrites(c: char)
    requires c as int < 256
    ensures BLOB_TEXT.Encode([c]) ==
            if ' ' <= c <= '~' && c != '\\' && c != '\'' && c != '"' then [c]
            else "\\x" + ["0123456789ABCDEF"[c as int / 16], "0123456789ABCDEF"[c as int % 16]]
  {
    assert [c][1..] == "" && BLOB_TEXT.Encode("") == "" && BLOB_TEXT.EncodeChar(c) + "" == BLOB_TEXT.EncodeChar(c);
  }

  lemma PercentEscape(s: string)
    ensures PERCENT.Escape("%" + s) ==
            if |s| >= 2 && IsHex(s[0]) && IsHex(s[1])
            then Some((16 * HexValue(s[0]).value + HexValue(s[1]).value) as char)
            else None
  {
    var whole := "%" + s;
    assert whole[..1] == "%" && (|s| >= 2 ==> whole[1] == s[0] && whole[2] == s[1]);
  }

  /** In a directory name an escape is read in either case of its digits, and a percent sign without one stays. */
  lemma PercentReads(s: string)
    ensures PERCENT.Decode("%" + s) ==
            if |s| >= 2 && IsHex(s[0]) && IsHex(s[1])
            then Codec.Prepend((16 * HexValue(s[0]).value + HexValue(s[1]).value) as char, PERCENT.Decode(s[2..]))
            else Codec.Prepend('%', PERCENT.Decode(s))
  {
    hide Codec.Escape, HexValue;
    var whole := "%" + s;
    PercentEscape(s);
    HexReads(if |s| > 0 then s[0] else '0');
    HexReads(if |s| > 1 then s[1] else '0');
    assert whole[0] == '%' && whole[1..] == s && (|s| >= 2 ==> whole[3..] == s[2..]);
  }

  lemma BlobEscape(c: char, rest: string)
    requires c != '\\' || !(|rest| >= 3 && rest[0] == 'x' && IsHex(rest[1]) && IsHex(rest[2]))
    ensures BLOB_TEXT.Escape([c] + rest) == None
  {
    var whole := [c] + rest;
    assert whole[0] == c && forall i | 0 <= i < |rest| :: whole[i + 1] == rest[i];
    assert |whole| >= 2 ==> whole[..2][0] == c && whole[..2][1] == rest[0];
    assert "\\x"[0] == '\\' && "\\x"[1] == 'x';
  }

  /** In a binary value's text everything else is refused: quotes, other bytes, and a backslash without an escape. */
  lemma BlobRefuses(c: char, rest: string)
    requires !(' ' <= c <= '~') || c == '\'' || c == '"' ||
             (c == '\\' && !(|rest| >= 3 && rest[0] == 'x' && IsHex(rest[1]) && IsHex(rest[2])))
    ensures BLOB_TEXT.Decode([c] + rest) == None
  {
    hide Codec.Escape;
    BlobEscape(c, rest);
    assert ([c] + rest)[0] == c;
  }

  lemma HexReads(c: char)
    ensures HexValue(c).Some? <==> IsHex(c)
    ensures IsHex(c) ==> HexValue(LowerChar(c)) == HexValue(c)
    ensures IsHex(c) ==> "0123456789ABCDEF"[HexValue(c).value] == if 'a' <= c <= 'f' then c - 'a' + 'A' else c
  {
  }
}
