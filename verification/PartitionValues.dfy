/** Partition values: typed in rows and filters, text in Glue and in directory names. */
module PartitionValues {
  import opened Outcomes
  import opened Text
  import opened Escaping

  const DEFAULT_PARTITION := "__HIVE_DEFAULT_PARTITION__"

  datatype KeyType = BigIntKey | BooleanKey | VarcharKey | BlobKey

  datatype Value = Null | IntValue(i: int) | BoolValue(b: bool) | TextValue(s: string) | BlobValue(bytes: string)

  predicate InRange(i: int) {
    -0x8000_0000_0000_0000 <= i < 0x8000_0000_0000_0000
  }

  predicate HasType(v: Value, t: KeyType) {
    match v
    case Null => true
    case IntValue(i) => t == BigIntKey && InRange(i)
    case BoolValue(_) => t == BooleanKey
    case TextValue(_) => t == VarcharKey
    case BlobValue(bytes) => t == BlobKey && forall i :: 0 <= i < |bytes| ==> bytes[i] as int < 256
  }

  function Render(v: Value): string {
    match v
    case Null => DEFAULT_PARTITION
    case IntValue(i) => IntToString(i)
    case BoolValue(b) => if b then "true" else "false"
    case TextValue(s) => s
    case BlobValue(bytes) => BLOB_TEXT.Encode(bytes)
  }

  /** The casts of DuckDB; None is a value the type can not hold. */
  function Cast(text: string, t: KeyType): Option<Value> {
    match t
    case VarcharKey => Some(TextValue(text))
    case BigIntKey =>
      (match ParseInt(text)
       case Some(i) => if InRange(i) then Some(IntValue(i)) else None
       case None => None)
    case BooleanKey =>
      if Lower(text) in {"true", "t", "1"} then Some(BoolValue(true))
      else if Lower(text) in {"false", "f", "0"} then Some(BoolValue(false))
      else None
    case BlobKey =>
      (match BLOB_TEXT.Decode(text)
       case Some(bytes) => Some(BlobValue(bytes))
       case None => None)
  }

  /** The spellings a NULL partition value arrives as. */
  predicate ReadsAsNull(text: string, t: KeyType) {
    text == DEFAULT_PARTITION || (t != VarcharKey && (EqualIgnoringCase(text, "NULL") || text == ""))
  }

  function PartitionValue(text: string, t: KeyType): Option<Value> {
    if ReadsAsNull(text, t) then Some(Null) else Cast(text, t)
  }

  /** The rows an INSERT refuses: a value that is not NULL but would read back as NULL. Only text and binary keys are
      checked. */
  predicate RefusedAsNull(v: Value, t: KeyType) {
    v != Null && (t == VarcharKey || t == BlobKey) &&
    (Render(v) == DEFAULT_PARTITION || (t == BlobKey && (Lower(Render(v)) == "null" || Render(v) == "")))
  }

  lemma IntIsNoNull(i: int)
    ensures !ReadsAsNull(IntToString(i), BigIntKey)
  {
    var s := IntToString(i);
    assert IsDigit(s[0]) || s[0] == '-';
    assert Lower(s)[0] == LowerChar(s[0]);
    assert Lower("NULL")[0] == 'n';
    assert DEFAULT_PARTITION[0] == '_';
  }

  lemma BoolIsNoNull(b: bool)
    ensures !ReadsAsNull(Render(BoolValue(b)), BooleanKey)
    ensures Cast(Render(BoolValue(b)), BooleanKey) == Some(BoolValue(b))
  {
    assert Lower("true") == "true" && Lower("false") == "false";
    assert Lower("NULL")[0] == 'n';
    assert Lower("true")[0] == 't' && Lower("false")[0] == 'f';
  }

  /** The check is exact: a value's stored text reads back as the value if and only if the INSERT accepts it. */
  lemma StoredTextReadsBack(v: Value, t: KeyType)
    requires HasType(v, t)
    ensures PartitionValue(Render(v), t) == Some(v) <==> !RefusedAsNull(v, t)
  {
    assert Lower("NULL") == "null";
    match v
    case Null =>
    case IntValue(i) =>
      ParseOfInt(i);
      IntIsNoNull(i);
    case BoolValue(b) => BoolIsNoNull(b);
    case TextValue(s) =>
    case BlobValue(bytes) => BLOB_TEXT.DecodeOfEncode(bytes);
  }

  // Texts that INSERTs do not write.

  lemma {:induction false} DigitsAfter(zeros: string, digits: string)
    requires (forall i | 0 <= i < |zeros| :: zeros[i] == '0') && AllDigits(digits)
    ensures AllDigits(zeros + digits) && ParseDigits(zeros + digits) == ParseDigits(digits)
    decreases |digits|
  {
    if digits == "" {
      assert zeros + digits == zeros;
      ZerosAreZero(zeros);
    } else {
      var front, whole := digits[..|digits| - 1], zeros + digits;
      DigitsAfter(zeros, front);
      assert whole[..|whole| - 1] == zeros + front;
    }
  }

  lemma {:induction false} ZerosAreZero(zeros: string)
    requires forall i | 0 <= i < |zeros| :: zeros[i] == '0'
    ensures ParseDigits(zeros) == 0
  {
    if zeros != "" {
      ZerosAreZero(zeros[..|zeros| - 1]);
    }
  }

  /** Leading zeros do not count, with and without a sign; a number of more than 64 bits is refused. */
  lemma PaddedNumberReads(zeros: string, n: nat)
    requires forall i | 0 <= i < |zeros| :: zeros[i] == '0'
    ensures PartitionValue(zeros + NatToString(n), BigIntKey) == if n < 0x8000_0000_0000_0000 then Some(IntValue(n)) else None
    ensures PartitionValue("-" + (zeros + NatToString(n)), BigIntKey) ==
            if n <= 0x8000_0000_0000_0000 then Some(IntValue(0 - n)) else None
  {
    hide NatToString, ParseDigits;
    var digits := zeros + NatToString(n);
    DigitsAfter(zeros, NatToString(n));
    ParseOfNat(n);
    assert IsDigit(digits[0]) && ("-" + digits)[0] == '-' && ("-" + digits)[1..] == digits;
    assert Lower(digits)[0] == digits[0] && Lower("-" + digits)[0] == '-' && Lower("NULL")[0] == 'n';
    assert DEFAULT_PARTITION[0] == '_';
  }

  /** Anything but digits, with one sign before them, is no number. */
  lemma NoNumber(text: string, i: nat)
    requires i < |text| && !IsDigit(text[i]) && (i > 0 || text[0] != '-')
    requires text != DEFAULT_PARTITION && Lower(text) != "null"
    ensures PartitionValue(text, BigIntKey) == None
  {
    assert Lower("NULL") == "null";
    if i > 0 {
      assert text[1..][i - 1] == text[i];
    }
  }

  /** A boolean is read from its name, its first letter or a digit, in any case, and from nothing else. */
  lemma BooleanReads(text: string)
    ensures PartitionValue(text, BooleanKey) ==
            if text == DEFAULT_PARTITION || Lower(text) == "null" || text == "" then Some(Null)
            else if Lower(text) in {"true", "t", "1"} then Some(BoolValue(true))
            else if Lower(text) in {"false", "f", "0"} then Some(BoolValue(false))
            else None
  {
    assert Lower("NULL") == "null";
  }

  /** A NULL is the default partition's name, and for keys that are not text nothing or NULL in any case. */
  lemma NullReads(text: string, t: KeyType)
    ensures PartitionValue(text, t) == Some(Null) <==>
            text == "__HIVE_DEFAULT_PARTITION__" || (t != VarcharKey && (Lower(text) == "null" || text == ""))
    ensures t == VarcharKey && text != "__HIVE_DEFAULT_PARTITION__" ==> PartitionValue(text, t) == Some(TextValue(text))
  {
    assert Lower("NULL") == "null";
  }
}
