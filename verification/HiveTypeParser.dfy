/** The recursive descent parser for type strings: it moves a position through its input. */
module HiveTypeParser {
  import opened Outcomes
  import opened Text
  import opened HiveTypes

  class GlueTypeParser {
    const input: string
    var pos: nat

    constructor (input: string)
      ensures this.input == input && pos == 0
    {
      this.input, pos := input, 0;
    }

    ghost predicate Valid()
      reads this
    {
      pos <= |input|
    }

    /** What is still to be read. */
    ghost function Rest(): string
      requires Valid()
      reads this
    {
      input[pos..]
    }

    method SkipWhitespace()
      requires Valid()
      modifies this
      ensures Valid() && pos >= old(pos) && Rest() == SkipSpace(old(Rest()))
    {
      while pos < |input| && IsSpace(input[pos])
        invariant Valid() && pos >= old(pos) && SkipSpace(Rest()) == SkipSpace(old(Rest()))
      {
        assert input[pos..][1..] == input[pos + 1..];
        pos := pos + 1;
      }
    }

    method Peek(c: char) returns (found: bool)
      requires Valid()
      modifies this
      ensures Valid() && pos >= old(pos) && Rest() == SkipSpace(old(Rest()))
      ensures found <==> Rest() != "" && Rest()[0] == c
    {
      SkipWhitespace();
      found := pos < |input| && input[pos] == c;
    }

    /** Moves past the character if it is next. */
    method Accept(c: char) returns (ok: bool)
      requires Valid()
      modifies this
      ensures Valid() && pos >= old(pos) && (ok ==> pos > old(pos))
      ensures Expect(old(Rest()), c) == if ok then Some(Rest()) else None
      ensures !ok ==> Rest() == SkipSpace(old(Rest()))
    {
      ok := Peek(c);
      if ok {
        assert input[pos..][1..] == input[pos + 1..];
        pos := pos + 1;
      }
    }

    /** Moves to the first of some characters; returns what was passed. */
    method ReadUntil(stops: char -> bool) returns (word: string)
      requires Valid()
      modifies this
      ensures Valid() && pos >= old(pos)
      ensures var n := Until(old(Rest()), stops); word == old(Rest())[..n] && Rest() == old(Rest())[n..]
    {
      var start := pos;
      while pos < |input| && !stops(input[pos])
        invariant start <= pos <= |input|
        invariant Until(old(Rest()), stops) == Until(Rest(), stops) + pos - start
      {
        assert input[pos..][1..] == input[pos + 1..];
        pos := pos + 1;
      }
      word := input[start..pos];
    }

    method ReadIdentifier() returns (r: Option<string>)
      requires Valid()
      modifies this
      ensures Valid() && pos >= old(pos)
      ensures match Identifier(old(Rest()))
              case None => r == None
              case Some((name, rest)) => r == Some(name) && Rest() == rest && pos > old(pos)
    {
      SkipWhitespace();
      var name := ReadUntil(EndsIdentifier);
      r := if name == "" then None else Some(name);
    }

    method ReadFieldName() returns (r: Option<string>)
      requires Valid()
      modifies this
      ensures Valid() && pos >= old(pos)
      ensures Reads(FieldName(old(Rest())), r)
    {
      hide QuotedName, PlainName, SkipSpace;
      SkipWhitespace();
      if pos < |input| && input[pos] == '`' {
        assert input[pos..][1..] == input[pos + 1..];
        pos := pos + 1;
        r := ReadQuoted();
      } else {
        r := ReadPlain();
      }
    }

    method ReadQuoted() returns (r: Option<string>)
      requires Valid()
      modifies this
      ensures Valid() && pos >= old(pos) && Reads(QuotedName(old(Rest())), r)
    {
      var quoted := ReadUntil(EndsQuoted);
      if pos >= |input| {
        return None;
      }
      assert input[pos..][1..] == input[pos + 1..];
      pos := pos + 1;
      r := Some(quoted);
    }

    method ReadPlain() returns (r: Option<string>)
      requires Valid()
      modifies this
      ensures Valid() && pos >= old(pos) && Reads(PlainName(old(Rest())), r)
    {
      var text := ReadUntil(EndsField);
      var name := TrimSpace(text);
      r := if name == "" then None else Some(name);
    }

    method ReadInteger() returns (r: Option<nat>)
      requires Valid()
      modifies this
      ensures Valid() && pos >= old(pos)
      ensures Reads(Number(old(Rest())), r)
    {
      SkipWhitespace();
      var digits := ReadUntil(EndsNumber);
      if digits == "" {
        return None;
      }
      var n := ParseDigits(digits);
      r := if n > MAX_INT64 then None else Some(n);
    }

    /** The contract of the readers below: they read what the string means, and move past it. */
    ghost predicate Reads<T(!new)>(spec: Parsed<T>, r: Option<T>)
      requires Valid()
      reads this
    {
      match spec
      case None => r == None
      case Some((value, rest)) => r == Some(value) && Rest() == rest
    }

    method ReadScale() returns (r: Option<nat>)
      requires Valid()
      modifies this
      ensures Valid() && pos >= old(pos) && Reads(Scale(old(Rest())), r)
    {
      var comma := Accept(',');
      if !comma {
        return Some(0);
      }
      r := ReadInteger();
    }

    method ParseDecimal() returns (r: Option<HiveType>)
      requires Valid()
      modifies this
      ensures Valid() && pos >= old(pos) && Reads(DecimalOf(old(Rest())), r)
    {
      hide Number, Scale, Expect, SkipSpace;
      var open := Accept('(');
      if !open {
        return Some(Decimal(10, 0));
      }
      var width := ReadInteger();
      if width.None? {
        return None;
      }
      var scale := ReadScale();
      if scale.None? {
        return None;
      }
      var closed := Accept(')');
      if !closed || width.value < 1 || width.value > MAX_WIDTH_DECIMAL || scale.value > width.value {
        return None;
      }
      r := Some(Decimal(width.value, scale.value));
    }

    method ParseLength() returns (r: Option<HiveType>)
      requires Valid()
      modifies this
      ensures Valid() && pos >= old(pos) && Reads(LengthOf(old(Rest())), r)
    {
      hide Number, Expect, SkipSpace;
      var open := Accept('(');
      if !open {
        return Some(Varchar);
      }
      var length := ReadInteger();
      if length.None? {
        return None;
      }
      var closed := Accept(')');
      r := if closed then Some(Varchar) else None;
    }

    method ParseType() returns (r: Option<HiveType>)
      requires Valid()
      modifies this
      ensures Valid() && pos >= old(pos) && Reads(TypeOf(old(Rest())), r)
      decreases |input| - pos, 1
    {
      hide Classify, Identifier, DecimalOf, LengthOf, ListOf, MapOf, StructOf;
      var name := ReadIdentifier();
      if name.None? {
        return None;
      }
      match Classify(Lower(name.value))
      case ArrayWord => r := ParseList();
      case MapWord => r := ParseMap();
      case StructWord => r := ParseStruct();
      case DecimalWord => r := ParseDecimal();
      case CharWord => r := ParseLength();
      case TypeWord(t) => r := Some(t);
      case UnknownWord => r := None;
    }

    method ParseList() returns (r: Option<HiveType>)
      requires Valid()
      modifies this
      ensures Valid() && pos >= old(pos) && Reads(ListOf(old(Rest())), r)
      decreases |input| - pos, 2
    {
      hide TypeOf, Expect, SkipSpace;
      var open := Accept('<');
      if !open {
        return None;
      }
      var child := ParseType();
      if child.None? {
        return None;
      }
      var closed := Accept('>');
      r := if closed then Some(List(child.value)) else None;
    }

    method ParseMap() returns (r: Option<HiveType>)
      requires Valid()
      modifies this
      ensures Valid() && pos >= old(pos) && Reads(MapOf(old(Rest())), r)
      decreases |input| - pos, 2
    {
      hide TypeOf, Expect, SkipSpace;
      ghost var s := Rest();
      var open := Accept('<');
      if !open {
        return None;
      }
      ghost var a := Rest();
      var key := ParseType();
      if key.None? {
        assert TypeOf(a) == None;
        return None;
      }
      ghost var b := Rest();
      assert Expect(s, '<') == Some(a) && TypeOf(a) == Some((key.value, b));
      var comma := Accept(',');
      if !comma {
        return None;
      }
      ghost var c := Rest();
      var value := ParseType();
      if value.None? {
        assert Expect(b, ',') == Some(c) && TypeOf(c) == None;
        return None;
      }
      ghost var d := Rest();
      assert Expect(b, ',') == Some(c) && TypeOf(c) == Some((value.value, d));
      var closed := Accept('>');
      r := if closed then Some(Map(key.value, value.value)) else None;
    }

    method ParseStruct() returns (r: Option<HiveType>)
      requires Valid()
      modifies this
      ensures Valid() && pos >= old(pos) && Reads(StructOf(old(Rest())), r)
      decreases |input| - pos, 2
    {
      hide FieldsOf, Expect, SkipSpace;
      var open := Accept('<');
      if !open {
        return None;
      }
      var children := ParseFields();
      if children.None? {
        return None;
      }
      var closed := Accept('>');
      r := if closed then Some(Struct(children.value)) else None;
    }

    /** One or more fields with commas between them. */
    method ParseFields() returns (r: Option<seq<Field>>)
      requires Valid()
      modifies this
      ensures Valid() && pos >= old(pos) && Reads(FieldsOf(old(Rest())), r)
      decreases |input| - pos, 1
    {
      hide OneField, Expect, SkipSpace;
      NothingPrepended(FieldsOf(Rest()));
      var children: seq<Field> := [];
      var more := true;
      while more
        invariant Valid() && pos >= old(pos)
        invariant more ==> FieldsOf(old(Rest())) == Prepended(children, FieldsOf(Rest()))
        invariant !more ==> FieldsOf(old(Rest())) == Some((children, Rest()))
        decreases if more then |input| - pos + 1 else 0
      {
        ghost var before := Rest();
        var field := ParseField();
        if field.None? {
          return None;
        }
        ghost var read := children;
        children := children + [field.value];
        more := Accept(',');
        PrependedNext(read, field.value, FieldsOf(Rest()));
      }
      r := Some(children);
    }

    static ghost function Prepended(fields: seq<Field>, rest: Parsed<seq<Field>>): Parsed<seq<Field>> {
      match rest
      case None => None
      case Some((more, left)) => Some((fields + more, left))
    }

    static lemma PrependedNext(fields: seq<Field>, field: Field, rest: Parsed<seq<Field>>)
      ensures Prepended(fields, Prepended([field], rest)) == Prepended(fields + [field], rest)
    {
      if rest.Some? {
        assert fields + ([field] + rest.value.0) == (fields + [field]) + rest.value.0;
      }
    }

    static lemma NothingPrepended(rest: Parsed<seq<Field>>)
      ensures Prepended([], rest) == rest
    {
      assert rest.Some? ==> [] + rest.value.0 == rest.value.0;
    }

    method ParseField() returns (r: Option<Field>)
      requires Valid()
      modifies this
      ensures Valid() && pos >= old(pos) && Reads(OneField(old(Rest())), r)
      ensures r.Some? ==> pos > old(pos)
      decreases |input| - pos, 0
    {
      hide FieldName, TypeOf, Expect, SkipSpace;
      var name := ReadFieldName();
      if name.None? {
        return None;
      }
      var colon := Accept(':');
      if !colon {
        return None;
      }
      var t := ParseType();
      r := if t.None? then None else Some(Field(name.value, t.value));
    }

    /** A whole type string. */
    method Parse() returns (r: Option<HiveType>)
      requires pos == 0
      modifies this
      ensures r == ToHiveType(input)
    {
      hide TypeOf;
      assert input[0..] == input;
      r := ParseType();
      if r.Some? {
        SkipWhitespace();
        if pos != |input| {
          r := None;
        }
      }
    }
  }
}
