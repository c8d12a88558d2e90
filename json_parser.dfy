/**
 * Json.parse and its Parser (Json.java): a cursor over the text that each
 * parse method advances past what it reads. Every method is proved to return
 * what the matching function of JsonSpec returns from the cursor's starting
 * position, and to leave the cursor where that function says; a failure is
 * the JsonError the function names (the source throws it, and the parser is
 * abandoned, so the cursor is then left unspecified).
 */
module JsonParser {
  import opened Wrappers
  import opened JsonSpec

  class Parser {
    const s: Text
    var pos: nat

    constructor (s: Text)
      ensures this.s == s && pos == 0
    {
      this.s := s;
      pos := 0;
    }

    predicate IsAtEnd()
      reads this
    {
      pos >= |s|
    }

    /** skipWhitespace: advances past space, line feed, carriage return and tab. */
    method SkipWhitespace()
      requires pos <= |s|
      modifies this
      ensures pos == SkipWs(s, old(pos))
    {
      while !IsAtEnd()
        invariant old(pos) <= pos <= |s|
        invariant SkipWs(s, pos) == SkipWs(s, old(pos))
        decreases |s| - pos
      {
        var c := s[pos];
        if IsWs(c) {
          pos := pos + 1;
        } else {
          return;
        }
      }
    }

    /** expect: consumes `c` if it is next, else fails naming `c` and the position. */
    method Expect(c: CodeUnit) returns (err: Option<JsonError>)
      requires pos <= |s|
      modifies this
      ensures err.None? <==> old(pos) < |s| && s[old(pos)] == c
      ensures pos == if err.None? then old(pos) + 1 else old(pos)
      ensures err.Some? ==> err.value == Expected(c, old(pos))
      ensures ExpectAt(s, old(pos), c) == if err.None? then Ok(pos) else Err(err.value)
    {
      if IsAtEnd() || s[pos] != c {
        return Some(Expected(c, pos));
      }
      pos := pos + 1;
      return None;
    }

    /** tryConsume: consumes `c` if it is next, and says whether it did. */
    method TryConsume(c: CodeUnit) returns (consumed: bool)
      requires pos <= |s|
      modifies this
      ensures consumed <==> old(pos) < |s| && s[old(pos)] == c
      ensures pos == if consumed then old(pos) + 1 else old(pos)
    {
      if !IsAtEnd() && s[pos] == c {
        pos := pos + 1;
        return true;
      }
      return false;
    }

    /** parseValue. */
    method ParseValue() returns (r: Result<Value, JsonError>)
      requires pos <= |s|
      modifies this
      ensures pos <= |s|
      ensures At(r, pos) == ValueAt(s, old(pos))
      decreases |s| - pos, 3
    {
      SkipWhitespace();
      if IsAtEnd() {
        return Err(UnexpectedEnd);
      }
      var c := s[pos];
      if c == LBrace {
        r := ParseObject();
        return;
      }
      if c == LBracket {
        r := ParseArray();
        return;
      }
      if c == Quote {
        var t := ParseString();
        if t.Err? {
          return Err(t.error);
        }
        return Ok(Str(t.value));
      }
      if c == 't' as int || c == 'f' as int {
        r := ParseBoolean();
        return;
      }
      if c == 'n' as int {
        r := ParseNull();
        return;
      }
      if c == Minus || IsDigit(c) {
        r := ParseNumber();
        return;
      }
      return Err(UnexpectedChar(c, pos));
    }

    /** parseObject: a duplicate key keeps its first position and its last value. */
    method ParseObject() returns (r: Result<Value, JsonError>)
      requires pos <= |s|
      modifies this
      ensures pos <= |s|
      ensures At(r, pos) == ObjectAt(s, old(pos))
      decreases |s| - pos, 2
    {
      var err := Expect(LBrace);
      if err.Some? {
        return Err(err.value);
      }
      SkipWhitespace();
      var closed := TryConsume(RBrace);
      if closed {
        return Ok(Obj([]));
      }
      r := ParseMembers();
    }

    /** parseObject's loop: members separated by `,` up to the closing `}`. */
    method ParseMembers() returns (r: Result<Value, JsonError>)
      requires pos <= |s|
      modifies this
      ensures pos <= |s|
      ensures At(r, pos) == MembersAt(s, old(pos), [])
      decreases |s| - pos, 1
    {
      ghost var start := pos;
      var members: seq<(Text, Value)> := [];
      while true
        invariant start <= pos <= |s|
        invariant MembersAt(s, pos, members) == MembersAt(s, start, [])
        decreases |s| - pos
      {
        var member := ParseMember();
        if member.Err? {
          return Err(member.error);
        }
        members := Put(members, member.value.0, member.value.1);
        assert MembersNext(s, pos, members) == MembersAt(s, start, []);
        SkipWhitespace();
        var closed := TryConsume(RBrace);
        if closed {
          return Ok(Obj(members));
        }
        var err := Expect(Comma);
        if err.Some? {
          return Err(err.value);
        }
      }
    }

    /** The first half of parseObject's loop body: a key, `:` and a value. */
    method ParseMember() returns (r: Result<(Text, Value), JsonError>)
      requires pos <= |s|
      modifies this
      ensures pos <= |s|
      ensures At(r, pos) == MemberAt(s, old(pos))
      decreases |s| - pos, 0
    {
      SkipWhitespace();
      var key := ParseString();
      if key.Err? {
        return Err(key.error);
      }
      SkipWhitespace();
      var err := Expect(Colon);
      if err.Some? {
        return Err(err.value);
      }
      var value := ParseValue();
      if value.Err? {
        return Err(value.error);
      }
      return Ok((key.value, value.value));
    }

    /** parseArray. */
    method ParseArray() returns (r: Result<Value, JsonError>)
      requires pos <= |s|
      modifies this
      ensures pos <= |s|
      ensures At(r, pos) == ArrayAt(s, old(pos))
      decreases |s| - pos, 2
    {
      var err := Expect(LBracket);
      if err.Some? {
        return Err(err.value);
      }
      SkipWhitespace();
      var closed := TryConsume(RBracket);
      if closed {
        return Ok(Arr([]));
      }
      r := ParseElements();
    }

    /** parseArray's loop: values separated by `,` up to the closing `]`. */
    method ParseElements() returns (r: Result<Value, JsonError>)
      requires pos <= |s|
      modifies this
      ensures pos <= |s|
      ensures At(r, pos) == ElementsAt(s, old(pos), [])
      decreases |s| - pos, 4
    {
      ghost var start := pos;
      var items: seq<Value> := [];
      while true
        invariant start <= pos <= |s|
        invariant ElementsAt(s, pos, items) == ElementsAt(s, start, [])
        decreases |s| - pos
      {
        var value := ParseValue();
        if value.Err? {
          return Err(value.error);
        }
        items := items + [value.value];
        assert ElementsNext(s, pos, items) == ElementsAt(s, start, []);
        SkipWhitespace();
        var closed := TryConsume(RBracket);
        if closed {
          return Ok(Arr(items));
        }
        var err := Expect(Comma);
        if err.Some? {
          return Err(err.value);
        }
      }
    }

    /** parseString: the characters between two quotes, escapes decoded. */
    method ParseString() returns (r: Result<Text, JsonError>)
      requires pos <= |s|
      modifies this
      ensures pos <= |s|
      ensures At(r, pos) == StringAt(s, old(pos))
    {
      ghost var start := pos;
      var err := Expect(Quote);
      if err.Some? {
        return Err(err.value);
      }
      var sb: Text := [];
      while !IsAtEnd()
        invariant start < pos <= |s|
        invariant CharsAt(s, pos, sb) == StringAt(s, start)
        decreases |s| - pos
      {
        var c := s[pos];
        pos := pos + 1;
        if c == Quote {
          return Ok(sb);
        }
        if c != Backslash {
          sb := sb + [c];
          continue;
        }
        if IsAtEnd() {
          return Err(UnterminatedEscape(pos));
        }
        var e := s[pos];
        pos := pos + 1;
        if e == 'u' as int {
          var u := ParseUnicodeEscape();
          if u.Err? {
            return Err(u.error);
          }
          sb := sb + [u.value];
        } else {
          var d := SimpleEscape(e);
          if d.None? {
            return Err(InvalidEscape(e, pos - 1));
          }
          sb := sb + [d.value];
        }
      }
      return Err(UnterminatedString);
    }

    /** parseUnicodeEscape: four hexadecimal digits after `\u`. */
    method ParseUnicodeEscape() returns (r: Result<CodeUnit, JsonError>)
      requires pos <= |s|
      modifies this
      ensures pos <= |s|
      ensures At(r, pos) == UnicodeEscapeAt(s, old(pos))
    {
      if pos + 4 > |s| {
        return Err(InvalidUnicodeEscape(pos));
      }
      ghost var start := pos;
      var codePoint: nat := 0;
      for i := 0 to 4
        invariant pos == start + i && codePoint < Pow16[i]
        invariant HexQuadAt(s, start, i, codePoint) == UnicodeEscapeAt(s, start)
      {
        var c := s[pos];
        pos := pos + 1;
        var d := HexDigitValue(c);
        if d.None? {
          return Err(InvalidHexDigit(c, pos - 1));
        }
        codePoint := codePoint * 16 + d.value;
      }
      return Ok(codePoint);
    }

    /** parseBoolean. */
    method ParseBoolean() returns (r: Result<Value, JsonError>)
      requires pos <= |s|
      modifies this
      ensures pos <= |s|
      ensures At(r, pos) == BooleanAt(s, old(pos))
    {
      if StartsWithAt(s, pos, TrueText) {
        pos := pos + 4;
        return Ok(Bool(true));
      }
      if StartsWithAt(s, pos, FalseText) {
        pos := pos + 5;
        return Ok(Bool(false));
      }
      return Err(InvalidBoolean(pos));
    }

    /** parseNull. */
    method ParseNull() returns (r: Result<Value, JsonError>)
      requires pos <= |s|
      modifies this
      ensures pos <= |s|
      ensures At(r, pos) == NullAt(s, old(pos))
    {
      if StartsWithAt(s, pos, NullText) {
        pos := pos + 4;
        return Ok(Null);
      }
      return Err(InvalidNull(pos));
    }

    /** One of parseNumber's digit loops: advances past decimal digits. */
    method SkipDigits()
      requires pos <= |s|
      modifies this
      ensures pos == DigitsEnd(s, old(pos))
    {
      while !IsAtEnd()
        invariant old(pos) <= pos <= |s|
        invariant DigitsEnd(s, pos) == DigitsEnd(s, old(pos))
        decreases |s| - pos
      {
        var c := s[pos];
        if IsDigit(c) {
          pos := pos + 1;
        } else {
          break;
        }
      }
    }

    /** parseNumber's fraction: `.` and digits, if a `.` is next. */
    method SkipFraction() returns (fracEnd: Option<nat>)
      requires pos <= |s|
      modifies this
      ensures fracEnd == FractionAt(s, old(pos))
      ensures pos == if fracEnd.Some? then fracEnd.value else old(pos)
    {
      fracEnd := None;
      if !IsAtEnd() && s[pos] == Dot {
        pos := pos + 1;
        SkipDigits();
        fracEnd := Some(pos);
      }
    }

    /** parseNumber's exponent: `e` or `E`, an optional sign and digits, if an `e` or `E` is next. */
    method SkipExponent() returns (expDigits: Option<(nat, nat)>)
      requires pos <= |s|
      modifies this
      ensures expDigits == ExponentAt(s, old(pos))
      ensures pos == if expDigits.Some? then expDigits.value.1 else old(pos)
    {
      expDigits := None;
      if !IsAtEnd() {
        var c := s[pos];
        if c == 'e' as int || c == 'E' as int {
          pos := pos + 1;
          if !IsAtEnd() {
            var sign := s[pos];
            if sign == Plus || sign == Minus {
              pos := pos + 1;
            }
          }
          var expStart := pos;
          SkipDigits();
          expDigits := Some((expStart, pos));
        }
      }
    }

    /**
     * parseNumber: scans the literal, then converts it. With a fraction or an
     * exponent it is a Double if Double.parseDouble accepts it; otherwise
     * Long.parseLong must accept it, and the result is an Integer when it fits
     * in 32 bits.
     */
    method ParseNumber() returns (r: Result<Value, JsonError>)
      requires pos < |s|
      modifies this
      ensures pos <= |s|
      ensures At(r, pos) == NumberAt(s, old(pos))
    {
      var start := pos;
      if s[pos] == Minus {
        pos := pos + 1;
      }
      var intStart := pos;
      SkipDigits();
      var intEnd := pos;
      var fracEnd := SkipFraction();
      var expDigits := SkipExponent();
      var isDouble := fracEnd.Some? || expDigits.Some?;
      var scan := NumberScan(intStart, intEnd, fracEnd, expDigits, pos);
      assert scan == ScanNumber(s, start);
      var num := s[start..pos];
      if isDouble {
        if !DoubleAccepts(scan) {
          return Err(InvalidNumber(num, start));
        }
        return Ok(Dbl(num));
      }
      var v := ParseLong(num);
      if v.None? {
        return Err(InvalidNumber(num, start));
      }
      if MinInt <= v.value <= MaxInt {
        return Ok(Int(v.value));
      }
      return Ok(Long(v.value));
    }
  }

  /**
   * Json.parse: a null text is rejected; otherwise one value, and nothing but
   * whitespace after it.
   */
  method Parse(json: Option<Text>) returns (r: Result<Value, JsonError>)
    ensures r == ParseJson(json)
  {
    if json.None? {
      return Err(NullInput);
    }
    var parser := new Parser(json.value);
    var value := parser.ParseValue();
    if value.Err? {
      return Err(value.error);
    }
    parser.SkipWhitespace();
    if !parser.IsAtEnd() {
      return Err(TrailingData(parser.pos));
    }
    return Ok(value.value);
  }
}
