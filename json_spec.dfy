/**
 * The JSON text format as Json.java reads and writes it, stated as functions
 * over text positions: what each Parser method consumes and returns from a
 * given position, and what writeValue appends for a value.
 *
 * Text is a sequence of Java chars, i.e. UTF-16 code units; a \u escape can
 * produce any of them, unpaired surrogate halves included.
 */
module JsonSpec {
  import opened Wrappers

  /** One Java char. */
  type CodeUnit = c: int | 0 <= c < 0x1_0000

  type Text = seq<CodeUnit>

  /** The code units of an ASCII string literal. */
  function Ascii(s: string): (t: Text)
    requires forall i :: 0 <= i < |s| ==> s[i] as int < 0x80
    ensures |t| == |s| && forall i :: 0 <= i < |s| ==> t[i] == s[i] as int
  {
    seq(|s|, i requires 0 <= i < |s| => s[i] as int)
  }

  const Quote: CodeUnit := '"' as int
  const Backslash: CodeUnit := '\\' as int
  const LBrace: CodeUnit := '{' as int
  const RBrace: CodeUnit := '}' as int
  const LBracket: CodeUnit := '[' as int
  const RBracket: CodeUnit := ']' as int
  const Colon: CodeUnit := ':' as int
  const Comma: CodeUnit := ',' as int
  const Minus: CodeUnit := '-' as int
  const Plus: CodeUnit := '+' as int
  const Dot: CodeUnit := '.' as int

  const TrueText: Text := Ascii("true")
  const FalseText: Text := Ascii("false")
  const NullText: Text := Ascii("null")

  /** Java's int and long ranges. */
  const MinInt: int := -0x8000_0000
  const MaxInt: int := 0x7FFF_FFFF
  const MinLong: int := -0x8000_0000_0000_0000
  const MaxLong: int := 0x7FFF_FFFF_FFFF_FFFF

  /**
   * A parsed JSON value. Numbers keep Java's boxing: an integer literal is an
   * Integer when it fits in 32 bits and a Long otherwise; a literal with a
   * fraction or an exponent is a Double, kept here as its literal text. An
   * object lists its members by key, each key once, in the order the keys
   * first appeared.
   */
  datatype Value =
    | Null
    | Bool(b: bool)
    | Int(i: int)
    | Long(l: int)
    | Dbl(literal: Text)
    | Str(s: Text)
    | Arr(items: seq<Value>)
    | Obj(members: seq<(Text, Value)>)

  /** Why parsing failed, and where: one case per IllegalArgumentException Json.java throws. */
  datatype JsonError =
    | NullInput
    | TrailingData(at: nat)
    | UnexpectedEnd
    | UnexpectedChar(c: CodeUnit, at: nat)
    | Expected(c: CodeUnit, at: nat)
    | UnterminatedEscape(at: nat)
    | InvalidEscape(e: CodeUnit, at: nat)
    | UnterminatedString
    | InvalidUnicodeEscape(at: nat)
    | InvalidHexDigit(c: CodeUnit, at: nat)
    | InvalidBoolean(at: nat)
    | InvalidNull(at: nat)
    | InvalidNumber(literal: Text, at: nat)

  /** A successful parse yields a result and the position just after it. */
  type Parsed<T> = Result<(T, nat), JsonError>

  /** A successful parse consumed at least one code unit and stayed inside the text. */
  predicate Advances<T>(r: Parsed<T>, s: Text, p: nat) {
    r.Ok? ==> p < r.value.1 <= |s|
  }

  /** The parser's result and final position, in the form of the specification functions. */
  function At<T>(r: Result<T, JsonError>, p: nat): Parsed<T> {
    match r
    case Ok(v) => Ok((v, p))
    case Err(e) => Err(e)
  }

  // ---------------------------------------------------------------- characters

  /** Whitespace is space, line feed, carriage return and tab, as section 2 of RFC 8259 has it. */
  predicate IsWs(c: CodeUnit) {
    c == ' ' as int || c == '\n' as int || c == '\r' as int || c == '\t' as int
  }

  predicate IsDigit(c: CodeUnit) {
    '0' as int <= c <= '9' as int
  }

  /** The value of a hexadecimal digit in either case, or None for any other code unit. */
  function HexDigitValue(c: CodeUnit): (r: Option<nat>)
    ensures r.Some? ==> r.value < 16
    ensures r.Some? <==> IsDigit(c) || 'a' as int <= c <= 'f' as int || 'A' as int <= c <= 'F' as int
  {
    if IsDigit(c) then Some(c - '0' as int)
    else if 'a' as int <= c <= 'f' as int then Some(c - 'a' as int + 10)
    else if 'A' as int <= c <= 'F' as int then Some(c - 'A' as int + 10)
    else None
  }

  /** The number the hexadecimal digits `t` spell, most significant first. */
  function HexNumber(t: Text): nat
    requires forall i :: 0 <= i < |t| ==> HexDigitValue(t[i]).Some?
  {
    if t == [] then 0 else HexNumber(t[..|t| - 1]) * 16 + HexDigitValue(t[|t| - 1]).value
  }

  function DigitValue(c: CodeUnit): nat
    requires IsDigit(c)
  {
    c - '0' as int
  }

  /** The number the decimal digits `t` spell, most significant first. */
  function DecimalValue(t: Text): nat
    requires forall i :: 0 <= i < |t| ==> IsDigit(t[i])
  {
    if t == [] then 0 else DecimalValue(t[..|t| - 1]) * 10 + DigitValue(t[|t| - 1])
  }

  /** The code unit a one-letter escape stands for (\" \\ \/ \b \f \n \r \t), or None. */
  function SimpleEscape(e: CodeUnit): (r: Option<CodeUnit>)
    ensures r.Some? ==> e != 'u' as int
  {
    if e == Quote then Some(Quote)
    else if e == Backslash then Some(Backslash)
    else if e == '/' as int then Some('/' as int)
    else if e == 'b' as int then Some(0x08)
    else if e == 'f' as int then Some(0x0C)
    else if e == 'n' as int then Some(0x0A)
    else if e == 'r' as int then Some(0x0D)
    else if e == 't' as int then Some(0x09)
    else None
  }

  /** Whether `lit` occurs in `s` at position `p` (String.startsWith with an offset). */
  predicate StartsWithAt(s: Text, p: nat, lit: Text) {
    p + |lit| <= |s| && s[p..p + |lit|] == lit
  }

  // ---------------------------------------------------------------- parsing

  /** skipWhitespace: the first position at or after `p` that is not whitespace. */
  function SkipWs(s: Text, p: nat): (q: nat)
    requires p <= |s|
    ensures p <= q <= |s|
    ensures q < |s| ==> !IsWs(s[q])
    decreases |s| - p
  {
    if p < |s| && IsWs(s[p]) then SkipWs(s, p + 1) else p
  }

  /** Everything skipWhitespace passes over is whitespace, so it reaches the end exactly when only whitespace is left. */
  lemma {:induction false} SkipWsSkipsOnlyWs(s: Text, p: nat)
    requires p <= |s|
    ensures forall i :: p <= i < SkipWs(s, p) ==> IsWs(s[i])
    ensures SkipWs(s, p) == |s| <==> forall i :: p <= i < |s| ==> IsWs(s[i])
    decreases |s| - p
  {
    if p < |s| && IsWs(s[p]) {
      SkipWsSkipsOnlyWs(s, p + 1);
    }
  }

  /** expect(c). */
  function ExpectAt(s: Text, p: nat, c: CodeUnit): Result<nat, JsonError>
    requires p <= |s|
  {
    if p < |s| && s[p] == c then Ok(p + 1) else Err(Expected(c, p))
  }

  /** parseValue: skip whitespace, then dispatch on the first code unit. */
  function ValueAt(s: Text, p: nat): (r: Parsed<Value>)
    requires p <= |s|
    ensures Advances(r, s, p)
    decreases |s| - p, 3
  {
    var q := SkipWs(s, p);
    if q == |s| then Err(UnexpectedEnd)
    else
      var c := s[q];
      if c == LBrace then ObjectAt(s, q)
      else if c == LBracket then ArrayAt(s, q)
      else if c == Quote then
        var r := StringAt(s, q);
        if r.Err? then Err(r.error) else Ok((Str(r.value.0), r.value.1))
      else if c == 't' as int || c == 'f' as int then BooleanAt(s, q)
      else if c == 'n' as int then NullAt(s, q)
      else if c == Minus || IsDigit(c) then NumberAt(s, q)
      else Err(UnexpectedChar(c, q))
  }

  /** parseObject: `{`, then either `}` or members. */
  function ObjectAt(s: Text, p: nat): (r: Parsed<Value>)
    requires p <= |s|
    ensures Advances(r, s, p)
    decreases |s| - p, 2
  {
    match ExpectAt(s, p, LBrace)
    case Err(e) => Err(e)
    case Ok(p1) =>
      var q := SkipWs(s, p1);
      if q < |s| && s[q] == RBrace then Ok((Obj([]), q + 1))
      else MembersAt(s, q, [])
  }

  /**
   * The first half of parseObject's loop body, from position `p`: whitespace,
   * a key, whitespace, `:` and a value.
   */
  function MemberAt(s: Text, p: nat): (r: Parsed<(Text, Value)>)
    requires p <= |s|
    ensures Advances(r, s, p)
    decreases |s| - p, 0
  {
    var q := SkipWs(s, p);
    var key := StringAt(s, q);
    if key.Err? then Err(key.error)
    else
      var q1 := SkipWs(s, key.value.1);
      match ExpectAt(s, q1, Colon)
      case Err(e) => Err(e)
      case Ok(q2) =>
        var value := ValueAt(s, q2);
        if value.Err? then Err(value.error) else Ok(((key.value.0, value.value.0), value.value.1))
  }

  /**
   * parseObject's loop from position `p`, with the members read so far: a
   * member, then `}` to finish or `,` to read another.
   */
  function MembersAt(s: Text, p: nat, members: seq<(Text, Value)>): (r: Parsed<Value>)
    requires p <= |s|
    ensures Advances(r, s, p)
    decreases |s| - p, 1
  {
    var member := MemberAt(s, p);
    if member.Err? then Err(member.error)
    else MembersNext(s, member.value.1, Put(members, member.value.0.0, member.value.0.1))
  }

  /** The rest of parseObject's loop body, after a member that ends at `p`: `}` finishes, `,` reads another. */
  function MembersNext(s: Text, p: nat, members: seq<(Text, Value)>): (r: Parsed<Value>)
    requires 0 < p <= |s|
    ensures Advances(r, s, p - 1)
    decreases |s| - p, 2
  {
    var q := SkipWs(s, p);
    if q < |s| && s[q] == RBrace then Ok((Obj(members), q + 1))
    else
      match ExpectAt(s, q, Comma)
      case Err(e) => Err(e)
      case Ok(q1) => MembersAt(s, q1, members)
  }

  /** parseArray: `[`, then either `]` or elements. */
  function ArrayAt(s: Text, p: nat): (r: Parsed<Value>)
    requires p <= |s|
    ensures Advances(r, s, p)
    decreases |s| - p, 2
  {
    match ExpectAt(s, p, LBracket)
    case Err(e) => Err(e)
    case Ok(p1) =>
      var q := SkipWs(s, p1);
      if q < |s| && s[q] == RBracket then Ok((Arr([]), q + 1))
      else ElementsAt(s, q, [])
  }

  /** parseArray's loop from position `p`: a value, then `]` to finish or `,` to read another. */
  function ElementsAt(s: Text, p: nat, items: seq<Value>): (r: Parsed<Value>)
    requires p <= |s|
    ensures Advances(r, s, p)
    decreases |s| - p, 4
  {
    var value := ValueAt(s, p);
    if value.Err? then Err(value.error)
    else ElementsNext(s, value.value.1, items + [value.value.0])
  }

  /** The rest of parseArray's loop body, after a value that ends at `p`: `]` finishes, `,` reads another. */
  function ElementsNext(s: Text, p: nat, items: seq<Value>): (r: Parsed<Value>)
    requires 0 < p <= |s|
    ensures Advances(r, s, p - 1)
    decreases |s| - p, 5
  {
    var q := SkipWs(s, p);
    if q < |s| && s[q] == RBracket then Ok((Arr(items), q + 1))
    else
      match ExpectAt(s, q, Comma)
      case Err(e) => Err(e)
      case Ok(q1) => ElementsAt(s, q1, items)
  }

  /** HashMap.put on the member list: replace the value of an existing key in place, else append. */
  function Put(members: seq<(Text, Value)>, key: Text, value: Value): seq<(Text, Value)> {
    if members == [] then [(key, value)]
    else if members[0].0 == key then [(key, value)] + members[1..]
    else [members[0]] + Put(members[1..], key, value)
  }

  /**
   * Put behaves as HashMap.put: afterwards the key maps to the new value, no
   * other key's value changes, a new key is appended at the end, an existing
   * one keeps its place, and keys stay distinct.
   */
  lemma {:induction false} PutSemantics(members: seq<(Text, Value)>, key: Text, value: Value)
    ensures var r := Put(members, key, value);
      && Lookup(r, key) == Some(value)
      && (forall k :: k != key ==> Lookup(r, k) == Lookup(members, k))
      && |r| == (if Lookup(members, key).Some? then |members| else |members| + 1)
      && (Lookup(members, key).None? ==> r == members + [(key, value)])
      && (DistinctKeys(members) ==> DistinctKeys(r))
  {
    if members != [] && members[0].0 != key {
      PutSemantics(members[1..], key, value);
      var r := Put(members, key, value);
      assert r[1..] == Put(members[1..], key, value);
      if DistinctKeys(members) {
        assert Lookup(r[1..], members[0].0) == Lookup(members[1..], members[0].0);
      }
    } else if members != [] {
      var r := Put(members, key, value);
      assert r[1..] == members[1..];
    }
  }

  /** Map.get on a member list: the value of the first member with key `key`. */
  function Lookup(members: seq<(Text, Value)>, key: Text): Option<Value> {
    if members == [] then None
    else if members[0].0 == key then Some(members[0].1)
    else Lookup(members[1..], key)
  }

  /** No key occurs twice, as in a map. */
  predicate DistinctKeys(members: seq<(Text, Value)>) {
    members == [] || (Lookup(members[1..], members[0].0).None? && DistinctKeys(members[1..]))
  }

  /** parseString: `"`, then the characters. */
  function StringAt(s: Text, p: nat): (r: Parsed<Text>)
    requires p <= |s|
    ensures Advances(r, s, p)
  {
    match ExpectAt(s, p, Quote)
    case Err(e) => Err(e)
    case Ok(p1) => CharsAt(s, p1, [])
  }

  /**
   * parseString's loop from position `p`, with the characters read so far: a
   * `"` ends the string, a backslash starts an escape, anything else stands
   * for itself. Running out of text fails.
   */
  function CharsAt(s: Text, p: nat, acc: Text): (r: Parsed<Text>)
    requires p <= |s|
    ensures Advances(r, s, p)
    decreases |s| - p
  {
    if p == |s| then Err(UnterminatedString)
    else
      var c := s[p];
      if c == Quote then Ok((acc, p + 1))
      else if c != Backslash then CharsAt(s, p + 1, acc + [c])
      else if p + 1 == |s| then Err(UnterminatedEscape(p + 1))
      else
        var e := s[p + 1];
        if e == 'u' as int then
          var u := UnicodeEscapeAt(s, p + 2);
          if u.Err? then Err(u.error) else CharsAt(s, u.value.1, acc + [u.value.0])
        else
          match SimpleEscape(e)
          case None => Err(InvalidEscape(e, p + 1))
          case Some(d) => CharsAt(s, p + 2, acc + [d])
  }

  /**
   * parseUnicodeEscape, after `\u`: exactly four hexadecimal digits, in either
   * case, spelling the code unit (UnicodeEscapeReads).
   */
  function UnicodeEscapeAt(s: Text, p: nat): Parsed<CodeUnit>
    requires p <= |s|
  {
    if p + 4 > |s| then Err(InvalidUnicodeEscape(p)) else HexQuadAt(s, p, 0, 0)
  }

  /**
   * A `\u` escape succeeds exactly when four hexadecimal digits follow, reads
   * the code unit they spell and ends after them; too short a text is an
   * invalid escape.
   */
  lemma UnicodeEscapeReads(s: Text, p: nat)
    requires p <= |s|
    ensures UnicodeEscapeAt(s, p).Ok? <==> p + 4 <= |s| && forall i :: p <= i < p + 4 ==> HexDigitValue(s[i]).Some?
    ensures UnicodeEscapeAt(s, p).Ok? ==> UnicodeEscapeAt(s, p).value == (HexNumber(s[p..p + 4]), p + 4)
    ensures p + 4 > |s| ==> UnicodeEscapeAt(s, p) == Err(InvalidUnicodeEscape(p))
  {
    if p + 4 <= |s| {
      HexQuadReads(s, p, 0, 0);
    }
  }

  const Pow16: seq<nat> := [1, 16, 256, 4096, 65536]

  /** parseUnicodeEscape's loop, `k` digits in, having accumulated `acc`. */
  function HexQuadAt(s: Text, p: nat, k: nat, acc: nat): Parsed<CodeUnit>
    requires p + 4 <= |s| && k <= 4 && acc < Pow16[k]
    decreases 4 - k
  {
    if k == 4 then Ok((acc, p + 4))
    else
      match HexDigitValue(s[p + k])
      case None => Err(InvalidHexDigit(s[p + k], p + k))
      case Some(d) => HexQuadAt(s, p, k + 1, acc * 16 + d)
  }

  /**
   * The loop succeeds exactly when the remaining digits are all hexadecimal,
   * and, started on the digits' own value so far, ends on the value of all four.
   */
  lemma {:induction false} HexQuadReads(s: Text, p: nat, k: nat, acc: nat)
    requires p + 4 <= |s| && k <= 4 && acc < Pow16[k]
    ensures HexQuadAt(s, p, k, acc).Ok? <==> forall i :: p + k <= i < p + 4 ==> HexDigitValue(s[i]).Some?
    ensures HexQuadAt(s, p, k, acc).Ok? && (forall i :: p <= i < p + k ==> HexDigitValue(s[i]).Some?) &&
            acc == HexNumber(s[p..p + k]) ==>
              HexQuadAt(s, p, k, acc).value == (HexNumber(s[p..p + 4]), p + 4)
    decreases 4 - k
  {
    if k < 4 {
      var d := HexDigitValue(s[p + k]);
      if d.Some? {
        assert s[p..p + k + 1][..k] == s[p..p + k];
        HexQuadReads(s, p, k + 1, acc * 16 + d.value);
      }
    }
  }

  /** parseBoolean. */
  function BooleanAt(s: Text, p: nat): (r: Parsed<Value>)
    requires p <= |s|
    ensures Advances(r, s, p)
  {
    if StartsWithAt(s, p, TrueText) then Ok((Bool(true), p + 4))
    else if StartsWithAt(s, p, FalseText) then Ok((Bool(false), p + 5))
    else Err(InvalidBoolean(p))
  }

  /** parseNull. */
  function NullAt(s: Text, p: nat): (r: Parsed<Value>)
    requires p <= |s|
    ensures Advances(r, s, p)
  {
    if StartsWithAt(s, p, NullText) then Ok((Null, p + 4)) else Err(InvalidNull(p))
  }

  /** The first position at or after `p` that does not hold a decimal digit. */
  function DigitsEnd(s: Text, p: nat): (q: nat)
    requires p <= |s|
    ensures p <= q <= |s|
    ensures q < |s| ==> !IsDigit(s[q])
    decreases |s| - p
  {
    if p < |s| && IsDigit(s[p]) then DigitsEnd(s, p + 1) else p
  }

  /** Everything DigitsEnd passes over is a digit. */
  lemma {:induction false} DigitsEndDigits(s: Text, p: nat)
    requires p <= |s|
    ensures forall i :: p <= i < DigitsEnd(s, p) ==> IsDigit(s[i])
    decreases |s| - p
  {
    if p < |s| && IsDigit(s[p]) {
      DigitsEndDigits(s, p + 1);
    }
  }

  /** Where parseNumber's scan of a number starting at `p` stops, and whether it saw a fraction or an exponent. */
  datatype NumberScan = NumberScan(intStart: nat, intEnd: nat, fracEnd: Option<nat>, expDigits: Option<(nat, nat)>, end: nat)

  /**
   * parseNumber's scan: an optional `-`, digits, optionally `.` and digits,
   * optionally `e` or `E`, an optional sign and digits. Any of the digit runs
   * may be empty; the scan itself never fails.
   */
  function ScanNumber(s: Text, p: nat): (n: NumberScan)
    requires p < |s|
    ensures p <= n.intStart <= n.intEnd <= n.end <= |s|
    ensures n.fracEnd.Some? ==> n.intEnd < n.fracEnd.value <= n.end
    ensures n.expDigits.Some? ==> n.intEnd < n.expDigits.value.0 <= n.expDigits.value.1 == n.end
    ensures n.expDigits.None? ==> n.end == if n.fracEnd.Some? then n.fracEnd.value else n.intEnd
  {
    var p0 := if s[p] == Minus then p + 1 else p;
    var p1 := DigitsEnd(s, p0);
    var fracEnd := FractionAt(s, p1);
    var p2 := if fracEnd.Some? then fracEnd.value else p1;
    var expDigits := ExponentAt(s, p2);
    NumberScan(p0, p1, fracEnd, expDigits, if expDigits.Some? then expDigits.value.1 else p2)
  }

  /** Where a fraction (`.` and digits) starting at `p` ends, if there is one. */
  function FractionAt(s: Text, p: nat): (r: Option<nat>)
    requires p <= |s|
    ensures r.Some? ==> p < r.value <= |s|
  {
    if p < |s| && s[p] == Dot then Some(DigitsEnd(s, p + 1)) else None
  }

  /** Where the digits of an exponent (`e` or `E`, an optional sign, digits) starting at `p` begin and end, if there is one. */
  function ExponentAt(s: Text, p: nat): (r: Option<(nat, nat)>)
    requires p <= |s|
    ensures r.Some? ==> p < r.value.0 <= r.value.1 <= |s|
  {
    if p < |s| && (s[p] == 'e' as int || s[p] == 'E' as int) then
      var p1 := if p + 1 < |s| && (s[p + 1] == Plus || s[p + 1] == Minus) then p + 2 else p + 1;
      Some((p1, DigitsEnd(s, p1)))
    else None
  }

  /**
   * Whether Double.parseDouble accepts the scanned literal: a digit in the
   * integer or the fraction part, and a digit in the exponent if there is one.
   */
  predicate DoubleAccepts(n: NumberScan) {
    && (n.intEnd > n.intStart || (n.fracEnd.Some? && n.fracEnd.value > n.intEnd + 1))
    && (n.expDigits.Some? ==> n.expDigits.value.1 > n.expDigits.value.0)
  }

  /**
   * Long.parseLong on text made of ASCII characters: an optional sign and at
   * least one digit, with a value in the long range.
   */
  function ParseLong(t: Text): (r: Option<int>)
    ensures r.Some? ==> MinLong <= r.value <= MaxLong
  {
    if |t| == 0 then None
    else
      var digits := if t[0] == Minus || t[0] == Plus then t[1..] else t;
      if |digits| == 0 || !(forall i :: 0 <= i < |digits| ==> IsDigit(digits[i])) then None
      else
        var v: int := if t[0] == Minus then -(DecimalValue(digits) as int) else DecimalValue(digits);
        if MinLong <= v <= MaxLong then Some(v) else None
  }

  /** The boxed integer parseNumber returns for `v`: an Integer when it fits in 32 bits, else a Long. */
  function BoxInteger(v: int): (r: Value)
    ensures r.Int? <==> MinInt <= v <= MaxInt
    ensures r == Int(v) || r == Long(v)
  {
    if MinInt <= v <= MaxInt then Int(v) else Long(v)
  }

  /** parseNumber, at a position holding `-` or a digit. */
  function NumberAt(s: Text, p: nat): (r: Parsed<Value>)
    requires p < |s|
    ensures Advances(r, s, p)
  {
    var n := ScanNumber(s, p);
    var literal := s[p..n.end];
    if n.fracEnd.Some? || n.expDigits.Some? then
      if DoubleAccepts(n) then Ok((Dbl(literal), n.end)) else Err(InvalidNumber(literal, p))
    else
      match ParseLong(literal)
      case None => Err(InvalidNumber(literal, p))
      case Some(v) => Ok((BoxInteger(v), n.end))
  }

  /**
   * parse: a null text is rejected; otherwise one value, then only whitespace
   * to the end.
   */
  function ParseJson(json: Option<Text>): (r: Result<Value, JsonError>)
    ensures json.None? ==> r == Err(NullInput)
    ensures json.Some? && r.Ok? ==>
              var v := ValueAt(json.value, 0);
              && v.Ok? && r.value == v.value.0
              && forall i :: v.value.1 <= i < |json.value| ==> IsWs(json.value[i])
    ensures json.Some? && ValueAt(json.value, 0).Ok? &&
            (forall i :: ValueAt(json.value, 0).value.1 <= i < |json.value| ==> IsWs(json.value[i])) ==>
              r == Ok(ValueAt(json.value, 0).value.0)
  {
    match json
    case None => Err(NullInput)
    case Some(t) =>
      match ValueAt(t, 0)
      case Err(e) => Err(e)
      case Ok((v, p)) =>
        SkipWsSkipsOnlyWs(t, p);
        var q := SkipWs(t, p);
        if q < |t| then Err(TrailingData(q)) else Ok(v)
  }

  // ---------------------------------------------------------------- writing

  /** The lower-case hexadecimal digit for `d`. */
  function LowerHex(d: nat): (c: CodeUnit)
    requires d < 16
    ensures HexDigitValue(c) == Some(d)
  {
    if d < 10 then '0' as int + d else 'a' as int + d - 10
  }

  /** writeEscapedString for one code unit. */
  function EscapeUnit(c: CodeUnit): Text {
    if c == Quote then [Backslash, Quote]
    else if c == Backslash then [Backslash, Backslash]
    else if c == 0x08 then [Backslash, 'b' as int]
    else if c == 0x0C then [Backslash, 'f' as int]
    else if c == 0x0A then [Backslash, 'n' as int]
    else if c == 0x0D then [Backslash, 'r' as int]
    else if c == 0x09 then [Backslash, 't' as int]
    else if c < 0x20 then [Backslash, 'u' as int, '0' as int, '0' as int, LowerHex(c / 16), LowerHex(c % 16)]
    else [c]
  }

  /** writeEscapedString: each code unit escaped in turn. */
  function Escaped(s: Text): Text {
    if s == [] then [] else EscapeUnit(s[0]) + Escaped(s[1..])
  }

  /** A string as writeValue writes it: escaped, between quotes. */
  function Quoted(s: Text): Text {
    [Quote] + Escaped(s) + [Quote]
  }

  /** The decimal digits of `n`, as Integer.toString and Long.toString write them. */
  function Digits(n: nat): (t: Text)
    ensures |t| > 0 && forall i :: 0 <= i < |t| ==> IsDigit(t[i])
    ensures DecimalValue(t) == n
  {
    if n < 10 then [('0' as int + n)]
    else
      var t := Digits(n / 10) + [('0' as int + n % 10)];
      assert t[..|t| - 1] == Digits(n / 10);
      t
  }

  /** Integer.toString / Long.toString: a minus sign for negative numbers, then the digits. */
  function DecimalText(n: int): Text {
    if n < 0 then [Minus] + Digits(-n) else Digits(n)
  }

  /** `parts` joined with commas, as writeValue's loops write them. */
  function CommaJoin(parts: seq<Text>): Text {
    if |parts| == 0 then []
    else if |parts| == 1 then parts[0]
    else CommaJoin(parts[..|parts| - 1]) + [Comma] + parts[|parts| - 1]
  }

  /** One member of a map as writeValue writes it: the quoted key, `:` and the value's text. */
  function MemberText(key: Text, value: Text): Text {
    Quoted(key) + [Colon] + value
  }

  /** writeValue: the text appended for `v`. */
  function Serialize(v: Value): Text
    decreases v, 1
  {
    match v
    case Null => NullText
    case Bool(b) => if b then TrueText else FalseText
    case Int(i) => DecimalText(i)
    case Long(l) => DecimalText(l)
    case Dbl(literal) => literal
    case Str(t) => Quoted(t)
    case Arr(items) => [LBracket] + CommaJoin(ItemTexts(items)) + [RBracket]
    case Obj(members) => [LBrace] + CommaJoin(MemberTexts(members)) + [RBrace]
  }

  /** The texts of a list's items, in order. */
  function ItemTexts(items: seq<Value>): (r: seq<Text>)
    ensures |r| == |items|
    decreases items, 0
  {
    if items == [] then [] else [Serialize(items[0])] + ItemTexts(items[1..])
  }

  /** Item `i`'s text is the text of item `i`. */
  lemma {:induction false} ItemTextsAt(items: seq<Value>, i: nat)
    requires i < |items|
    ensures ItemTexts(items)[i] == Serialize(items[i])
  {
    if i > 0 {
      ItemTextsAt(items[1..], i - 1);
    }
  }

  /** The texts of a map's members, in order. */
  function MemberTexts(members: seq<(Text, Value)>): (r: seq<Text>)
    ensures |r| == |members|
    decreases members, 0
  {
    if members == [] then []
    else
      assert members[0] in members && members[0].1 < members[0];
      [MemberText(members[0].0, Serialize(members[0].1))] + MemberTexts(members[1..])
  }

  /** Member `i`'s text is the text of member `i`. */
  lemma {:induction false} MemberTextsAt(members: seq<(Text, Value)>, i: nat)
    requires i < |members|
    ensures MemberTexts(members)[i] == MemberText(members[i].0, Serialize(members[i].1))
  {
    if i > 0 {
      MemberTextsAt(members[1..], i - 1);
    }
  }
}
