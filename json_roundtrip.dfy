/**
 * Json.parse reads back what Json.stringify writes: for every value the
 * writer can produce faithfully (no Double, an Integer in the 32-bit range, a
 * Long outside it, map keys each once), parsing the written text gives the
 * value again. Numbers are read back with their boxing, and integers outside
 * the long range are rejected.
 */
module JsonRoundTrip {
  import opened Wrappers
  import opened JsonSpec
  import opened JsonProperties

  /**
   * What may follow a value's text without running into it: the end, or a
   * code unit that cannot continue a number (a digit, a `.` or an exponent
   * letter would).
   */
  predicate EndsValue(s: Text, q: nat) {
    q == |s| || (q < |s| && !IsDigit(s[q]) && s[q] != Dot && s[q] != 'e' as int && s[q] != 'E' as int)
  }

  // ---------------------------------------------------------------- numbers

  /** The digit scan stops exactly at the first non-digit. */
  lemma {:induction false} DigitsEndAt(s: Text, p: nat, q: nat)
    requires p <= q <= |s|
    requires forall i :: p <= i < q ==> IsDigit(s[i])
    requires q == |s| || !IsDigit(s[q])
    ensures DigitsEnd(s, p) == q
    decreases q - p
  {
    if p < q {
      DigitsEndAt(s, p + 1, q);
    }
  }

  /**
   * Long.parseLong reads back what Long.toString writes, exactly for the
   * numbers in the long range.
   */
  lemma ParseLongDecimal(n: int)
    ensures ParseLong(DecimalText(n)) == if MinLong <= n <= MaxLong then Some(n) else None
  {
    var t := DecimalText(n);
    if n < 0 {
      var d := Digits(-n);
      assert t == [Minus] + d;
      assert t[1..] == d;
    } else {
      assert t == Digits(n);
      assert IsDigit(t[0]);
    }
  }

  /** Text found at `p` that is all digits makes those positions digits. */
  lemma DigitsFound(s: Text, p: nat, d: Text)
    requires StartsWithAt(s, p, d) && forall i :: 0 <= i < |d| ==> IsDigit(d[i])
    ensures forall i :: p <= i < p + |d| ==> IsDigit(s[i])
  {
    StartsWithUnits(s, p, d);
  }

  /**
   * parseNumber's scan over the text of an integer followed by what may follow
   * a value: the digits after any minus sign, no fraction, no exponent.
   */
  lemma ScanDecimal(s: Text, p: nat, n: int)
    requires StartsWithAt(s, p, DecimalText(n))
    requires EndsValue(s, p + |DecimalText(n)|)
    ensures p < |s|
    ensures ScanNumber(s, p) == NumberScan(if n < 0 then p + 1 else p, p + |DecimalText(n)|, None, None, p + |DecimalText(n)|)
  {
    var q := p + |DecimalText(n)|;
    var d := Digits(if n < 0 then -n else n);
    var p0 := if n < 0 then p + 1 else p;
    if n < 0 {
      StartsWithSplit(s, p, [Minus], d);
      StartsWithUnits(s, p, [Minus]);
    } else {
      StartsWithUnits(s, p, d);
    }
    DigitsFound(s, p0, d);
    DigitsEndAt(s, p0, q);
  }

  /**
   * parseNumber on the text of an integer, followed by what may follow a
   * value: an Integer when it fits in 32 bits, a Long when it fits in 64, and
   * an invalid number otherwise.
   */
  lemma NumberAtDecimal(s: Text, p: nat, n: int)
    requires StartsWithAt(s, p, DecimalText(n))
    requires EndsValue(s, p + |DecimalText(n)|)
    ensures p < |s|
    ensures NumberAt(s, p) ==
              if MinLong <= n <= MaxLong then Ok((BoxInteger(n), p + |DecimalText(n)|))
              else Err(InvalidNumber(DecimalText(n), p))
  {
    ScanDecimal(s, p, n);
    ParseLongDecimal(n);
  }

  /** A whole JSON text holding one integer parses to it, boxed by its width, or fails outside the long range. */
  lemma ParseStringifiedInteger(n: int)
    ensures ParseJson(Some(DecimalText(n))) ==
              if MinLong <= n <= MaxLong then Ok(BoxInteger(n)) else Err(InvalidNumber(DecimalText(n), 0))
  {
    var t := DecimalText(n);
    assert t[0..|t|] == t;
    NumberAtDecimal(t, 0, n);
    assert t[0] == Minus || IsDigit(t[0]);
    assert SkipWs(t, 0) == 0;
    assert ValueAt(t, 0) == NumberAt(t, 0);
  }

  // ---------------------------------------------------------------- values

  /**
   * The values stringify writes faithfully: no Double (its text is
   * Double.toString's, not the literal read), an Integer in the 32-bit range
   * and a Long outside it (the parser picks the box by width), and maps with
   * each key once (as a Java Map has).
   */
  predicate WellFormed(v: Value)
    decreases v
  {
    match v
    case Null => true
    case Bool(_) => true
    case Int(i) => MinInt <= i <= MaxInt
    case Long(l) => MinLong <= l <= MaxLong && !(MinInt <= l <= MaxInt)
    case Dbl(_) => false
    case Str(_) => true
    case Arr(items) => forall i :: 0 <= i < |items| ==> WellFormed(items[i])
    case Obj(members) =>
      && DistinctKeys(members)
      && forall i :: 0 <= i < |members| ==> (assert members[i] in members; WellFormed(members[i].1))
  }

  /** Written JSON joins its parts front to back: the first part, a comma, and the rest joined. */
  lemma {:induction false} CommaJoinCons(parts: seq<Text>)
    requires |parts| >= 1
    ensures |parts| == 1 ==> CommaJoin(parts) == parts[0]
    ensures |parts| >= 2 ==> CommaJoin(parts) == parts[0] + [Comma] + CommaJoin(parts[1..])
    decreases |parts|
  {
    if |parts| >= 3 {
      var init := parts[..|parts| - 1];
      CommaJoinCons(init);
      assert init[1..] == parts[1..][..|parts[1..]| - 1];
    } else if |parts| == 2 {
      assert parts[..1][..0] == [];
      assert parts[1..][..0] == [];
    }
  }

  /** The first code unit of a written value opens it: never whitespace, never a closing bracket or brace. */
  lemma SerializeStart(v: Value)
    requires WellFormed(v)
    ensures |Serialize(v)| > 0
    ensures !IsWs(Serialize(v)[0]) && Serialize(v)[0] != RBracket && Serialize(v)[0] != RBrace
    ensures v.Str? || v.Obj? <==> Serialize(v)[0] == Quote || Serialize(v)[0] == LBrace
    ensures v.Obj? <==> Serialize(v)[0] == LBrace
  {
    match v
    case Int(i) =>
      if i < 0 {
        assert DecimalText(i)[0] == Minus;
      } else {
        assert IsDigit(Digits(i)[0]);
      }
    case Long(l) =>
      if l < 0 {
        assert DecimalText(l)[0] == Minus;
      } else {
        assert IsDigit(Digits(l)[0]);
      }
    case _ =>
  }

  /** The code unit at `p + i` of text found at `p`. */
  lemma StartsWithUnit(s: Text, p: nat, t: Text, i: nat)
    requires StartsWithAt(s, p, t) && i < |t|
    ensures p + i < |s| && s[p + i] == t[i]
  {
    assert s[p..p + |t|][i] == s[p + i];
  }

  /** Parts `k` onwards, joined and closed by `close`, where `k` is the last: the part, then the close. */
  lemma JoinLast(s: Text, q: nat, all: seq<Text>, k: nat, close: CodeUnit, e: nat)
    requires close == RBracket || close == RBrace
    requires k + 1 == |all| && StartsWithAt(s, q, CommaJoin(all[k..]) + [close])
    requires e == q + |CommaJoin(all[k..])| + 1
    ensures StartsWithAt(s, q, all[k]) && q + |all[k]| < |s|
    ensures s[q + |all[k]|] == close && EndsValue(s, q + |all[k]|) && e == q + |all[k]| + 1
  {
    var parts := all[k..];
    assert parts[0] == all[k];
    CommaJoinCons(parts);
    StartsWithSplit(s, q, parts[0], [close]);
    StartsWithUnit(s, q + |parts[0]|, [close], 0);
  }

  /** Parts `k` onwards, joined and closed by `close`, where `k` is not the last: part `k`, a comma, and the rest, closed. */
  lemma JoinMore(s: Text, q: nat, all: seq<Text>, k: nat, close: CodeUnit, e: nat)
    requires k + 1 < |all| && StartsWithAt(s, q, CommaJoin(all[k..]) + [close])
    requires e == q + |CommaJoin(all[k..])| + 1
    ensures StartsWithAt(s, q, all[k]) && q + |all[k]| < |s| && s[q + |all[k]|] == Comma && EndsValue(s, q + |all[k]|)
    ensures StartsWithAt(s, q + |all[k]| + 1, CommaJoin(all[k + 1..]) + [close])
    ensures e == q + |all[k]| + 1 + |CommaJoin(all[k + 1..])| + 1
  {
    var parts := all[k..];
    var item := all[k];
    var q1 := q + |item|;
    var rest := CommaJoin(all[k + 1..]);
    assert parts[0] == item && parts[1..] == all[k + 1..];
    CommaJoinCons(parts);
    assert CommaJoin(parts) + [close] == item + ([Comma] + (rest + [close]));
    StartsWithSplit(s, q, item, [Comma] + (rest + [close]));
    StartsWithSplit(s, q1, [Comma], rest + [close]);
    StartsWithUnit(s, q1, [Comma], 0);
  }

  /** The layout of a written member found at `q`: the quoted key, the colon, the value. */
  lemma MemberLayout(s: Text, q: nat, key: Text, t: Text, q1: nat, e: nat)
    requires StartsWithAt(s, q, MemberText(key, t)) && e == q + |MemberText(key, t)|
    requires q1 == q + |Quoted(key)|
    ensures StartsWithAt(s, q, Quoted(key))
    ensures q1 < |s| && s[q1] == Colon
    ensures StartsWithAt(s, q1 + 1, t) && e == q1 + 1 + |t|
  {
    var k := Quoted(key);
    assert MemberText(key, t) == k + ([Colon] + t);
    StartsWithSplit(s, q, k, [Colon] + t);
    StartsWithSplit(s, q1, [Colon], t);
    StartsWithUnit(s, q1, [Colon], 0);
  }

  // ---------------------------------------------------------------- parse steps

  /** parseValue on `null`. */
  lemma ValueAtNull(s: Text, p: nat, e: nat)
    requires StartsWithAt(s, p, NullText) && e == p + |NullText|
    ensures ValueAt(s, p) == Ok((Null, e))
  {
    StartsWithUnit(s, p, NullText, 0);
    assert SkipWs(s, p) == p;
  }

  /** parseValue on `true` or `false`. */
  lemma ValueAtBool(s: Text, p: nat, b: bool, e: nat)
    requires StartsWithAt(s, p, if b then TrueText else FalseText)
    requires e == p + |if b then TrueText else FalseText|
    ensures ValueAt(s, p) == Ok((Bool(b), e))
  {
    var t := if b then TrueText else FalseText;
    StartsWithUnit(s, p, t, 0);
    assert SkipWs(s, p) == p;
  }

  /** parseValue on a minus sign or a digit: parseNumber. */
  lemma ValueAtNumber(s: Text, p: nat)
    requires p < |s| && (s[p] == Minus || IsDigit(s[p]))
    ensures ValueAt(s, p) == NumberAt(s, p)
  {
    var c := s[p];
    assert !IsWs(c) && SkipWs(s, p) == p;
    assert c != LBrace && c != LBracket && c != Quote && c != 't' as int && c != 'f' as int && c != 'n' as int;
  }

  /** parseValue on an integer's text, followed by what may follow a value. */
  lemma ValueAtInteger(s: Text, p: nat, n: int, e: nat)
    requires StartsWithAt(s, p, DecimalText(n)) && e == p + |DecimalText(n)| && EndsValue(s, e)
    requires MinLong <= n <= MaxLong
    ensures ValueAt(s, p) == Ok((BoxInteger(n), e))
  {
    assert NumberAt(s, p) == Ok((BoxInteger(n), e)) by {
      NumberAtDecimal(s, p, n);
    }
    assert p < |s| && (s[p] == Minus || IsDigit(s[p])) by {
      StartsWithUnit(s, p, DecimalText(n), 0);
      if n >= 0 {
        assert IsDigit(Digits(n)[0]);
      }
    }
    ValueAtNumber(s, p);
  }

  /** parseValue on a written string. */
  lemma ValueAtString(s: Text, p: nat, t: Text, e: nat)
    requires StartsWithAt(s, p, Quoted(t)) && e == p + |Quoted(t)|
    ensures ValueAt(s, p) == Ok((Str(t), e))
  {
    StringRoundTrip(s, p, t);
    StartsWithUnit(s, p, Quoted(t), 0);
    assert SkipWs(s, p) == p;
  }

  /** parseValue on `[`. */
  lemma ValueAtArray(s: Text, p: nat)
    requires p < |s| && s[p] == LBracket
    ensures ValueAt(s, p) == ArrayAt(s, p)
  {
    assert SkipWs(s, p) == p;
  }

  /** parseValue on `{`. */
  lemma ValueAtObject(s: Text, p: nat)
    requires p < |s| && s[p] == LBrace
    ensures ValueAt(s, p) == ObjectAt(s, p)
  {
    assert SkipWs(s, p) == p;
  }

  /** parseArray's loop after an element: the next step with the element appended. */
  lemma ElementsStep(s: Text, q: nat, items: seq<Value>, v: Value, q1: nat)
    requires q <= |s| && ValueAt(s, q) == Ok((v, q1))
    ensures 0 < q1 <= |s| && ElementsAt(s, q, items) == ElementsNext(s, q1, items + [v])
  {
  }

  /** After an element, `]` closes the list. */
  lemma ElementsClose(s: Text, q: nat, items: seq<Value>)
    requires 0 < q < |s| && s[q] == RBracket
    ensures ElementsNext(s, q, items) == Ok((Arr(items), q + 1))
  {
    assert SkipWs(s, q) == q;
  }

  /** After an element, `,` goes on to the next element. */
  lemma ElementsComma(s: Text, q: nat, items: seq<Value>)
    requires 0 < q < |s| && s[q] == Comma
    ensures ElementsNext(s, q, items) == ElementsAt(s, q + 1, items)
  {
    assert SkipWs(s, q) == q;
  }

  /** parseObject's loop after a member: the next step with the member put in. */
  lemma MembersStep(s: Text, q: nat, members: seq<(Text, Value)>, key: Text, v: Value, q1: nat)
    requires q <= |s| && MemberAt(s, q) == Ok(((key, v), q1))
    ensures 0 < q1 <= |s| && MembersAt(s, q, members) == MembersNext(s, q1, Put(members, key, v))
  {
  }

  /** After a member, `}` closes the map. */
  lemma MembersClose(s: Text, q: nat, members: seq<(Text, Value)>)
    requires 0 < q < |s| && s[q] == RBrace
    ensures MembersNext(s, q, members) == Ok((Obj(members), q + 1))
  {
    assert SkipWs(s, q) == q;
  }

  /** After a member, `,` goes on to the next member. */
  lemma MembersComma(s: Text, q: nat, members: seq<(Text, Value)>)
    requires 0 < q < |s| && s[q] == Comma
    ensures MembersNext(s, q, members) == MembersAt(s, q + 1, members)
  {
    assert SkipWs(s, q) == q;
  }

  /** A written key reads back as itself, from its opening quote, which is not whitespace. */
  lemma KeyRead(s: Text, q: nat, key: Text, q1: nat)
    requires StartsWithAt(s, q, Quoted(key)) && q1 == q + |Quoted(key)|
    ensures q < |s| && !IsWs(s[q]) && StringAt(s, q) == Ok((key, q1))
  {
    StringRoundTrip(s, q, key);
    StartsWithUnit(s, q, Quoted(key), 0);
  }

  /** A member with no whitespace around its colon: the key, then the value after the colon. */
  lemma MemberParts(s: Text, q: nat, key: Text, q1: nat, v: Value, q2: nat)
    requires q < |s| && !IsWs(s[q]) && StringAt(s, q) == Ok((key, q1))
    requires q1 < |s| && s[q1] == Colon && ValueAt(s, q1 + 1) == Ok((v, q2))
    ensures MemberAt(s, q) == Ok(((key, v), q2))
  {
    assert SkipWs(s, q) == q;
    assert SkipWs(s, q1) == q1;
  }

  /** `[` directly followed by `]` is the empty list; followed by anything else not blank, it starts the element loop. */
  lemma ArrayOpen(s: Text, p: nat)
    requires p + 1 < |s| && s[p] == LBracket && !IsWs(s[p + 1])
    ensures s[p + 1] == RBracket ==> ArrayAt(s, p) == Ok((Arr([]), p + 2))
    ensures s[p + 1] != RBracket ==> ArrayAt(s, p) == ElementsAt(s, p + 1, [])
  {
    assert SkipWs(s, p + 1) == p + 1;
  }

  /** `{` directly followed by `}` is the empty map; followed by anything else not blank, it starts the member loop. */
  lemma ObjectOpen(s: Text, p: nat)
    requires p + 1 < |s| && s[p] == LBrace && !IsWs(s[p + 1])
    ensures s[p + 1] == RBrace ==> ObjectAt(s, p) == Ok((Obj([]), p + 2))
    ensures s[p + 1] != RBrace ==> ObjectAt(s, p) == MembersAt(s, p + 1, [])
  {
    assert SkipWs(s, p + 1) == p + 1;
  }

  // ---------------------------------------------------------------- round trip

  /**
   * The round trip: a well-formed value's text, found at `p` and followed by
   * what may follow a value, parses back to the value, ending at `e`, right
   * after its text.
   */
  lemma {:induction false} ValueRoundTrip(s: Text, p: nat, v: Value, e: nat)
    requires WellFormed(v)
    requires StartsWithAt(s, p, Serialize(v)) && e == p + |Serialize(v)|
    requires EndsValue(s, e)
    ensures ValueAt(s, p) == Ok((v, e))
    decreases v, 2
  {
    match v
    case Null =>
      ValueAtNull(s, p, e);
    case Bool(b) =>
      ValueAtBool(s, p, b, e);
    case Int(i) =>
      assert Serialize(v) == DecimalText(i) && BoxInteger(i) == v;
      ValueAtInteger(s, p, i, e);
    case Long(l) =>
      assert Serialize(v) == DecimalText(l) && BoxInteger(l) == v;
      ValueAtInteger(s, p, l, e);
    case Str(t) =>
      ValueAtString(s, p, t, e);
    case Arr(_) =>
      assert ArrayAt(s, p) == Ok((v, e)) by {
        ArrayRoundTrip(s, p, v, e);
      }
      StartsWithUnit(s, p, Serialize(v), 0);
      ValueAtArray(s, p);
    case Obj(_) =>
      assert ObjectAt(s, p) == Ok((v, e)) by {
        ObjectRoundTrip(s, p, v, e);
      }
      StartsWithUnit(s, p, Serialize(v), 0);
      ValueAtObject(s, p);
  }

  /** A written list parses back: `[]` directly, anything else element by element. */
  lemma {:induction false} ArrayRoundTrip(s: Text, p: nat, v: Value, e: nat)
    requires v.Arr? && WellFormed(v)
    requires StartsWithAt(s, p, Serialize(v)) && e == p + |Serialize(v)|
    ensures ArrayAt(s, p) == Ok((v, e))
    decreases v, 1
  {
    ArrayLayout(s, p, v, e);
    ArrayOpen(s, p);
    if |v.items| > 0 {
      assert ItemTexts(v.items)[0..] == ItemTexts(v.items) && v.items[..0] == [];
      ElementsRoundTrip(s, p + 1, v, 0, [], e);
    }
  }

  /** The layout of a written list found at `p`: `[`, then the items and `]`, then the end at `e`. */
  lemma ArrayLayout(s: Text, p: nat, v: Value, e: nat)
    requires v.Arr? && WellFormed(v) && StartsWithAt(s, p, Serialize(v)) && e == p + |Serialize(v)|
    ensures p + 1 < |s| && s[p] == LBracket && !IsWs(s[p + 1])
    ensures |v.items| == 0 <==> s[p + 1] == RBracket
    ensures |v.items| == 0 ==> v == Arr([]) && e == p + 2
    ensures StartsWithAt(s, p + 1, CommaJoin(ItemTexts(v.items)) + [RBracket])
    ensures e == p + 1 + |CommaJoin(ItemTexts(v.items))| + 1
  {
    var parts := ItemTexts(v.items);
    var body := CommaJoin(parts);
    assert Serialize(v) == [LBracket] + (body + [RBracket]);
    StartsWithSplit(s, p, [LBracket], body + [RBracket]);
    StartsWithUnit(s, p, [LBracket], 0);
    StartsWithUnit(s, p + 1, body + [RBracket], 0);
    if |v.items| == 0 {
      assert body == [];
    } else {
      CommaJoinCons(parts);
      SerializeStart(v.items[0]);
      ItemTextsAt(v.items, 0);
      assert s[p + 1] == Serialize(v.items[0])[0];
    }
  }

  /** parseArray's loop reads written element `k` and moves past it, to `q1`. */
  lemma {:induction false} ElementsHead(s: Text, q: nat, v: Value, k: nat, acc: seq<Value>, q1: nat, acc': seq<Value>)
    requires v.Arr? && WellFormed(v) && k < |v.items|
    requires StartsWithAt(s, q, ItemTexts(v.items)[k]) && q1 == q + |ItemTexts(v.items)[k]| && EndsValue(s, q1)
    requires acc' == acc + [v.items[k]]
    ensures 0 < q1 <= |s|
    ensures ElementsAt(s, q, acc) == ElementsNext(s, q1, acc')
    decreases v, 0, |v.items| - k, 0
  {
    ItemTextsAt(v.items, k);
    ValueRoundTrip(s, q, v.items[k], q1);
    ElementsStep(s, q, acc, v.items[k], q1);
  }

  /** parseArray's loop over written elements `k` onwards, having read the ones before into `acc`. */
  lemma {:induction false} ElementsRoundTrip(s: Text, q: nat, v: Value, k: nat, acc: seq<Value>, e: nat)
    requires v.Arr? && WellFormed(v) && k < |v.items| && acc == v.items[..k]
    requires StartsWithAt(s, q, CommaJoin(ItemTexts(v.items)[k..]) + [RBracket])
    requires e == q + |CommaJoin(ItemTexts(v.items)[k..])| + 1
    ensures ElementsAt(s, q, acc) == Ok((v, e))
    decreases v, 0, |v.items| - k, 2
  {
    if k + 1 == |v.items| {
      ElementsLast(s, q, v, k, acc, e);
    } else {
      ElementsMore(s, q, v, k, acc, e);
    }
  }

  /** The last written element, then `]`. */
  lemma {:induction false} ElementsLast(s: Text, q: nat, v: Value, k: nat, acc: seq<Value>, e: nat)
    requires v.Arr? && WellFormed(v) && k + 1 == |v.items| && acc == v.items[..k]
    requires StartsWithAt(s, q, CommaJoin(ItemTexts(v.items)[k..]) + [RBracket])
    requires e == q + |CommaJoin(ItemTexts(v.items)[k..])| + 1
    ensures ElementsAt(s, q, acc) == Ok((v, e))
    decreases v, 0, |v.items| - k, 1
  {
    var all := ItemTexts(v.items);
    var q1 := q + |all[k]|;
    var acc' := acc + [v.items[k]];
    JoinLast(s, q, all, k, RBracket, e);
    ElementsHead(s, q, v, k, acc, q1, acc');
    assert ElementsNext(s, q1, acc') == Ok((v, e)) by {
      ElementsClose(s, q1, acc');
      assert acc' == v.items;
    }
  }

  /** After a written element that is not the last: `,` and the elements after it. */
  lemma {:induction false} ElementsTail(s: Text, q1: nat, v: Value, k: nat, acc': seq<Value>, e: nat)
    requires v.Arr? && WellFormed(v) && k + 1 < |v.items| && acc' == v.items[..k] + [v.items[k]]
    requires 0 < q1 < |s| && s[q1] == Comma
    requires StartsWithAt(s, q1 + 1, CommaJoin(ItemTexts(v.items)[k + 1..]) + [RBracket])
    requires e == q1 + 1 + |CommaJoin(ItemTexts(v.items)[k + 1..])| + 1
    ensures ElementsNext(s, q1, acc') == Ok((v, e))
    decreases v, 0, |v.items| - k, 0
  {
    assert acc' == v.items[..k + 1];
    ElementsComma(s, q1, acc');
    ElementsRoundTrip(s, q1 + 1, v, k + 1, acc', e);
  }

  /** A written element that is not the last, then `,` and the elements after it. */
  lemma {:induction false} ElementsMore(s: Text, q: nat, v: Value, k: nat, acc: seq<Value>, e: nat)
    requires v.Arr? && WellFormed(v) && k + 1 < |v.items| && acc == v.items[..k]
    requires StartsWithAt(s, q, CommaJoin(ItemTexts(v.items)[k..]) + [RBracket])
    requires e == q + |CommaJoin(ItemTexts(v.items)[k..])| + 1
    ensures ElementsAt(s, q, acc) == Ok((v, e))
    decreases v, 0, |v.items| - k, 1
  {
    var all := ItemTexts(v.items);
    var q1 := q + |all[k]|;
    var acc' := acc + [v.items[k]];
    JoinMore(s, q, all, k, RBracket, e);
    ElementsHead(s, q, v, k, acc, q1, acc');
    ElementsTail(s, q1, v, k, acc', e);
  }


  /** A key, `:` and a value, as written, parse back as that member, ending at `e`. */
  lemma {:induction false} MemberRoundTrip(s: Text, q: nat, key: Text, value: Value, e: nat)
    requires WellFormed(value)
    requires StartsWithAt(s, q, MemberText(key, Serialize(value)))
    requires e == q + |MemberText(key, Serialize(value))| && EndsValue(s, e)
    ensures MemberAt(s, q) == Ok(((key, value), e))
    decreases value, 4
  {
    var q1 := q + |Quoted(key)|;
    MemberLayout(s, q, key, Serialize(value), q1, e);
    KeyRead(s, q, key, q1);
    MemberValueRoundTrip(s, q, key, q1, value, e);
  }

  /** A key read up to `q1`, then `:` and a written value: the member is that key and value. */
  lemma {:induction false} MemberValueRoundTrip(s: Text, q: nat, key: Text, q1: nat, value: Value, e: nat)
    requires q < |s| && !IsWs(s[q]) && StringAt(s, q) == Ok((key, q1))
    requires q1 < |s| && s[q1] == Colon && WellFormed(value)
    requires StartsWithAt(s, q1 + 1, Serialize(value)) && e == q1 + 1 + |Serialize(value)| && EndsValue(s, e)
    ensures MemberAt(s, q) == Ok(((key, value), e))
    decreases value, 3
  {
    ValueRoundTrip(s, q1 + 1, value, e);
    MemberParts(s, q, key, q1, value, e);
  }

  /** A written map parses back: `{}` directly, anything else member by member. */
  lemma {:induction false} ObjectRoundTrip(s: Text, p: nat, v: Value, e: nat)
    requires v.Obj? && WellFormed(v)
    requires StartsWithAt(s, p, Serialize(v)) && e == p + |Serialize(v)|
    ensures ObjectAt(s, p) == Ok((v, e))
    decreases v, 1
  {
    ObjectLayout(s, p, v, e);
    ObjectOpen(s, p);
    if |v.members| > 0 {
      assert MemberTexts(v.members)[0..] == MemberTexts(v.members) && v.members[..0] == [];
      MembersRoundTrip(s, p + 1, v, 0, [], e);
    }
  }

  /** The layout of a written map found at `p`: `{`, then the members and `}`, then the end at `e`. */
  lemma ObjectLayout(s: Text, p: nat, v: Value, e: nat)
    requires v.Obj? && StartsWithAt(s, p, Serialize(v)) && e == p + |Serialize(v)|
    ensures p + 1 < |s| && s[p] == LBrace && !IsWs(s[p + 1])
    ensures |v.members| == 0 <==> s[p + 1] == RBrace
    ensures |v.members| == 0 ==> v == Obj([]) && e == p + 2
    ensures StartsWithAt(s, p + 1, CommaJoin(MemberTexts(v.members)) + [RBrace])
    ensures e == p + 1 + |CommaJoin(MemberTexts(v.members))| + 1
  {
    var parts := MemberTexts(v.members);
    var body := CommaJoin(parts);
    assert Serialize(v) == [LBrace] + (body + [RBrace]);
    StartsWithSplit(s, p, [LBrace], body + [RBrace]);
    StartsWithUnit(s, p, [LBrace], 0);
    StartsWithUnit(s, p + 1, body + [RBrace], 0);
    if |v.members| == 0 {
      assert body == [];
    } else {
      CommaJoinCons(parts);
      MemberTextsAt(v.members, 0);
      assert s[p + 1] == Quote;
    }
  }

  /** A key absent from a member list is not the key of any of its members. */
  lemma {:induction false} LookupAbsent(members: seq<(Text, Value)>, key: Text, i: nat)
    requires Lookup(members, key).None? && i < |members|
    ensures members[i].0 != key
  {
    if i > 0 {
      LookupAbsent(members[1..], key, i - 1);
    }
  }

  /** With keys distinct, each key is new to the members before it. */
  lemma {:induction false} DistinctKeysFresh(members: seq<(Text, Value)>, k: nat)
    requires DistinctKeys(members) && k < |members|
    ensures Lookup(members[..k], members[k].0).None?
  {
    if k > 0 {
      var tail := members[1..];
      assert members[k] == tail[k - 1];
      DistinctKeysFresh(tail, k - 1);
      LookupAbsent(tail, members[0].0, k - 1);
      var pre := members[..k];
      assert pre[0] == members[0] && pre[1..] == tail[..k - 1];
    }
  }

  /** With keys distinct, putting member `k` into the members before it appends it. */
  lemma PutNext(members: seq<(Text, Value)>, k: nat)
    requires DistinctKeys(members) && k < |members|
    ensures Put(members[..k], members[k].0, members[k].1) == members[..k + 1]
  {
    DistinctKeysFresh(members, k);
    PutSemantics(members[..k], members[k].0, members[k].1);
    assert members[..k] + [members[k]] == members[..k + 1];
  }

  /** parseObject's loop reads written member `k`, a key new to `acc`, and moves past it, to `q1`. */
  lemma {:induction false} MembersHead(s: Text, q: nat, v: Value, k: nat, acc: seq<(Text, Value)>, q1: nat, acc': seq<(Text, Value)>)
    requires v.Obj? && WellFormed(v) && k < |v.members| && acc == v.members[..k]
    requires StartsWithAt(s, q, MemberTexts(v.members)[k]) && q1 == q + |MemberTexts(v.members)[k]| && EndsValue(s, q1)
    requires acc' == v.members[..k + 1]
    ensures 0 < q1 <= |s|
    ensures MembersAt(s, q, acc) == MembersNext(s, q1, acc')
    decreases v, 0, |v.members| - k, 0
  {
    var key, value := v.members[k].0, v.members[k].1;
    assert v.members[k] in v.members;
    assert WellFormed(value);
    PutNext(v.members, k);
    MemberTextsAt(v.members, k);
    assert MemberAt(s, q) == Ok(((key, value), q1)) by {
      MemberRoundTrip(s, q, key, value, q1);
    }
    MembersStep(s, q, acc, key, value, q1);
  }

  /** parseObject's loop over written members `k` onwards, having read the ones before into `acc`. */
  lemma {:induction false} MembersRoundTrip(s: Text, q: nat, v: Value, k: nat, acc: seq<(Text, Value)>, e: nat)
    requires v.Obj? && WellFormed(v) && k < |v.members| && acc == v.members[..k]
    requires StartsWithAt(s, q, CommaJoin(MemberTexts(v.members)[k..]) + [RBrace])
    requires e == q + |CommaJoin(MemberTexts(v.members)[k..])| + 1
    ensures MembersAt(s, q, acc) == Ok((v, e))
    decreases v, 0, |v.members| - k, 2
  {
    if k + 1 == |v.members| {
      MembersLast(s, q, v, k, acc, e);
    } else {
      MembersMore(s, q, v, k, acc, e);
    }
  }

  /** The last written member, then `}`. */
  lemma {:induction false} MembersLast(s: Text, q: nat, v: Value, k: nat, acc: seq<(Text, Value)>, e: nat)
    requires v.Obj? && WellFormed(v) && k + 1 == |v.members| && acc == v.members[..k]
    requires StartsWithAt(s, q, CommaJoin(MemberTexts(v.members)[k..]) + [RBrace])
    requires e == q + |CommaJoin(MemberTexts(v.members)[k..])| + 1
    ensures MembersAt(s, q, acc) == Ok((v, e))
    decreases v, 0, |v.members| - k, 1
  {
    var all := MemberTexts(v.members);
    var q1 := q + |all[k]|;
    var acc' := v.members[..k + 1];
    JoinLast(s, q, all, k, RBrace, e);
    MembersHead(s, q, v, k, acc, q1, acc');
    assert MembersNext(s, q1, acc') == Ok((v, e)) by {
      MembersClose(s, q1, acc');
      assert acc' == v.members;
    }
  }

  /** After a written member that is not the last: `,` and the members after it. */
  lemma {:induction false} MembersTail(s: Text, q1: nat, v: Value, k: nat, acc': seq<(Text, Value)>, e: nat)
    requires v.Obj? && WellFormed(v) && k + 1 < |v.members| && acc' == v.members[..k + 1]
    requires 0 < q1 < |s| && s[q1] == Comma
    requires StartsWithAt(s, q1 + 1, CommaJoin(MemberTexts(v.members)[k + 1..]) + [RBrace])
    requires e == q1 + 1 + |CommaJoin(MemberTexts(v.members)[k + 1..])| + 1
    ensures MembersNext(s, q1, acc') == Ok((v, e))
    decreases v, 0, |v.members| - k, 0
  {
    MembersComma(s, q1, acc');
    MembersRoundTrip(s, q1 + 1, v, k + 1, acc', e);
  }

  /** A written member that is not the last, then `,` and the members after it. */
  lemma {:induction false} MembersMore(s: Text, q: nat, v: Value, k: nat, acc: seq<(Text, Value)>, e: nat)
    requires v.Obj? && WellFormed(v) && k + 1 < |v.members| && acc == v.members[..k]
    requires StartsWithAt(s, q, CommaJoin(MemberTexts(v.members)[k..]) + [RBrace])
    requires e == q + |CommaJoin(MemberTexts(v.members)[k..])| + 1
    ensures MembersAt(s, q, acc) == Ok((v, e))
    decreases v, 0, |v.members| - k, 1
  {
    var all := MemberTexts(v.members);
    var q1 := q + |all[k]|;
    var acc' := v.members[..k + 1];
    assert MembersAt(s, q, acc) == MembersNext(s, q1, acc') by {
      JoinMore(s, q, all, k, RBrace, e);
      MembersHead(s, q, v, k, acc, q1, acc');
    }
    assert MembersNext(s, q1, acc') == Ok((v, e)) by {
      JoinMore(s, q, all, k, RBrace, e);
      MembersTail(s, q1, v, k, acc', e);
    }
  }


  /** stringify then parse gives back every well-formed value. */
  lemma ParseStringified(v: Value)
    requires WellFormed(v)
    ensures ParseJson(Some(Serialize(v))) == Ok(v)
  {
    var t := Serialize(v);
    assert t[0..|t|] == t;
    assert ValueAt(t, 0) == Ok((v, |t|)) by {
      ValueRoundTrip(t, 0, v, |t|);
    }
    assert SkipWs(t, |t|) == |t|;
  }
}
