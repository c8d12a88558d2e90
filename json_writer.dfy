/**
 * Json.stringify and its writers (Json.java): a StringBuilder that
 * writeValue and writeEscapedString append to. Each writer is proved to
 * append exactly the text JsonSpec.Serialize or JsonSpec.Escaped gives.
 */
module JsonWriter {
  import opened JsonSpec

  /** java.lang.StringBuilder, as far as the writers use it: text that is only appended to. */
  class StringBuilder {
    var text: Text

    constructor ()
      ensures text == []
    {
      text := [];
    }

    method Append(t: Text)
      modifies this
      ensures text == old(text) + t
    {
      text := text + t;
    }
  }

  /** Escaping a concatenation escapes each part, so the writer may escape one code unit at a time. */
  lemma {:induction false} EscapedAppend(a: Text, b: Text)
    ensures Escaped(a + b) == Escaped(a) + Escaped(b)
  {
    if a != [] {
      assert (a + b)[1..] == a[1..] + b;
      EscapedAppend(a[1..], b);
    } else {
      assert a + b == b;
    }
  }

  /** Appending one more code unit appends its escape. */
  lemma EscapedSnoc(s: Text, i: nat)
    requires i < |s|
    ensures Escaped(s[..i + 1]) == Escaped(s[..i]) + EscapeUnit(s[i])
  {
    assert s[..i + 1] == s[..i] + [s[i]];
    EscapedAppend(s[..i], [s[i]]);
    assert [s[i]][1..] == [];
  }

  /** Text holding the escape of `s[..i]` after `head`, extended by the escape of `s[i]`, holds that of `s[..i + 1]`. */
  lemma EscapedStep(head: Text, s: Text, i: nat, mid: Text, after: Text)
    requires i < |s|
    requires mid == head + Escaped(s[..i]) && after == mid + EscapeUnit(s[i])
    ensures after == head + Escaped(s[..i + 1])
  {
    EscapedSnoc(s, i);
  }

  /**
   * writeEscapedString: each code unit in turn, as WriteEscapedUnit writes it.
   */
  method WriteEscapedString(sb: StringBuilder, s: Text)
    modifies sb
    ensures sb.text == old(sb.text) + Escaped(s)
  {
    for i := 0 to |s|
      invariant sb.text == old(sb.text) + Escaped(s[..i])
    {
      ghost var mid := sb.text;
      WriteEscapedUnit(sb, s[i]);
      EscapedStep(old(sb.text), s, i, mid, sb.text);
    }
    assert s[..|s|] == s;
  }

  /**
   * The switch in writeEscapedString's loop: `"` and `\` get a backslash,
   * backspace, form feed, line feed, carriage return and tab their short
   * escapes, any other unit below 0x20 a `\u00xx` escape in lower-case hex,
   * and everything else is copied.
   */
  method WriteEscapedUnit(sb: StringBuilder, c: CodeUnit)
    modifies sb
    ensures sb.text == old(sb.text) + EscapeUnit(c)
  {
    if c == Quote {
      sb.Append([Backslash, Quote]);
    } else if c == Backslash {
      sb.Append([Backslash, Backslash]);
    } else if c == 0x08 {
      sb.Append([Backslash, 'b' as int]);
    } else if c == 0x0C {
      sb.Append([Backslash, 'f' as int]);
    } else if c == 0x0A {
      sb.Append([Backslash, 'n' as int]);
    } else if c == 0x0D {
      sb.Append([Backslash, 'r' as int]);
    } else if c == 0x09 {
      sb.Append([Backslash, 't' as int]);
    } else if c < 0x20 {
      sb.Append([Backslash, 'u' as int, '0' as int, '0' as int, LowerHex(c / 16), LowerHex(c % 16)]);
    } else {
      sb.Append([c]);
    }
  }

  /** The text written so far grows by a comma (after the first part) and the next part: CommaJoin of one more part. */
  lemma CommaJoinStep(head: Text, parts: seq<Text>, i: nat, mid: Text, after: Text)
    requires i < |parts|
    requires mid == head + CommaJoin(parts[..i]) + (if i == 0 then [] else [Comma])
    requires after == mid + parts[i]
    ensures after == head + CommaJoin(parts[..i + 1])
  {
    var p := parts[..i + 1];
    assert p[..|p| - 1] == parts[..i];
    if i == 0 {
      assert CommaJoin(parts[..i]) == [];
    }
  }

  /** writeValue for a string: the escaped text between quotes. */
  method WriteString(sb: StringBuilder, t: Text)
    modifies sb
    ensures sb.text == old(sb.text) + Quoted(t)
  {
    sb.Append([Quote]);
    WriteEscapedString(sb, t);
    sb.Append([Quote]);
  }

  /**
   * writeValue: null, booleans and numbers as their text, a string quoted
   * and escaped, a map by WriteObject, a list by WriteArray.
   */
  method WriteValue(sb: StringBuilder, v: Value)
    modifies sb
    ensures sb.text == old(sb.text) + Serialize(v)
    decreases v, 1
  {
    match v
    case Null =>
      sb.Append(NullText);
    case Str(t) =>
      WriteString(sb, t);
    case Bool(b) =>
      sb.Append(if b then TrueText else FalseText);
    case Int(i) =>
      sb.Append(DecimalText(i));
    case Long(l) =>
      sb.Append(DecimalText(l));
    case Dbl(literal) =>
      sb.Append(literal);
    case Obj(members) =>
      WriteObject(sb, members);
    case Arr(items) =>
      WriteArray(sb, items);
  }

  /** writeValue for a map: `{`, each member as a quoted key, `:` and its value, separated by `,`, and `}`. */
  method WriteObject(sb: StringBuilder, members: seq<(Text, Value)>)
    modifies sb
    ensures sb.text == old(sb.text) + [LBrace] + CommaJoin(MemberTexts(members)) + [RBrace]
    decreases members, 2
  {
    ghost var parts := MemberTexts(members);
    sb.Append([LBrace]);
    ghost var head := sb.text;
    for i := 0 to |members|
      invariant sb.text == head + CommaJoin(parts[..i])
    {
      if i > 0 {
        sb.Append([Comma]);
      }
      ghost var mid := sb.text;
      WriteMemberAt(sb, members, i);
      CommaJoinStep(head, parts, i, mid, sb.text);
    }
    sb.Append([RBrace]);
    assert parts[..|members|] == parts;
  }

  /** Member `i` of a map, inside writeValue's loop over it. */
  method WriteMemberAt(sb: StringBuilder, members: seq<(Text, Value)>, i: nat)
    requires i < |members|
    modifies sb
    ensures sb.text == old(sb.text) + MemberTexts(members)[i]
    decreases members, 1
  {
    assert members[i] in members && members[i].1 < members[i];
    WriteMember(sb, members[i].0, members[i].1);
    MemberTextsAt(members, i);
  }

  /** One member inside writeValue's loop over a map: the quoted key, `:` and the value. */
  method WriteMember(sb: StringBuilder, key: Text, value: Value)
    modifies sb
    ensures sb.text == old(sb.text) + MemberText(key, Serialize(value))
    decreases value, 2
  {
    WriteString(sb, key);
    sb.Append([Colon]);
    WriteValue(sb, value);
  }

  /** writeValue for a list: `[`, the items separated by `,`, and `]`. */
  method WriteArray(sb: StringBuilder, items: seq<Value>)
    modifies sb
    ensures sb.text == old(sb.text) + [LBracket] + CommaJoin(ItemTexts(items)) + [RBracket]
    decreases items, 2
  {
    ghost var parts := ItemTexts(items);
    sb.Append([LBracket]);
    ghost var head := sb.text;
    for i := 0 to |items|
      invariant sb.text == head + CommaJoin(parts[..i])
    {
      if i > 0 {
        sb.Append([Comma]);
      }
      ghost var mid := sb.text;
      WriteItemAt(sb, items, i);
      CommaJoinStep(head, parts, i, mid, sb.text);
    }
    sb.Append([RBracket]);
    assert parts[..|items|] == parts;
  }

  /** Item `i` of a list, inside writeValue's loop over it. */
  method WriteItemAt(sb: StringBuilder, items: seq<Value>, i: nat)
    requires i < |items|
    modifies sb
    ensures sb.text == old(sb.text) + ItemTexts(items)[i]
    decreases items, 1
  {
    assert items[i] in items;
    WriteValue(sb, items[i]);
    ItemTextsAt(items, i);
  }

  /** stringify: writeValue into a fresh StringBuilder. */
  method Stringify(v: Value) returns (json: Text)
    ensures json == Serialize(v)
  {
    var sb := new StringBuilder();
    WriteValue(sb, v);
    json := sb.text;
  }
}
