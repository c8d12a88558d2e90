/**
 * What Json.java promises about its text format, proved of JsonSpec: the
 * parser reads back what the writer escapes, rejects what the format does
 * not allow, and boxes integers by their width.
 */
module JsonProperties {
  import opened Wrappers
  import opened JsonSpec

  // ---------------------------------------------------------------- escaping

  /** No code unit of an escape is a control character. */
  lemma EscapeUnitPrintable(c: CodeUnit)
    ensures |EscapeUnit(c)| > 0
    ensures forall i :: 0 <= i < |EscapeUnit(c)| ==> EscapeUnit(c)[i] >= 0x20
  {
    if c < 0x20 && c !in {0x08, 0x09, 0x0A, 0x0C, 0x0D} {
      var t := EscapeUnit(c);
      assert t == [Backslash, 'u' as int, '0' as int, '0' as int, LowerHex(c / 16), LowerHex(c % 16)];
    }
  }

  /**
   * The only quote in an escape is the escaped quote, and a backslash in it
   * either is the escaped backslash or opens the escape.
   */
  lemma EscapeUnitQuotes(c: CodeUnit)
    ensures Quote in EscapeUnit(c) <==> c == Quote
    ensures c == Quote ==> EscapeUnit(c) == [Backslash, Quote]
    ensures c == Backslash ==> EscapeUnit(c) == [Backslash, Backslash]
    ensures forall i :: 0 < i < |EscapeUnit(c)| && EscapeUnit(c)[i] == Backslash ==> c == Backslash
  {
    if c < 0x20 && c !in {0x08, 0x09, 0x0A, 0x0C, 0x0D} {
      var t := EscapeUnit(c);
      assert t == [Backslash, 'u' as int, '0' as int, '0' as int, LowerHex(c / 16), LowerHex(c % 16)];
      assert HexDigitValue(LowerHex(c / 16)).Some? && HexDigitValue(LowerHex(c % 16)).Some?;
    }
  }

  /** writeEscapedString never writes a control character: every unit of its output is at least 0x20. */
  lemma {:induction false} EscapedPrintable(s: Text)
    ensures forall i :: 0 <= i < |Escaped(s)| ==> Escaped(s)[i] >= 0x20
    ensures |Escaped(s)| >= |s|
  {
    if s != [] {
      EscapeUnitPrintable(s[0]);
      EscapedPrintable(s[1..]);
      var a, b := EscapeUnit(s[0]), Escaped(s[1..]);
      assert Escaped(s) == a + b;
      forall i | 0 <= i < |a + b|
        ensures (a + b)[i] >= 0x20
      {
        if i >= |a| {
          assert (a + b)[i] == b[i - |a|];
        }
      }
    }
  }

  /** Four hexadecimal digits spell the number their values give, most significant first. */
  lemma HexNumberOfFour(t: Text)
    requires |t| == 4 && forall i :: 0 <= i < 4 ==> HexDigitValue(t[i]).Some?
    ensures HexNumber(t) ==
              ((HexDigitValue(t[0]).value * 16 + HexDigitValue(t[1]).value) * 16 + HexDigitValue(t[2]).value) * 16 +
              HexDigitValue(t[3]).value
  {
    assert HexNumber(t[..1]) == HexDigitValue(t[0]).value by {
      assert t[..1][..0] == [];
    }
    assert HexNumber(t[..2]) == HexNumber(t[..1]) * 16 + HexDigitValue(t[1]).value by {
      assert t[..2][..1] == t[..1];
    }
    assert HexNumber(t[..3]) == HexNumber(t[..2]) * 16 + HexDigitValue(t[2]).value by {
      assert t[..3][..2] == t[..2];
    }
    assert t[..4] == t;
  }

  /** Text that starts with `a + b` at `p` starts with `a` there and with `b` right after it. */
  lemma StartsWithSplit(s: Text, p: nat, a: Text, b: Text)
    requires StartsWithAt(s, p, a + b)
    ensures StartsWithAt(s, p, a) && StartsWithAt(s, p + |a|, b)
  {
    assert s[p..p + |a|] == s[p..p + |a + b|][..|a|] == (a + b)[..|a|] == a;
    assert s[p + |a|..p + |a| + |b|] == s[p..p + |a + b|][|a|..] == (a + b)[|a|..] == b;
  }

  /** The code units of text found at `p`. */
  lemma StartsWithUnits(s: Text, p: nat, t: Text)
    requires StartsWithAt(s, p, t)
    ensures forall i :: p <= i < p + |t| ==> s[i] == t[i - p]
  {
    forall i | p <= i < p + |t|
      ensures s[i] == t[i - p]
    {
      assert s[p..p + |t|][i - p] == s[i];
    }
  }

  /** Reading back one escape at `p` yields the escaped code unit and moves past the escape. */
  lemma EscapeUnitReads(s: Text, p: nat, c: CodeUnit, acc: Text)
    requires StartsWithAt(s, p, EscapeUnit(c))
    ensures CharsAt(s, p, acc) == CharsAt(s, p + |EscapeUnit(c)|, acc + [c])
  {
    var t := EscapeUnit(c);
    StartsWithUnits(s, p, t);
    if c == Quote || c == Backslash || c in {0x08, 0x09, 0x0A, 0x0C, 0x0D} {
      assert |t| == 2 && s[p] == Backslash && SimpleEscape(s[p + 1]) == Some(c);
    } else if c < 0x20 {
      assert t == [Backslash, 'u' as int, '0' as int, '0' as int, LowerHex(c / 16), LowerHex(c % 16)];
      var quad := s[p + 2..p + 6];
      assert quad == s[p..p + |t|][2..6] == t[2..6];
      HexNumberOfFour(quad);
      UnicodeEscapeReads(s, p + 2);
      assert UnicodeEscapeAt(s, p + 2) == Ok((c, p + 6));
    } else {
      assert t == [c];
    }
  }

  /** Reading back a whole escaped text at `p` yields the text and moves past its escape, to `e`. */
  lemma {:induction false} EscapedReads(s: Text, p: nat, t: Text, acc: Text, e: nat)
    requires StartsWithAt(s, p, Escaped(t)) && e == p + |Escaped(t)|
    ensures CharsAt(s, p, acc) == CharsAt(s, e, acc + t)
    decreases |t|
  {
    if t == [] {
      assert acc + t == acc;
    } else {
      var head, tail := EscapeUnit(t[0]), Escaped(t[1..]);
      var mid, acc' := p + |head|, acc + [t[0]];
      assert Escaped(t) == head + tail;
      StartsWithSplit(s, p, head, tail);
      assert acc' + t[1..] == acc + t;
      assert CharsAt(s, p, acc) == CharsAt(s, mid, acc') by {
        EscapeUnitReads(s, p, t[0], acc);
      }
      assert CharsAt(s, mid, acc') == CharsAt(s, e, acc' + t[1..]) by {
        EscapedReads(s, mid, t[1..], acc', e);
      }
    }
  }

  /**
   * The escape round trip: parseString reads a quoted, escaped text back as
   * the text itself, stopping just after the closing quote, whatever follows.
   */
  lemma StringRoundTrip(s: Text, p: nat, t: Text)
    requires StartsWithAt(s, p, Quoted(t))
    ensures StringAt(s, p) == Ok((t, p + |Quoted(t)|))
  {
    var e := Escaped(t);
    StartsWithSplit(s, p, [Quote] + e, [Quote]);
    StartsWithSplit(s, p, [Quote], e);
    StartsWithUnits(s, p, [Quote]);
    StartsWithUnits(s, p + 1 + |e|, [Quote]);
    var q := p + 1 + |e|;
    EscapedReads(s, p + 1, t, [], q);
    assert [] + t == t;
    assert CharsAt(s, q, t) == Ok((t, q + 1));
    assert StringAt(s, p) == CharsAt(s, p + 1, []);
  }

  /** Whatever its content, a string stringify writes parses back to the same string. */
  lemma ParseStringifiedString(t: Text)
    ensures ParseJson(Some(Serialize(Str(t)))) == Ok(Str(t))
  {
    var json := Serialize(Str(t));
    assert json[0..|json|] == json;
    StringRoundTrip(json, 0, t);
    assert ValueAt(json, 0) == Ok((Str(t), |json|));
  }

  // ---------------------------------------------------------------- rejections

  /** A text that ends before its closing quote, with no escape on the way, is an unterminated string. */
  lemma {:induction false} UnterminatedStringRejected(s: Text, p: nat, acc: Text)
    requires p <= |s|
    requires forall i :: p <= i < |s| ==> s[i] != Quote && s[i] != Backslash
    ensures CharsAt(s, p, acc) == Err(UnterminatedString)
    decreases |s| - p
  {
    if p < |s| {
      UnterminatedStringRejected(s, p + 1, acc + [s[p]]);
    }
  }

  /** A backslash as the last code unit is an unterminated escape, reported just past it. */
  lemma UnterminatedEscapeRejected(s: Text, acc: Text)
    requires |s| > 0 && s[|s| - 1] == Backslash
    ensures CharsAt(s, |s| - 1, acc) == Err(UnterminatedEscape(|s|))
  {
  }

  /** An escape letter outside `" \ / b f n r t u` is rejected, naming the letter and its position. */
  lemma UnknownEscapeRejected(s: Text, p: nat, acc: Text)
    requires p + 1 < |s| && s[p] == Backslash
    requires s[p + 1] != 'u' as int && SimpleEscape(s[p + 1]).None?
    ensures CharsAt(s, p, acc) == Err(InvalidEscape(s[p + 1], p + 1))
  {
  }

  /** `\u` with fewer than four code units left is rejected. */
  lemma ShortUnicodeEscapeRejected(s: Text, p: nat, acc: Text)
    requires p + 1 < |s| && s[p] == Backslash && s[p + 1] == 'u' as int && p + 6 > |s|
    ensures CharsAt(s, p, acc) == Err(InvalidUnicodeEscape(p + 2))
  {
  }

  /** Hexadecimal digits in either case spell the same number. */
  lemma {:induction false} HexNumberCaseBlind(t: Text, u: Text)
    requires |t| == |u|
    requires forall i :: 0 <= i < |t| ==> HexDigitValue(t[i]).Some? && HexDigitValue(t[i]) == HexDigitValue(u[i])
    ensures HexNumber(t) == HexNumber(u)
    decreases |t|
  {
    if t != [] {
      HexNumberCaseBlind(t[..|t| - 1], u[..|u| - 1]);
    }
  }

  /** A letter digit and its upper-case form have the same value. */
  lemma HexDigitCaseBlind(k: nat)
    requires k < 6
    ensures HexDigitValue('a' as int + k) == HexDigitValue('A' as int + k) == Some(10 + k)
  {
  }

  /** `\u` escapes read the same whichever case their hexadecimal letters are written in. */
  lemma UnicodeEscapeCaseBlind(s: Text, u: Text, p: nat)
    requires p + 4 <= |s| && p + 4 <= |u|
    requires forall i :: p <= i < p + 4 ==> HexDigitValue(s[i]) == HexDigitValue(u[i])
    ensures UnicodeEscapeAt(s, p).Ok? <==> UnicodeEscapeAt(u, p).Ok?
    ensures UnicodeEscapeAt(s, p).Ok? ==> UnicodeEscapeAt(s, p) == UnicodeEscapeAt(u, p)
  {
    UnicodeEscapeReads(s, p);
    UnicodeEscapeReads(u, p);
    if UnicodeEscapeAt(s, p).Ok? {
      HexNumberCaseBlind(s[p..p + 4], u[p..p + 4]);
    }
  }
}
