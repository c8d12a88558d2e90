/**
 * The shapes of JSON text Json.parse accepts and rejects besides the round
 * trip: whitespace is exactly space, line feed, carriage return and tab;
 * `{}` and `[]` are the empty containers; a trailing comma is an error; and
 * of two members with the same key the later one wins.
 */
module JsonCases {
  import opened Wrappers
  import opened JsonSpec
  import opened JsonRoundTrip

  /** All code units of `t` are whitespace. */
  predicate Blank(t: Text) {
    forall i :: 0 <= i < |t| ==> IsWs(t[i])
  }

  /** Positions `p` up to `q` of `s` are all whitespace. */
  predicate BlankFrom(s: Text, p: nat, q: nat) {
    p <= q <= |s| && forall i :: p <= i < q ==> IsWs(s[i])
  }

  const FormFeed: CodeUnit := 0x0C

  // ---------------------------------------------------------------- whitespace

  /** skipWhitespace stops at the first code unit that is not whitespace. */
  lemma {:induction false} SkipWsTo(s: Text, p: nat, q: nat)
    requires p <= q <= |s|
    requires forall i :: p <= i < q ==> IsWs(s[i])
    requires q == |s| || !IsWs(s[q])
    ensures SkipWs(s, p) == q
    decreases q - p
  {
    if p < q {
      SkipWsTo(s, p + 1, q);
    }
  }

  /** parseValue skips whitespace first, so it reads the same from any point of a blank stretch. */
  lemma ValueAfterBlank(s: Text, p: nat, q: nat)
    requires BlankFrom(s, p, q)
    ensures ValueAt(s, p) == ValueAt(s, q)
  {
    SkipWsSkipsOnlyWs(s, q);
    var r := SkipWs(s, q);
    SkipWsTo(s, p, r);
    SkipWsTo(s, q, r);
  }

  /** A value read after blank text, followed only by blank text, is the whole text's value. */
  lemma WholeText(s: Text, p: nat, v: Value, e: nat)
    requires BlankFrom(s, 0, p) && ValueAt(s, p) == Ok((v, e)) && BlankFrom(s, e, |s|)
    ensures ParseJson(Some(s)) == Ok(v)
  {
    ValueAfterBlank(s, 0, p);
  }

  /** Json.parse on a whole text: the value read from the start, if it spans the text, or the error reading it. */
  lemma ParseJsonOf(s: Text, r: Parsed<Value>)
    requires ValueAt(s, 0) == r && (r.Ok? ==> r.value.1 == |s|)
    ensures ParseJson(Some(s)) == if r.Ok? then Ok(r.value.0) else Err(r.error)
  {
    if r.Ok? {
      assert SkipWs(s, |s|) == |s|;
    }
  }

  /** Where the parts of `lead + t + trail` sit. */
  lemma PaddedLayout(lead: Text, t: Text, trail: Text, s: Text)
    requires Blank(lead) && Blank(trail) && s == lead + t + trail
    ensures StartsWithAt(s, |lead|, t) && EndsValue(s, |lead| + |t|)
    ensures BlankFrom(s, 0, |lead|) && BlankFrom(s, |lead| + |t|, |s|)
  {
    assert s[|lead|..|lead| + |t|] == t;
    assert forall i :: |lead| + |t| <= i < |s| ==> s[i] == trail[i - |lead| - |t|];
  }

  /** Blank text on either side of a well-formed value's text is skipped. */
  lemma PaddedParse(lead: Text, v: Value, trail: Text)
    requires Blank(lead) && Blank(trail) && WellFormed(v)
    ensures ParseJson(Some(lead + Serialize(v) + trail)) == Ok(v)
  {
    SerializeReads(v);
    PaddedOf(lead, v, trail, Serialize(v));
  }

  /** Blank text on either side of a text that reads back as `v` is skipped. */
  lemma PaddedOf(lead: Text, v: Value, trail: Text, t: Text)
    requires Blank(lead) && Blank(trail) && ValueReads(t, v)
    ensures ParseJson(Some(lead + t + trail)) == Ok(v)
  {
    var s := lead + t + trail;
    PaddedLayout(lead, t, trail, s);
    WholeText(s, |lead|, v, |lead| + |t|);
  }

  /** A form feed is not whitespace: a text starting with one is rejected there. */
  lemma LeadingFormFeedRejected(t: Text)
    requires |t| > 0 && t[0] == FormFeed
    ensures ParseJson(Some(t)) == Err(UnexpectedChar(FormFeed, 0))
  {
    assert SkipWs(t, 0) == 0;
  }

  /** A form feed after a complete value is trailing data. */
  lemma TrailingFormFeedRejected(v: Value)
    requires WellFormed(v)
    ensures ParseJson(Some(Serialize(v) + [FormFeed])) == Err(TrailingData(|Serialize(v)|))
  {
    var t := Serialize(v);
    var s := t + [FormFeed];
    assert s[0..|t|] == t;
    ValueRoundTrip(s, 0, v, |t|);
    assert SkipWs(s, |t|) == |t|;
  }

  // ---------------------------------------------------------------- empty containers

  /** `{` and `}` with only whitespace between them are the empty map. */
  lemma EmptyObjectAt(s: Text, p: nat, q: nat)
    requires p < q < |s| && s[p] == LBrace && s[q] == RBrace
    requires forall i :: p < i < q ==> IsWs(s[i])
    ensures ObjectAt(s, p) == Ok((Obj([]), q + 1))
  {
    SkipWsTo(s, p + 1, q);
  }

  /** `[` and `]` with only whitespace between them are the empty list. */
  lemma EmptyArrayAt(s: Text, p: nat, q: nat)
    requires p < q < |s| && s[p] == LBracket && s[q] == RBracket
    requires forall i :: p < i < q ==> IsWs(s[i])
    ensures ArrayAt(s, p) == Ok((Arr([]), q + 1))
  {
    SkipWsTo(s, p + 1, q);
  }

  /** The whole texts `{}` and `[]`, with any whitespace inside, parse to the empty containers. */
  lemma ParseEmptyContainers(inner: Text)
    requires Blank(inner)
    ensures ParseJson(Some([LBrace] + inner + [RBrace])) == Ok(Obj([]))
    ensures ParseJson(Some([LBracket] + inner + [RBracket])) == Ok(Arr([]))
  {
    var q := |inner| + 1;
    var o := [LBrace] + inner + [RBrace];
    EmptyObjectAt(o, 0, q);
    assert SkipWs(o, 0) == 0;
    assert SkipWs(o, q + 1) == q + 1;
    var a := [LBracket] + inner + [RBracket];
    EmptyArrayAt(a, 0, q);
    assert SkipWs(a, 0) == 0;
    assert SkipWs(a, q + 1) == q + 1;
  }

  // ---------------------------------------------------------------- trailing commas

  /** After a list element, a comma followed by `]` is rejected at the `]`. */
  lemma ElementsTrailingComma(s: Text, p: nat, items: seq<Value>, q: nat, q1: nat)
    requires 0 < p <= q < |s| && q == SkipWs(s, p) && s[q] == Comma
    requires q1 == SkipWs(s, q + 1) && q1 < |s| && s[q1] == RBracket
    ensures ElementsNext(s, p, items) == Err(UnexpectedChar(RBracket, q1))
  {
    assert ValueAt(s, q + 1) == Err(UnexpectedChar(RBracket, q1));
    assert ElementsAt(s, q + 1, items) == Err(UnexpectedChar(RBracket, q1));
  }

  /** After a member, a comma followed by `}` is rejected at the `}`, where a key was expected. */
  lemma MembersTrailingComma(s: Text, p: nat, members: seq<(Text, Value)>, q: nat, q1: nat)
    requires 0 < p <= q < |s| && q == SkipWs(s, p) && s[q] == Comma
    requires q1 == SkipWs(s, q + 1) && q1 < |s| && s[q1] == RBrace
    ensures MembersNext(s, p, members) == Err(Expected(Quote, q1))
  {
    assert StringAt(s, q1) == Err(Expected(Quote, q1));
    assert MemberAt(s, q + 1) == Err(Expected(Quote, q1));
  }

  /** Where the parts of `open`, `t`, `,` and `close` sit. */
  lemma TrailingCommaLayout(open: CodeUnit, t: Text, close: CodeUnit, s: Text)
    requires s == [open] + t + [Comma, close]
    ensures |s| == |t| + 3 && s[0] == open && StartsWithAt(s, 1, t)
    ensures s[|t| + 1] == Comma && s[|t| + 2] == close && EndsValue(s, |t| + 1)
  {
    assert s[1..|t| + 1] == t;
  }

  /** `[`, an element ending at `e`, then `,]` to the end of the text: rejected at the `]`. */
  lemma ArrayTrailingCommaAt(s: Text, v: Value, e: nat)
    requires 1 < |s| && s[0] == LBracket && !IsWs(s[1]) && s[1] != RBracket
    requires ValueAt(s, 1) == Ok((v, e)) && e + 2 == |s| && s[e] == Comma && s[e + 1] == RBracket
    ensures ArrayAt(s, 0) == Err(UnexpectedChar(RBracket, e + 1))
  {
    ArrayFirst(s, v, e);
    ElementsCommaClose(s, e, [v]);
  }

  /** `[` and an element ending at `e`: the loop goes on after it. */
  lemma ArrayFirst(s: Text, v: Value, e: nat)
    requires 1 < |s| && s[0] == LBracket && !IsWs(s[1]) && s[1] != RBracket && ValueAt(s, 1) == Ok((v, e))
    ensures 0 < e <= |s| && ArrayAt(s, 0) == ElementsNext(s, e, [v])
  {
    ArrayOpen(s, 0);
    ElementsStep(s, 1, [], v, e);
    assert [] + [v] == [v];
  }

  /** `,]` right after an element. */
  lemma ElementsCommaClose(s: Text, e: nat, items: seq<Value>)
    requires 0 < e && e + 1 < |s| && s[e] == Comma && s[e + 1] == RBracket
    ensures ElementsNext(s, e, items) == Err(UnexpectedChar(RBracket, e + 1))
  {
    assert SkipWs(s, e) == e;
    assert SkipWs(s, e + 1) == e + 1;
    ElementsTrailingComma(s, e, items, e, e + 1);
  }

  /** `[` v `,]` is rejected at the `]`. */
  lemma ArrayTrailingCommaRejected(v: Value)
    requires WellFormed(v)
    ensures var t := Serialize(v);
      ParseJson(Some([LBracket] + t + [Comma, RBracket])) == Err(UnexpectedChar(RBracket, |t| + 2))
  {
    var t := Serialize(v);
    var s := [LBracket] + t + [Comma, RBracket];
    TrailingCommaLayout(LBracket, t, RBracket, s);
    ElementRead(s, v, t);
    ArrayTrailingCommaAt(s, v, |t| + 1);
    ValueAtArray(s, 0);
    ParseJsonOf(s, ArrayAt(s, 0));
  }

  /** A well-formed value's text at position 1, followed by a comma, reads back. */
  lemma ElementRead(s: Text, v: Value, t: Text)
    requires WellFormed(v) && t == Serialize(v)
    requires |s| == |t| + 3 && StartsWithAt(s, 1, t) && EndsValue(s, |t| + 1)
    ensures !IsWs(s[1]) && s[1] != RBracket && ValueAt(s, 1) == Ok((v, |t| + 1))
  {
    SerializeStart(v);
    ValueRoundTrip(s, 1, v, |t| + 1);
  }

  /** `{`, a member ending at `e`, then `,}` to the end of the text: rejected at the `}`. */
  lemma ObjectTrailingCommaAt(s: Text, key: Text, v: Value, e: nat)
    requires 1 < |s| && s[0] == LBrace && s[1] == Quote
    requires MemberAt(s, 1) == Ok(((key, v), e)) && e + 2 == |s| && s[e] == Comma && s[e + 1] == RBrace
    ensures ObjectAt(s, 0) == Err(Expected(Quote, e + 1))
  {
    ObjectFirst(s, key, v, e);
    MembersCommaClose(s, e, [(key, v)]);
  }

  /** `{` and a member ending at `e`: the loop goes on after it. */
  lemma ObjectFirst(s: Text, key: Text, v: Value, e: nat)
    requires 1 < |s| && s[0] == LBrace && s[1] == Quote && MemberAt(s, 1) == Ok(((key, v), e))
    ensures 0 < e <= |s| && ObjectAt(s, 0) == MembersNext(s, e, [(key, v)])
  {
    ObjectOpen(s, 0);
    MembersStep(s, 1, [], key, v, e);
    assert Put([], key, v) == [(key, v)];
  }

  /** `,}` right after a member. */
  lemma MembersCommaClose(s: Text, e: nat, members: seq<(Text, Value)>)
    requires 0 < e && e + 1 < |s| && s[e] == Comma && s[e + 1] == RBrace
    ensures MembersNext(s, e, members) == Err(Expected(Quote, e + 1))
  {
    assert SkipWs(s, e) == e;
    assert SkipWs(s, e + 1) == e + 1;
    MembersTrailingComma(s, e, members, e, e + 1);
  }

  /** `{` key `:` v `,}` is rejected at the `}`. */
  lemma ObjectTrailingCommaRejected(key: Text, v: Value)
    requires WellFormed(v)
    ensures var m := MemberText(key, Serialize(v));
      ParseJson(Some([LBrace] + m + [Comma, RBrace])) == Err(Expected(Quote, |m| + 2))
  {
    MemberTextReads(key, v);
    ObjectTrailingCommaOf(key, v, MemberText(key, Serialize(v)));
  }

  /** `{`, a text that reads back as a member, then `,}`: rejected at the `}`. */
  lemma ObjectTrailingCommaOf(key: Text, v: Value, m: Text)
    requires MemberReads(m, key, v)
    ensures ParseJson(Some([LBrace] + m + [Comma, RBrace])) == Err(Expected(Quote, |m| + 2))
  {
    var s := [LBrace] + m + [Comma, RBrace];
    TrailingCommaLayout(LBrace, m, RBrace, s);
    assert s[1] == m[0];
    ObjectTrailingCommaAt(s, key, v, |m| + 1);
    ValueAtObject(s, 0);
    ParseJsonOf(s, ObjectAt(s, 0));
  }

  /** The text `t` reads back as `v` wherever it stands, when what follows cannot continue it. */
  ghost predicate ValueReads(t: Text, v: Value) {
    && |t| > 0 && !IsWs(t[0]) && t[0] != RBracket
    && forall s: Text, p: nat {:trigger StartsWithAt(s, p, t)} :: StartsWithAt(s, p, t) && EndsValue(s, p + |t|) ==> ValueAt(s, p) == Ok((v, p + |t|))
  }

  /** The text `m` reads back as the member (`key`, `v`) wherever it stands, when what follows cannot continue it. */
  ghost predicate MemberReads(m: Text, key: Text, v: Value) {
    && |m| > 0 && m[0] == Quote
    && forall s: Text, q: nat {:trigger StartsWithAt(s, q, m)} :: StartsWithAt(s, q, m) && EndsValue(s, q + |m|) ==> MemberAt(s, q) == Ok(((key, v), q + |m|))
  }

  /** What stringify writes for a well-formed value reads back as it. */
  lemma SerializeReads(v: Value)
    requires WellFormed(v)
    ensures ValueReads(Serialize(v), v)
  {
    SerializeStart(v);
    SerializeReadsAnywhere(v, Serialize(v));
  }

  /** The round trip, wherever the text stands. */
  lemma SerializeReadsAnywhere(v: Value, t: Text)
    requires WellFormed(v) && t == Serialize(v)
    ensures forall s: Text, p: nat :: StartsWithAt(s, p, t) && EndsValue(s, p + |t|) ==> ValueAt(s, p) == Ok((v, p + |t|))
  {
    forall s: Text, p: nat | StartsWithAt(s, p, t) && EndsValue(s, p + |t|)
      ensures ValueAt(s, p) == Ok((v, p + |t|))
    {
      ValueRoundTrip(s, p, v, p + |t|);
    }
  }

  /** What stringify writes for a member of a well-formed value reads back as it. */
  lemma MemberTextReads(key: Text, v: Value)
    requires WellFormed(v)
    ensures MemberReads(MemberText(key, Serialize(v)), key, v)
  {
    var m := MemberText(key, Serialize(v));
    forall s: Text, q: nat | StartsWithAt(s, q, m) && EndsValue(s, q + |m|)
      ensures MemberAt(s, q) == Ok(((key, v), q + |m|))
    {
      MemberAtText(s, q, key, v, m, q + |m|);
    }
    assert m[0] == Quoted(key)[0];
  }

  /** A member's text at `q` starts with a quote and parses back, when what follows cannot continue it. */
  lemma MemberAtText(s: Text, q: nat, key: Text, v: Value, m: Text, e: nat)
    requires WellFormed(v) && m == MemberText(key, Serialize(v))
    requires StartsWithAt(s, q, m) && e == q + |m|
    requires EndsValue(s, e)
    ensures q < |s| && s[q] == Quote
    ensures MemberAt(s, q) == Ok(((key, v), e))
  {
    MemberRoundTrip(s, q, key, v, e);
    var q1 := q + |Quoted(key)|;
    MemberLayout(s, q, key, Serialize(v), q1, e);
    assert s[q] == Quoted(key)[0];
  }

  // ---------------------------------------------------------------- duplicate keys

  /**
   * Reading a member whose key is already present replaces that key's value
   * in place: the map keeps its size and the key now gives the later value.
   */
  lemma DuplicateKeyReplaces(s: Text, p: nat, members: seq<(Text, Value)>, key: Text, v: Value, q: nat)
    requires p <= |s| && MemberAt(s, p) == Ok(((key, v), q))
    requires Lookup(members, key).Some?
    ensures var r := Put(members, key, v);
      && MembersAt(s, p, members) == MembersNext(s, q, r)
      && Lookup(r, key) == Some(v) && |r| == |members|
      && forall k :: k != key ==> Lookup(r, k) == Lookup(members, k)
  {
    PutSemantics(members, key, v);
  }

  /** Where the parts of `{a,b}` sit. */
  lemma PairLayout(a: Text, b: Text, s: Text)
    requires s == [LBrace] + a + [Comma] + b + [RBrace]
    ensures |s| == |a| + |b| + 3 && s[0] == LBrace
    ensures StartsWithAt(s, 1, a) && s[|a| + 1] == Comma && EndsValue(s, |a| + 1)
    ensures StartsWithAt(s, |a| + 2, b) && s[|a| + |b| + 2] == RBrace && EndsValue(s, |a| + |b| + 2)
  {
    assert s[1..|a| + 1] == a;
    assert s[|a| + 2..|a| + |b| + 2] == b;
  }

  /**
   * `s` is `{`, a member ending at `e1`, `,`, a member with the same key
   * ending at `e2`, and `}`.
   */
  predicate PairShape(s: Text, e1: nat, e2: nat, key: Text, v1: Value, v2: Value) {
    && 1 < |s| && s[0] == LBrace && s[1] == Quote
    && MemberAt(s, 1) == Ok(((key, v1), e1)) && e1 < |s| && s[e1] == Comma
    && MemberAt(s, e1 + 1) == Ok(((key, v2), e2)) && e2 + 1 == |s| && s[e2] == RBrace
  }

  /** `{`, a member ending at `e1`, `,`, a member with the same key ending at `e2`, `}`: the later value is kept. */
  lemma TwoMembers(s: Text, e1: nat, e2: nat, key: Text, v1: Value, v2: Value)
    requires PairShape(s, e1, e2, key, v1, v2)
    ensures ObjectAt(s, 0) == Ok((Obj([(key, v2)]), |s|))
  {
    ObjectFirst(s, key, v1, e1);
    SecondMember(s, e1, e2, key, v1, v2);
  }

  /** `,`, a member with the same key ending at `e2`, then `}`: the later value replaces the earlier one. */
  lemma SecondMember(s: Text, e1: nat, e2: nat, key: Text, v1: Value, v2: Value)
    requires 0 < e1 < |s| && s[e1] == Comma
    requires MemberAt(s, e1 + 1) == Ok(((key, v2), e2)) && e2 < |s| && s[e2] == RBrace
    ensures MembersNext(s, e1, [(key, v1)]) == Ok((Obj([(key, v2)]), e2 + 1))
  {
    MembersComma(s, e1, [(key, v1)]);
    MembersStep(s, e1 + 1, [(key, v1)], key, v2, e2);
    assert Put([(key, v1)], key, v2) == [(key, v2)];
    MembersClose(s, e2, [(key, v2)]);
  }

  /** `{` key `:` v1 `,` key `:` v2 `}` parses to the one-member map holding v2. */
  lemma DuplicateKeyLastWins(key: Text, v1: Value, v2: Value)
    requires WellFormed(v1) && WellFormed(v2)
    ensures var a, b := MemberText(key, Serialize(v1)), MemberText(key, Serialize(v2));
      ParseJson(Some([LBrace] + a + [Comma] + b + [RBrace])) == Ok(Obj([(key, v2)]))
  {
    MemberTextReads(key, v1);
    MemberTextReads(key, v2);
    DuplicateKeyOf(key, v1, v2, MemberText(key, Serialize(v1)), MemberText(key, Serialize(v2)));
  }

  /** `{`, texts that read back as two members with the same key, separated by `,`, then `}`. */
  lemma DuplicateKeyOf(key: Text, v1: Value, v2: Value, a: Text, b: Text)
    requires MemberReads(a, key, v1) && MemberReads(b, key, v2)
    ensures ParseJson(Some([LBrace] + a + [Comma] + b + [RBrace])) == Ok(Obj([(key, v2)]))
  {
    var s := [LBrace] + a + [Comma] + b + [RBrace];
    PairShapeOf(key, v1, v2, a, b, s);
    PairParse(s, |a| + 1, |a| + |b| + 2, key, v1, v2);
  }

  /** The text `{a,b}` has the shape of a pair when `a` and `b` read back as members with the same key. */
  lemma PairShapeOf(key: Text, v1: Value, v2: Value, a: Text, b: Text, s: Text)
    requires MemberReads(a, key, v1) && MemberReads(b, key, v2)
    requires s == [LBrace] + a + [Comma] + b + [RBrace]
    ensures PairShape(s, |a| + 1, |a| + |b| + 2, key, v1, v2)
  {
    PairLayout(a, b, s);
    assert s[1] == a[0];
  }

  /** A whole text of the shape of a pair parses to the map holding the later value. */
  lemma PairParse(s: Text, e1: nat, e2: nat, key: Text, v1: Value, v2: Value)
    requires PairShape(s, e1, e2, key, v1, v2)
    ensures ParseJson(Some(s)) == Ok(Obj([(key, v2)]))
  {
    TwoMembers(s, e1, e2, key, v1, v2);
    ValueAtObject(s, 0);
    ParseJsonOf(s, ObjectAt(s, 0));
  }
}
