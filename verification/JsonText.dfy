/** The JSON that the host writes: encoded strings, integers, values and responses are texts of the
    grammar of RFC 8259, and denote what was encoded. */
module JsonText {
  import opened Wrappers
  import opened JsonScan
  import C = CapturedOutput
  import V = ValueConversion

  // ---------- what a text denotes ----------

  function HexValue(c: char): nat {
    if '0' <= c <= '9' then c as int - '0' as int
    else if 'a' <= c <= 'f' then c as int - 'a' as int + 10
    else if 'A' <= c <= 'F' then c as int - 'A' as int + 10
    else 0
  }

  /** Section 7 of RFC 8259, without pairs of escapes for one character. */
  ghost predicate ItemMeans(i: StrItem, c: char) {
    match i
    case Plain(p) => p == c
    case Escape(e) =>
      c as int == if e == 'b' then 8 else if e == 't' then 9 else if e == 'n' then 10
        else if e == 'f' then 12 else if e == 'r' then 13 else e as int
    case Unicode(hex) =>
      && |hex| == 4
      && c as int == 4096 * HexValue(hex[0]) + 256 * HexValue(hex[1]) + 16 * HexValue(hex[2]) + HexValue(hex[3])
  }

  ghost predicate StringMeans(items: seq<StrItem>, s: string) {
    |items| == |s| && forall k | 0 <= k < |items| :: ItemOk(items[k]) && ItemMeans(items[k], s[k])
  }

  /** An integer, written without fraction and exponent. */
  ghost predicate IntegerMeans(j: Json, i: int) {
    && j.Number? && j.fraction == None && j.exponent == None && DigitsOk(j.digits)
    && var n: int := Value(j.digits);
    i == if j.negative then -n else n
  }

  // ---------- strings ----------

  lemma {:induction false} EscapedAppend(a: C.Bytes, b: C.Bytes)
    ensures C.Escaped(a + b) == C.Escaped(a) + C.Escaped(b)
  {
    if a == [] {
      assert a + b == b;
    } else {
      assert (a + b)[1..] == a[1..] + b;
      EscapedAppend(a[1..], b);
    }
  }

  /** How the host writes a character in a string. */
  function ItemFor(c: char): StrItem {
    var n := c as int;
    if c == '"' || c == '\\' then Escape(c)
    else if n == 8 then Escape('b')
    else if n == 9 then Escape('t')
    else if n == 10 then Escape('n')
    else if n == 12 then Escape('f')
    else if n == 13 then Escape('r')
    else if n < 32 then Unicode("00" + [('0' as int + n / 16) as char, HexChar(n % 16)])
    else Plain(c)
  }

  function HexChar(n: nat): (c: char)
    requires n < 16
    ensures IsHex(c) && HexValue(c) == n && c as int == C.HexDigit(n)
  {
    if n < 10 then ('0' as int + n) as char else ('a' as int + n - 10) as char
  }

  lemma ItemForMeans(c: char)
    ensures ItemOk(ItemFor(c)) && ItemMeans(ItemFor(c), c)
  {
    var letters := "\"\\/bfnrt";
    assert letters[0] == '"' && letters[1] == '\\' && letters[3] == 'b' && letters[4] == 'f';
    assert letters[5] == 'n' && letters[6] == 'r' && letters[7] == 't';
  }

  lemma AsciiText(s: string)
    requires forall k | 0 <= k < |s| :: s[k] as int < 0x80
    ensures |C.Encode(s)| == |s| && forall k | 0 <= k < |s| :: C.Encode(s)[k] == s[k] as int
  {
    if s != "" { AsciiText(s[1..]); }
  }

  lemma {:induction false} Unescaped(b: C.Bytes)
    requires forall k | 0 <= k < |b| :: b[k] >= 0x80
    ensures C.Escaped(b) == b
  {
    hide C.EscapedByte;
    if b != [] {
      HighByte(b[0]);
      assert forall k | 0 <= k < |b| - 1 :: b[1..][k] == b[k + 1];
      Unescaped(b[1..]);
      assert b == [b[0]] + b[1..];
    }
  }

  lemma HighByte(n: Byte)
    requires n >= 0x80
    ensures C.EscapedByte(n) == [n]
  {}

  lemma OneEscaped(n: Byte)
    ensures C.Escaped([n]) == C.EscapedByte(n)
  {
    assert [n][1..] == [];
    assert C.EscapedByte(n) + C.Escaped([]) == C.EscapedByte(n);
  }

  lemma ItemForBytes(c: char)
    ensures C.Encode(RenderItem(ItemFor(c))) == C.Escaped(C.Utf8(c))
  {
    hide C.Encode, C.Escaped;
    var n := c as int;
    if n >= 0x80 {
      Unescaped(C.Utf8(c));
      OneEncoded(c);
    } else {
      OneEscaped(n);
      AsciiText(RenderItem(ItemFor(c)));
    }
  }

  lemma OneEncoded(c: char)
    ensures C.Encode([c]) == C.Utf8(c)
  {
    assert [c][1..] == "";
    assert C.Utf8(c) + C.Encode("") == C.Utf8(c);
  }

  /** An encoded string is a literal of the grammar that means the string. */
  lemma StringText(s: string) returns (items: seq<StrItem>)
    ensures StringMeans(items, s) && ItemsOk(items)
    ensures C.Encode(RenderString(items)) == C.Quoted(C.Encode(s))
  {
    items := ItemsText(s);
    C.EncodeAppend("\"" + RenderItems(items), "\"");
    C.EncodeAppend("\"", RenderItems(items));
    AsciiText("\"");
    assert C.Encode("\"") == [0x22];
  }

  lemma {:induction false} ItemsText(s: string) returns (items: seq<StrItem>)
    ensures StringMeans(items, s) && C.Encode(RenderItems(items)) == C.Escaped(C.Encode(s))
  {
    items := [];
    if s != "" {
      hide ItemMeans, ItemOk, ItemFor, C.Escaped, RenderItem;
      var rest := ItemsText(s[1..]);
      items := [ItemFor(s[0])] + rest;
      assert items[1..] == rest;
      ItemForMeans(s[0]);
      ItemForBytes(s[0]);
      C.EncodeAppend(RenderItem(ItemFor(s[0])), RenderItems(rest));
      EscapedAppend(C.Utf8(s[0]), C.Encode(s[1..]));
    }
  }

  // ---------- integers ----------

  function DigitChar(n: nat): (c: char)
    requires n < 10
    ensures IsDigit(c) && DigitValue(c) == n
  {
    ('0' as int + n) as char
  }

  lemma {:induction false} DigitsText(n: nat) returns (d: string)
    ensures DigitsOk(d) && Value(d) == n && (d[0] == '0' <==> n == 0) && C.Encode(d) == V.Digits(n)
  {
    var last := [DigitChar(n % 10)];
    OneEncoded(last[0]);
    OneDigit(last);
    if n < 10 {
      d := last;
      assert V.Digits(n) == [] + [0x30 + n % 10];
    } else {
      var rest := DigitsText(n / 10);
      d := rest + last;
      SplitValue(d, |rest|);
      assert d[..|rest|] == rest && d[|rest|..] == last;
      assert Pow10(1) == 10 * Pow10(0);
      C.EncodeAppend(rest, last);
    }
  }

  lemma OneDigit(d: string)
    requires |d| == 1 && IsDigit(d[0])
    ensures AllDigits(d) && Value(d) == DigitValue(d[0])
  {
    assert Value(d[1..]) == 0;
    assert Pow10(0) == 1;
  }

  lemma IntegerText(i: int, realText: nat -> C.Bytes) returns (j: Json)
    ensures Grammatical(j) && IntegerMeans(j, i) && C.Encode(Render(j)) == V.Encoded(V.Integer(i), realText)
  {
    var d := DigitsText(if i < 0 then -i else i);
    j := Number(i < 0, d, None, None);
    assert RenderNumber(i < 0, d, None, None) == SignPart(i < 0) + d;
    C.EncodeAppend(SignPart(i < 0), d);
    AsciiText("-");
    assert C.Encode("-") == [0x2D];
    assert [] + C.Encode(d) == C.Encode(d);
  }

  // ---------- values ----------

  /** The text denotes the value, and has no blanks between its tokens. What a number with a fraction or
      an exponent denotes is a parameter: the text of each real. */
  ghost predicate Denotes(j: Json, v: V.Json, reals: nat -> Json)
    decreases v
  {
    match v
    case Null => j == Literal("null")
    case Bool(b) => j == Literal(if b then "true" else "false")
    case Integer(i) => IntegerMeans(j, i)
    case Real(bits) => j == reals(bits)
    case String(s) => j.Str? && StringMeans(j.items, s)
    case Array(items) => j.Arr? && j.blank == "" && ElementsDenote(j.elements, items, reals)
    case Map(entries) => j.Obj? && j.blank == "" && MembersDenote(j.members, entries, reals)
  }

  ghost predicate ElementsDenote(es: seq<Element>, items: seq<V.Json>, reals: nat -> Json)
    decreases items
  {
    && |es| == |items|
    && (items != [] ==>
          && es[0].before == "" == es[0].after && Denotes(es[0].value, items[0], reals)
          && ElementsDenote(es[1..], items[1..], reals))
  }

  ghost predicate MembersDenote(ms: seq<Member>, entries: seq<V.Member>, reals: nat -> Json)
    decreases entries
  {
    && |ms| == |entries|
    && (entries != [] ==>
          assert entries[0].value < entries[0];
          && ms[0].before == "" == ms[0].after && StringMeans(ms[0].name, entries[0].key)
          && ms[0].element.before == "" == ms[0].element.after
          && Denotes(ms[0].element.value, entries[0].value, reals)
          && MembersDenote(ms[1..], entries[1..], reals))
  }

  /** The text of each real is a number of the grammar. */
  ghost predicate RealsAreNumbers(reals: nat -> Json, realText: nat -> C.Bytes) {
    forall bits ::
      reals(bits).Number? && Grammatical(reals(bits)) && C.Encode(Render(reals(bits))) == realText(bits)
  }

  /** What is measured against the limit on the encoding is the UTF-8 of a text of the grammar, without
      blanks, that denotes the value. */
  lemma {:induction false} EncodedIsText(v: V.Json, reals: nat -> Json, realText: nat -> C.Bytes) returns (j: Json)
    requires RealsAreNumbers(reals, realText)
    ensures Grammatical(j) && Denotes(j, v, reals) && C.Encode(Render(j)) == V.Encoded(v, realText)
    decreases v, 1
  {
    match v
    case Null => j := Literal("null");
    case Bool(b) => j := Literal(if b then "true" else "false");
    case Integer(i) => j := IntegerText(i, realText);
    case Real(bits) => j := reals(bits);
    case String(s) =>
      var items := StringText(s);
      j := Str(items);
    case Array(items) =>
      var es := ItemsAreText(items, reals, realText);
      j := Arr("", es);
      Brackets("[", if es == [] then "" else RenderElements(es), "]");
    case Map(entries) =>
      var ms := EntriesAreText(entries, reals, realText);
      j := Obj("", ms);
      Brackets("{", if ms == [] then "" else RenderMembers(ms), "}");
  }

  lemma Brackets(open: string, body: string, close: string)
    requires |open| == 1 == |close| && open[0] as int < 0x80 && close[0] as int < 0x80
    ensures C.Encode(open + body + close) == [open[0] as int] + C.Encode(body) + [close[0] as int]
  {
    C.EncodeAppend(open + body, close);
    C.EncodeAppend(open, body);
    AsciiText(open);
    AsciiText(close);
    assert C.Encode(open) == [open[0] as int] && C.Encode(close) == [close[0] as int];
  }

  lemma {:induction false} ItemsAreText(items: seq<V.Json>, reals: nat -> Json, realText: nat -> C.Bytes)
      returns (es: seq<Element>)
    requires RealsAreNumbers(reals, realText)
    ensures ElementsDenote(es, items, reals) && forall i | 0 <= i < |es| :: ElementOk(es[i])
    ensures C.Encode(RenderElements(es)) == V.EncodedItems(items, realText)
    decreases items, 0
  {
    es := [];
    if items != [] {
      hide Grammatical, Denotes, Render, RenderElement, V.Encoded, C.Encode;
      var j := EncodedIsText(items[0], reals, realText);
      var rest := ItemsAreText(items[1..], reals, realText);
      var e := Element("", j, "");
      es := [e] + rest;
      assert es[1..] == rest;
      BareElement(e);
      if |items| > 1 { CommaJoins(RenderElement(e), RenderElements(rest)); }
    }
  }

  lemma BareElement(e: Element)
    requires e.before == "" == e.after
    ensures RenderElement(e) == Render(e.value)
  {
    assert "" + Render(e.value) + "" == Render(e.value);
  }

  lemma CommaJoins(a: string, b: string)
    ensures C.Encode(a + "," + b) == C.Encode(a) + ([0x2C] + C.Encode(b))
  {
    C.EncodeAppend(a + ",", b);
    C.EncodeAppend(a, ",");
    AsciiText(",");
    assert C.Encode(",") == [0x2C];
  }

  lemma {:induction false} EntriesAreText(entries: seq<V.Member>, reals: nat -> Json, realText: nat -> C.Bytes)
      returns (ms: seq<Member>)
    requires RealsAreNumbers(reals, realText)
    ensures MembersDenote(ms, entries, reals) && forall i | 0 <= i < |ms| :: MemberOk(ms[i])
    ensures C.Encode(RenderMembers(ms)) == V.EncodedEntries(entries, realText)
    decreases entries, 0
  {
    ms := [];
    if entries != [] {
      hide Denotes, RenderMember, RenderMembers, V.Encoded, StringMeans, MemberOk, MembersDenote, C.Quoted, C.Encode;
      assert entries[0].value < entries[0];
      var m := EntryIsText(entries[0].key, entries[0].value, reals, realText);
      var rest := EntriesAreText(entries[1..], reals, realText);
      MembersDenoteMore(m, rest, entries, reals);
      ms := [m] + rest;
      FirstMember(m, rest);
      if |entries| > 1 { CommaJoins(RenderMember(m), RenderMembers(rest)); }
    }
  }

  lemma FirstMember(m: Member, rest: seq<Member>)
    ensures RenderMembers([m] + rest) ==
      if rest == [] then RenderMember(m) else RenderMember(m) + "," + RenderMembers(rest)
  {
    assert ([m] + rest)[1..] == rest;
  }

  lemma {:induction false} EntryIsText(key: string, v: V.Json, reals: nat -> Json, realText: nat -> C.Bytes)
      returns (m: Member)
    requires RealsAreNumbers(reals, realText)
    ensures m.before == "" == m.after && StringMeans(m.name, key) && MemberOk(m)
    ensures m.element.before == "" == m.element.after && Denotes(m.element.value, v, reals)
    ensures C.Encode(RenderMember(m)) == C.Quoted(C.Encode(key)) + [0x3A] + V.Encoded(v, realText)
    decreases v, 2
  {
    hide Grammatical, Denotes, Render, RenderMember, V.Encoded, StringMeans, ItemsOk, C.Quoted, C.Encode;
    var name := StringText(key);
    var j := EncodedIsText(v, reals, realText);
    m := Member("", name, "", Element("", j, ""));
    OneMember(m);
  }

  lemma MembersDenoteMore(m: Member, rest: seq<Member>, entries: seq<V.Member>, reals: nat -> Json)
    requires entries != [] && MembersDenote(rest, entries[1..], reals)
    requires m.before == "" == m.after && StringMeans(m.name, entries[0].key)
    requires m.element.before == "" == m.element.after && Denotes(m.element.value, entries[0].value, reals)
    ensures MembersDenote([m] + rest, entries, reals) && |rest| == |entries| - 1
  {
    assert entries[0].value < entries[0];
    assert ([m] + rest)[1..] == rest;
  }

  lemma OneMember(m: Member)
    requires m.before == m.after == m.element.before == m.element.after == ""
    ensures C.Encode(RenderMember(m)) == C.Encode(RenderString(m.name)) + [0x3A] + C.Encode(Render(m.element.value))
  {
    var name, value := RenderString(m.name), Render(m.element.value);
    assert RenderMember(m) == name + ":" + value;
    C.EncodeAppend(name + ":", value);
    C.EncodeAppend(name, ":");
    AsciiText(":");
    assert C.Encode(":") == [0x3A];
  }

  // ---------- what is written can be read ----------

  /** The text of each real has a fraction or an exponent. */
  ghost predicate RealsAreMarked(reals: nat -> Json) {
    forall bits :: reals(bits).Number? && (reals(bits).fraction.Some? || reals(bits).exponent.Some?)
  }

  /** The integer preflight accepts the encoding of every legal value. */
  lemma EncodedPasses(v: V.Json, reals: nat -> Json, realText: nat -> C.Bytes) returns (j: Json)
    requires RealsAreNumbers(reals, realText) && RealsAreMarked(reals) && V.Legal(v)
    ensures C.Encode(Render(j)) == V.Encoded(v, realText) && Denotes(j, v, reals) && Accepts(Render(j))
  {
    hide Grammatical, Denotes, Render, RealsAreNumbers, RealsAreMarked, V.Legal, V.Encoded, IntegersSafe, Accepts;
    j := EncodedIsText(v, reals, realText);
    DenotedIsSafe(j, v, reals);
    var e := Element("", j, "");
    BareElement(e);
    ScanIsExact(e);
  }

  lemma {:induction false} DenotedIsSafe(j: Json, v: V.Json, reals: nat -> Json)
    requires Grammatical(j) && Denotes(j, v, reals) && RealsAreMarked(reals) && V.Legal(v)
    ensures IntegersSafe(j)
    decreases v, 1
  {
    match v
    case Array(items) => ElementsAreSafe(j.elements, items, reals);
    case Map(entries) => MembersAreSafe(j.members, entries, reals);
    case _ =>
  }

  lemma {:induction false} ElementsAreSafe(es: seq<Element>, items: seq<V.Json>, reals: nat -> Json)
    requires forall i | 0 <= i < |es| :: ElementOk(es[i])
    requires ElementsDenote(es, items, reals) && RealsAreMarked(reals) && forall x <- items :: V.Legal(x)
    ensures forall i | 0 <= i < |es| :: ElementSafe(es[i])
    decreases items, 0
  {
    if items != [] {
      hide Denotes, IntegersSafe, V.Legal;
      DenotedIsSafe(es[0].value, items[0], reals);
      ElementsAreSafe(es[1..], items[1..], reals);
      assert forall i | 1 <= i < |es| :: es[i] == es[1..][i - 1];
    }
  }

  lemma {:induction false} MembersAreSafe(ms: seq<Member>, entries: seq<V.Member>, reals: nat -> Json)
    requires forall i | 0 <= i < |ms| :: MemberOk(ms[i])
    requires MembersDenote(ms, entries, reals) && RealsAreMarked(reals) && forall m <- entries :: V.Legal(m.value)
    ensures forall i | 0 <= i < |ms| :: ElementSafe(ms[i].element)
    decreases entries, 0
  {
    if entries != [] {
      hide Denotes, IntegersSafe, V.Legal, StringMeans;
      assert entries[0].value < entries[0];
      assert entries[0] in entries;
      assert MemberOk(ms[0]) && ElementOk(ms[0].element);
      DenotedIsSafe(ms[0].element.value, entries[0].value, reals);
      MembersAreSafe(ms[1..], entries[1..], reals);
      assert forall i | 1 <= i < |ms| :: ms[i] == ms[1..][i - 1];
    }
  }

  // ---------- responses ----------

  function Truth(b: bool): Json { Literal(if b then "true" else "false") }

  /** The members have these names and values, and no blanks. */
  ghost predicate MembersAre(ms: seq<Member>, names: seq<string>, values: seq<Json>) {
    && |ms| == |names| == |values|
    && forall i | 0 <= i < |ms| ::
      && ms[i].before == ms[i].after == "" && StringMeans(ms[i].name, names[i])
      && ms[i].element == Element("", values[i], "")
  }

  /** Encoded fields are the text of members with these names and values. */
  lemma {:induction false} FieldsText(fs: seq<C.Field>, names: seq<string>, values: seq<Json>)
      returns (ms: seq<Member>)
    requires |fs| == |names| == |values|
    requires forall i | 0 <= i < |fs| ::
      fs[i].name == names[i] && Grammatical(values[i]) && fs[i].value == C.Encode(Render(values[i]))
    ensures MembersAre(ms, names, values) && forall i | 0 <= i < |ms| :: MemberOk(ms[i])
    ensures C.Encode(RenderMembers(ms)) == C.FieldsBytes(fs)
  {
    ms := [];
    if fs != [] {
      hide Grammatical, Render, RenderMember, StringMeans, ItemsOk, MembersAre, C.Quoted, C.Encode;
      var name := StringText(names[0]);
      var rest := FieldsText(fs[1..], names[1..], values[1..]);
      var m := Member("", name, "", Element("", values[0], ""));
      ms := [m] + rest;
      assert ms[1..] == rest;
      MembersMore(m, rest, names, values);
      OneMember(m);
      if |fs| > 1 { CommaJoins(RenderMember(m), RenderMembers(rest)); }
    }
  }

  lemma MembersMore(m: Member, rest: seq<Member>, names: seq<string>, values: seq<Json>)
    requires |names| == |values| > 0 && MembersAre(rest, names[1..], values[1..])
    requires m.before == m.after == "" && StringMeans(m.name, names[0]) && m.element == Element("", values[0], "")
    ensures MembersAre([m] + rest, names, values) && |rest| + 1 == |names|
  {
    hide StringMeans;
  }

  lemma ObjectText(fs: seq<C.Field>, names: seq<string>, values: seq<Json>) returns (ms: seq<Member>)
    requires |fs| == |names| == |values| > 0
    requires forall i | 0 <= i < |fs| ::
      fs[i].name == names[i] && Grammatical(values[i]) && fs[i].value == C.Encode(Render(values[i]))
    ensures MembersAre(ms, names, values) && Grammatical(Obj("", ms))
    ensures C.Encode(Render(Obj("", ms))) == C.ObjectBytes(fs)
  {
    hide C.Encode, StringMeans, MemberOk;
    ms := FieldsText(fs, names, values);
    Brackets("{", RenderMembers(ms), "}");
  }

  /** A successful response is the text of an object with these four members, in this order; its
      `stdout` means the captured output. */
  lemma SuccessText(out: string, truncated: bool, result: Json) returns (ms: seq<Member>, stdout: seq<StrItem>)
    requires Grammatical(result)
    ensures StringMeans(stdout, out)
    ensures MembersAre(ms, ["ok", "stdout", "stdoutTruncated", "result"],
      [Literal("true"), Str(stdout), Truth(truncated), result])
    ensures Grammatical(Obj("", ms)) && C.Encode(Render(Obj("", ms))) ==
      C.Body(C.Success(C.Encode(out), truncated, C.Encode(Render(result))))
  {
    hide C.Encode, C.Quoted, StringMeans, ItemsOk, RenderString, C.ObjectBytes;
    stdout := StringText(out);
    var names := ["ok", "stdout", "stdoutTruncated", "result"];
    var values := [Literal("true"), Str(stdout), Truth(truncated), result];
    ms := ObjectText(C.Fields(C.Success(C.Encode(out), truncated, C.Encode(Render(result)))), names, values);
  }

  /** A failed one is an object whose `error` has three members. */
  lemma FailureText(out: string, truncated: bool, kind: string, typeName: string, message: string)
      returns (ms: seq<Member>, stdout: seq<StrItem>, es: seq<Member>, parts: seq<seq<StrItem>>)
    ensures StringMeans(stdout, out) && |parts| == 3
    ensures StringMeans(parts[0], kind) && StringMeans(parts[1], typeName) && StringMeans(parts[2], message)
    ensures MembersAre(es, ["kind", "type", "message"], [Str(parts[0]), Str(parts[1]), Str(parts[2])])
    ensures MembersAre(ms, ["ok", "stdout", "stdoutTruncated", "error"],
      [Literal("false"), Str(stdout), Truth(truncated), Obj("", es)])
    ensures Grammatical(Obj("", ms)) && C.Encode(Render(Obj("", ms))) ==
      C.Body(C.Failure(C.Encode(out), truncated, C.Encode(kind), C.Encode(typeName), C.Encode(message)))
  {
    hide C.Encode, C.Quoted, StringMeans, ItemsOk, RenderString, C.ObjectBytes, MembersAre;
    stdout := StringText(out);
    var a := StringText(kind);
    var b := StringText(typeName);
    var c := StringText(message);
    parts := [a, b, c];
    es := ObjectText(C.ErrorFields(C.Encode(kind), C.Encode(typeName), C.Encode(message)),
                     ["kind", "type", "message"], [Str(a), Str(b), Str(c)]);
    var r := C.Failure(C.Encode(out), truncated, C.Encode(kind), C.Encode(typeName), C.Encode(message));
    ms := ObjectText(C.Fields(r), ["ok", "stdout", "stdoutTruncated", "error"],
                     [Literal("false"), Str(stdout), Truth(truncated), Obj("", es)]);
  }
}
