/** The integer preflight of requests.rs: one pass over a JSON text that skips strings and refuses
    integer tokens beyond 2^53 - 1, against the grammar of RFC 8259. */
module JsonScan {
  import opened Wrappers

  const MAX_SAFE_INTEGER: nat := 9_007_199_254_740_991
  const MAX_DIGITS: string := "9007199254740991"

  // ---------- the scanner ----------

  predicate IsDigit(c: char) { '0' <= c <= '9' }

  predicate IsTokenStart(c: char) { c == '-' || IsDigit(c) }

  predicate IsTokenChar(c: char) { IsDigit(c) || c == '-' || c == '+' || c == '.' || c == 'e' || c == 'E' }

  predicate IsFloatChar(c: char) { c == '.' || c == 'e' || c == 'E' }

  /** The length of the longest prefix of token characters. */
  function TokenLength(s: string): (n: nat)
    ensures n <= |s|
    ensures s != [] && IsTokenStart(s[0]) ==> n > 0
  {
    if s == [] || !IsTokenChar(s[0]) then 0 else 1 + TokenLength(s[1..])
  }

  /** Byte slices compare lexicographically. */
  predicate Greater(a: string, b: string) {
    if a == [] then false
    else if b == [] then true
    else if a[0] != b[0] then a[0] > b[0]
    else Greater(a[1..], b[1..])
  }

  predicate HasFloatChar(s: string) {
    exists i | 0 <= i < |s| :: IsFloatChar(s[i])
  }

  function Magnitude(token: string): string {
    if token != [] && token[0] == '-' then token[1..] else token
  }

  predicate TooLarge(magnitude: string) {
    |magnitude| > |MAX_DIGITS| || (|magnitude| == |MAX_DIGITS| && Greater(magnitude, MAX_DIGITS))
  }

  predicate TokenOk(token: string) {
    HasFloatChar(token) || !TooLarge(Magnitude(token))
  }

  /** What the scanner answers for the rest of the text, outside and inside a string. */
  predicate Accepts(s: string)
    decreases |s|
  {
    if s == [] then true
    else if s[0] == '"' then AcceptsInString(s[1..])
    else if IsTokenStart(s[0]) then
      var n := TokenLength(s);
      TokenOk(s[..n]) && Accepts(s[n..])
    else Accepts(s[1..])
  }

  predicate AcceptsInString(s: string)
    decreases |s|
  {
    if s == [] then true
    else if s[0] == '\\' then |s| == 1 || AcceptsInString(s[2..])
    else if s[0] == '"' then Accepts(s[1..])
    else AcceptsInString(s[1..])
  }

  method FindFloatChar(token: string) returns (found: bool)
    ensures found <==> HasFloatChar(token)
  {
    for i := 0 to |token|
      invariant forall k | 0 <= k < i :: !IsFloatChar(token[k])
    {
      if IsFloatChar(token[i]) { return true; }
    }
    found := false;
  }

  /** The inner loop: where the token that starts at `start` ends. */
  method EndOfToken(body: string, start: nat) returns (index: nat)
    requires start <= |body|
    ensures index == start + TokenLength(body[start..])
  {
    index := start;
    while index < |body| && IsTokenChar(body[index])
      invariant start <= index <= |body|
      invariant TokenLength(body[start..]) == index - start + TokenLength(body[index..])
    {
      index := index + 1;
    }
  }

  /** The answer for the text from `index` on. */
  predicate AcceptsFrom(body: string, index: nat, inString: bool) {
    if inString then AcceptsInString(Rest(body, index)) else Accepts(Rest(body, index))
  }

  function Rest(body: string, index: nat): string {
    if index >= |body| then [] else body[index..]
  }

  lemma TokenStep(body: string, start: nat, index: nat)
    requires start < index <= |body| && index == start + TokenLength(body[start..]) && IsTokenStart(body[start])
    ensures AcceptsFrom(body, start, false) <==> TokenOk(body[start..index]) && AcceptsFrom(body, index, false)
  {
    var s := body[start..];
    assert s[0] == body[start];
    assert s[..index - start] == body[start..index] && s[index - start..] == Rest(body, index);
    assert Accepts(s) <==> TokenOk(s[..index - start]) && Accepts(s[index - start..]);
  }

  lemma CharStep(body: string, index: nat, inString: bool)
    requires index < |body|
    ensures inString && body[index] == '\\' ==> AcceptsFrom(body, index, true) == AcceptsFrom(body, index + 2, true)
    ensures inString && body[index] == '"' ==> AcceptsFrom(body, index, true) == AcceptsFrom(body, index + 1, false)
    ensures inString && body[index] != '"' && body[index] != '\\' ==>
      AcceptsFrom(body, index, true) == AcceptsFrom(body, index + 1, true)
    ensures !inString && body[index] == '"' ==> AcceptsFrom(body, index, false) == AcceptsFrom(body, index + 1, true)
    ensures !inString && body[index] != '"' && !IsTokenStart(body[index]) ==>
      AcceptsFrom(body, index, false) == AcceptsFrom(body, index + 1, false)
  {
    var s := Rest(body, index);
    assert s[0] == body[index] && s[1..] == Rest(body, index + 1);
    assert |s| > 1 ==> s[2..] == Rest(body, index + 2);
    assert inString && s[0] == '\\' ==> AcceptsInString(s) == (|s| == 1 || AcceptsInString(s[2..]));
    assert inString && s[0] == '"' ==> AcceptsInString(s) == Accepts(s[1..]);
    assert inString && s[0] != '"' && s[0] != '\\' ==> AcceptsInString(s) == AcceptsInString(s[1..]);
    assert !inString && s[0] == '"' ==> Accepts(s) == AcceptsInString(s[1..]);
    assert !inString && s[0] != '"' && !IsTokenStart(s[0]) ==> Accepts(s) == Accepts(s[1..]);
  }

  method ValidateJsonIntegerLexemes(body: string) returns (ok: bool)
    ensures ok <==> Accepts(body)
  {
    var index := 0;
    var inString := false;
    assert Rest(body, 0) == body;
    while index < |body|
      invariant 0 <= index
      invariant Accepts(body) <==> AcceptsFrom(body, index, inString)
      decreases |body| - index
    {
      var c := body[index];
      CharStep(body, index, inString);
      if inString {
        if c == '\\' {
          index := index + 1;
        } else if c == '"' {
          inString := false;
        }
        index := index + 1;
      } else if c == '"' {
        inString := true;
        index := index + 1;
      } else if IsTokenStart(c) {
        var start := index;
        index := EndOfToken(body, start);
        TokenStep(body, start, index);
        var token := body[start..index];
        var isFloat := FindFloatChar(token);
        if !isFloat && TooLarge(Magnitude(token)) {
          return false;
        }
      } else {
        index := index + 1;
      }
    }
    assert Rest(body, index) == [];
    ok := true;
  }

  // ---------- the grammar ----------

  datatype StrItem = Plain(c: char) | Escape(c: char) | Unicode(hex: string)

  datatype Json =
    | Literal(word: string)
    | Number(negative: bool, digits: string, fraction: Option<string>, exponent: Option<Exponent>)
    | Str(items: seq<StrItem>)
    | Arr(blank: string, elements: seq<Element>)
    | Obj(blank: string, members: seq<Member>)

  datatype Exponent = Exponent(mark: char, sign: string, digits: string)

  /** A value with the white space around it. */
  datatype Element = Element(before: string, value: Json, after: string)

  datatype Member = Member(before: string, name: seq<StrItem>, after: string, element: Element)

  predicate IsBlank(s: string) {
    forall i | 0 <= i < |s| :: s[i] == ' ' || s[i] == '\t' || s[i] == '\n' || s[i] == '\r'
  }

  predicate AllDigits(s: string) {
    forall i | 0 <= i < |s| :: IsDigit(s[i])
  }

  predicate IsHex(c: char) { IsDigit(c) || 'a' <= c <= 'f' || 'A' <= c <= 'F' }

  /** Section 7 of RFC 8259. */
  predicate ItemOk(i: StrItem) {
    match i
    case Plain(c) => c != '"' && c != '\\' && c >= ' '
    case Escape(c) => c in "\"\\/bfnrt"
    case Unicode(hex) => |hex| == 4 && forall k | 0 <= k < 4 :: IsHex(hex[k])
  }

  predicate ItemsOk(s: seq<StrItem>) {
    forall i | 0 <= i < |s| :: ItemOk(s[i])
  }

  /** Section 6 of RFC 8259: no leading zero. */
  predicate DigitsOk(d: string) {
    d != [] && AllDigits(d) && (|d| > 1 ==> d[0] != '0')
  }

  ghost predicate Grammatical(j: Json)
    decreases j
  {
    match j
    case Literal(w) => w == "null" || w == "true" || w == "false"
    case Number(_, digits, fraction, exponent) =>
      && DigitsOk(digits)
      && (fraction.Some? ==> fraction.value != [] && AllDigits(fraction.value))
      && (exponent.Some? ==>
            && (exponent.value.mark == 'e' || exponent.value.mark == 'E')
            && (exponent.value.sign == "" || exponent.value.sign == "+" || exponent.value.sign == "-")
            && exponent.value.digits != [] && AllDigits(exponent.value.digits))
    case Str(items) => ItemsOk(items)
    case Arr(blank, es) => IsBlank(blank) && forall i | 0 <= i < |es| :: ElementOk(es[i])
    case Obj(blank, ms) => IsBlank(blank) && forall i | 0 <= i < |ms| :: MemberOk(ms[i])
  }

  ghost predicate MemberOk(m: Member)
    decreases m
  {
    IsBlank(m.before) && ItemsOk(m.name) && IsBlank(m.after) && ElementOk(m.element)
  }

  ghost predicate ElementOk(e: Element)
    decreases e
  {
    IsBlank(e.before) && Grammatical(e.value) && IsBlank(e.after)
  }

  function RenderItem(i: StrItem): string {
    match i
    case Plain(c) => [c]
    case Escape(c) => ['\\', c]
    case Unicode(hex) => "\\u" + hex
  }

  function RenderItems(s: seq<StrItem>): string {
    if s == [] then [] else RenderItem(s[0]) + RenderItems(s[1..])
  }

  function RenderString(s: seq<StrItem>): string {
    "\"" + RenderItems(s) + "\""
  }

  function SignPart(negative: bool): string { if negative then "-" else "" }

  function FractionPart(fraction: Option<string>): string {
    if fraction.Some? then "." + fraction.value else ""
  }

  function ExponentPart(exponent: Option<Exponent>): string {
    if exponent.Some? then [exponent.value.mark] + exponent.value.sign + exponent.value.digits else ""
  }

  predicate TokenChars(s: string) {
    forall i | 0 <= i < |s| :: IsTokenChar(s[i])
  }

  function RenderNumber(negative: bool, digits: string, fraction: Option<string>, exponent: Option<Exponent>): string {
    SignPart(negative) + digits + FractionPart(fraction) + ExponentPart(exponent)
  }

  function Render(j: Json): string
    decreases j, 1
  {
    match j
    case Literal(w) => w
    case Number(negative, digits, fraction, exponent) => RenderNumber(negative, digits, fraction, exponent)
    case Str(items) => RenderString(items)
    case Arr(blank, es) => "[" + (if es == [] then blank else RenderElements(es)) + "]"
    case Obj(blank, ms) => "{" + (if ms == [] then blank else RenderMembers(ms)) + "}"
  }

  function RenderElement(e: Element): string
    decreases e, 2
  {
    e.before + Render(e.value) + e.after
  }

  function RenderElements(es: seq<Element>): string
    decreases es, 0
  {
    if es == [] then ""
    else if |es| == 1 then RenderElement(es[0])
    else RenderElement(es[0]) + "," + RenderElements(es[1..])
  }

  function RenderMember(m: Member): string
    decreases m, 2
  {
    m.before + RenderString(m.name) + m.after + ":" + RenderElement(m.element)
  }

  function RenderMembers(ms: seq<Member>): string
    decreases ms, 0
  {
    if ms == [] then ""
    else if |ms| == 1 then RenderMember(ms[0])
    else RenderMember(ms[0]) + "," + RenderMembers(ms[1..])
  }

  // ---------- the numeric reading ----------

  function Pow10(n: nat): (p: nat)
    ensures p >= 1
  {
    if n == 0 then 1 else 10 * Pow10(n - 1)
  }

  function DigitValue(c: char): (v: nat)
    requires IsDigit(c)
    ensures v <= 9
  {
    c as int - '0' as int
  }

  function Value(d: string): nat
    requires AllDigits(d)
  {
    if d == [] then 0 else DigitValue(d[0]) * Pow10(|d| - 1) + Value(d[1..])
  }

  /** Every integer token of the value is within the safe range. */
  ghost predicate IntegersSafe(j: Json)
    requires Grammatical(j)
    decreases j
  {
    match j
    case Literal(_) => true
    case Number(_, digits, fraction, exponent) =>
      fraction.Some? || exponent.Some? || Value(digits) <= MAX_SAFE_INTEGER
    case Str(_) => true
    case Arr(_, es) => forall i | 0 <= i < |es| :: ElementSafe(es[i])
    case Obj(_, ms) => forall i | 0 <= i < |ms| :: ElementSafe(ms[i].element)
  }

  ghost predicate ElementSafe(e: Element)
    decreases e
  {
    ElementOk(e) && IntegersSafe(e.value)
  }

  ghost predicate ElementsSafe(es: seq<Element>) {
    forall i | 0 <= i < |es| :: ElementSafe(es[i])
  }

  ghost predicate MembersSafe(ms: seq<Member>) {
    forall i | 0 <= i < |ms| :: ElementSafe(ms[i].element)
  }

  lemma MulOrder(x: nat, y: nat, p: nat)
    requires x > y
    ensures x * p >= y * p + p
  {
    assert (x - y - 1) * p >= 0;
    assert x * p == y * p + p + (x - y - 1) * p;
  }

  lemma {:induction false} ValueBounds(d: string)
    requires AllDigits(d)
    ensures Value(d) < Pow10(|d|)
    ensures d != [] && d[0] != '0' ==> Pow10(|d| - 1) <= Value(d)
  {
    if d != [] {
      ValueBounds(d[1..]);
      var x, p := DigitValue(d[0]), Pow10(|d| - 1);
      MulOrder(10, x, p);
      if d[0] != '0' { MulOrder(x, 0, p); }
    }
  }

  lemma {:induction false} Pow10Grows(m: nat, n: nat)
    requires m <= n
    ensures Pow10(m) <= Pow10(n)
  {
    if m < n { Pow10Grows(m, n - 1); }
  }

  /** Lexicographic order is numeric order on digits of equal length. */
  lemma {:induction false} LexicographicIsNumeric(a: string, b: string)
    requires AllDigits(a) && AllDigits(b) && |a| == |b|
    ensures Greater(a, b) <==> Value(a) > Value(b)
  {
    if a != [] {
      LexicographicIsNumeric(a[1..], b[1..]);
      ValueBounds(a[1..]);
      ValueBounds(b[1..]);
      LeadingDigit(DigitValue(a[0]), DigitValue(b[0]), Pow10(|a| - 1), Value(a[1..]), Value(b[1..]));
    }
  }

  lemma LeadingDigit(x: nat, y: nat, p: nat, u: nat, v: nat)
    requires u < p && v < p
    ensures x > y ==> x * p + u > y * p + v
    ensures x < y ==> x * p + u < y * p + v
  {
    if x > y { MulOrder(x, y, p); }
    if x < y { MulOrder(y, x, p); }
  }

  lemma FourDigits(d: string)
    requires |d| == 4 && AllDigits(d)
    ensures Value(d) == 1000 * DigitValue(d[0]) + 100 * DigitValue(d[1]) + 10 * DigitValue(d[2]) + DigitValue(d[3])
  {
    assert d[1..][0] == d[1] && d[1..][1..][0] == d[2] && d[1..][1..][1..][0] == d[3];
    assert Pow10(3) == 1000 && Pow10(2) == 100 && Pow10(1) == 10 && Pow10(0) == 1;
    assert Value(d[1..][1..][1..]) == DigitValue(d[3]);
    assert Value(d[1..][1..]) == 10 * DigitValue(d[2]) + DigitValue(d[3]);
    assert Value(d[1..]) == 100 * DigitValue(d[1]) + Value(d[1..][1..]);
  }

  lemma Pow10Values()
    ensures Pow10(4) == 10000 && Pow10(8) == 1_0000_0000 && Pow10(12) == 1_0000_0000_0000
    ensures Pow10(15) == 1000_0000_0000_0000 && Pow10(16) == 1_0000_0000_0000_0000
  {
    assert Pow10(3) == 1000 && Pow10(4) == 10000;
    Pow10Adds(4, 4);
    Pow10Adds(8, 4);
    Pow10Adds(12, 3);
    Pow10Adds(12, 4);
  }

  lemma MaxDigitsValue()
    ensures AllDigits(MAX_DIGITS) && |MAX_DIGITS| == 16 && Value(MAX_DIGITS) == MAX_SAFE_INTEGER
  {
    MaxGroups();
    SixteenDigits(MAX_DIGITS);
  }

  lemma MaxGroups()
    ensures |MAX_DIGITS| == 16 && AllDigits(MAX_DIGITS)
    ensures Group(MAX_DIGITS, 0) == 9007 && Group(MAX_DIGITS, 4) == 1992
    ensures Group(MAX_DIGITS, 8) == 5474 && Group(MAX_DIGITS, 12) == 991
  {}

  lemma SixteenDigits(d: string)
    requires |d| == 16 && AllDigits(d)
    ensures Value(d) == Group(d, 0) * 1_0000_0000_0000 + Group(d, 4) * 1_0000_0000 + Group(d, 8) * 1_0000 + Group(d, 12)
  {
    Pow10Values();
    SplitValue(d, 4);
    SplitValue(d[4..], 4);
    SplitValue(d[4..][4..], 4);
    assert d[4..][4..] == d[8..] && d[8..][4..] == d[12..];
    FourDigits(d[..4]);
    FourDigits(d[4..][..4]);
    FourDigits(d[8..][..4]);
    FourDigits(d[12..]);
  }

  function Group(d: string, k: nat): nat
    requires k + 4 <= |d| && AllDigits(d)
  {
    1000 * DigitValue(d[k]) + 100 * DigitValue(d[k + 1]) + 10 * DigitValue(d[k + 2]) + DigitValue(d[k + 3])
  }

  lemma Horner(x: nat, p: nat, q: nat, r: nat, w: nat)
    ensures x * (p * q) + (r * q + w) == (x * p + r) * q + w
  {}

  lemma {:induction false} SplitValue(d: string, k: nat)
    requires AllDigits(d) && k <= |d|
    ensures Value(d) == Value(d[..k]) * Pow10(|d| - k) + Value(d[k..])
  {
    hide Pow10, DigitValue, Value;
    if k > 0 {
      SplitValue(d[1..], k - 1);
      ValueStep(d);
      ValueStep(d[..k]);
      assert d[1..][..k - 1] == d[..k][1..] && d[1..][k - 1..] == d[k..];
      Pow10Adds(k - 1, |d| - k);
      Horner(DigitValue(d[0]), Pow10(k - 1), Pow10(|d| - k), Value(d[..k][1..]), Value(d[k..]));
    } else {
      assert d[0..] == d;
      NoDigits(d[..0]);
    }
  }

  lemma ValueStep(d: string)
    requires AllDigits(d) && d != ""
    ensures Value(d) == DigitValue(d[0]) * Pow10(|d| - 1) + Value(d[1..])
  {}

  lemma NoDigits(d: string)
    requires d == ""
    ensures Value(d) == 0
  {}

  lemma {:induction false} Pow10Adds(a: nat, b: nat)
    ensures Pow10(a + b) == Pow10(a) * Pow10(b)
  {
    if a > 0 {
      Pow10Adds(a - 1, b);
      Horner(10, Pow10(a - 1), Pow10(b), 0, 0);
    }
  }

  /** Length first and then lexicographic order decides the bound for digits without leading zero. */
  lemma TooLargeIsNumeric(d: string)
    requires DigitsOk(d)
    ensures TooLarge(d) <==> Value(d) > MAX_SAFE_INTEGER
  {
    MaxDigitsValue();
    Pow10Values();
    ValueBounds(d);
    if |d| > 16 {
      Pow10Grows(16, |d| - 1);
    } else if |d| < 16 {
      Pow10Grows(|d|, 15);
    } else {
      LexicographicIsNumeric(d, MAX_DIGITS);
    }
  }

  // ---------- scanning a rendering ----------

  predicate Harmless(s: string) {
    forall i | 0 <= i < |s| :: s[i] != '"' && !IsTokenStart(s[i])
  }

  lemma {:induction false} SkipHarmless(s: string, t: string)
    requires Harmless(s)
    ensures Accepts(s + t) == Accepts(t)
  {
    if s == [] {
      assert s + t == t;
    } else {
      assert (s + t)[1..] == s[1..] + t;
      SkipHarmless(s[1..], t);
    }
  }

  lemma {:induction false} SkipInString(s: string, t: string)
    requires forall i | 0 <= i < |s| :: s[i] != '"' && s[i] != '\\'
    ensures AcceptsInString(s + t) == AcceptsInString(t)
  {
    if s == [] {
      assert s + t == t;
    } else {
      assert (s + t)[1..] == s[1..] + t;
      SkipInString(s[1..], t);
    }
  }

  lemma {:induction false} SkipItems(items: seq<StrItem>, t: string)
    requires ItemsOk(items)
    ensures AcceptsInString(RenderItems(items) + "\"" + t) == Accepts(t)
  {
    var rest := "\"" + t;
    if items == [] {
      assert RenderItems(items) + "\"" + t == rest;
      assert rest[1..] == t;
    } else {
      SkipItems(items[1..], t);
      var tail := RenderItems(items[1..]) + "\"" + t;
      assert RenderItems(items) + "\"" + t == RenderItem(items[0]) + tail;
      SkipItem(items[0], tail);
    }
  }

  lemma SkipItem(item: StrItem, t: string)
    requires ItemOk(item)
    ensures AcceptsInString(RenderItem(item) + t) == AcceptsInString(t)
  {
    match item
    case Plain(c) => SkipInString([c], t);
    case Escape(c) => assert (['\\', c] + t)[2..] == t;
    case Unicode(hex) =>
      assert ("\\u" + hex + t)[2..] == hex + t;
      SkipInString(hex, t);
  }

  /** A string is skipped whole, whatever it holds. */
  lemma SkipString(items: seq<StrItem>, t: string)
    requires ItemsOk(items)
    ensures Accepts(RenderString(items) + t) == Accepts(t)
  {
    assert (RenderString(items) + t)[1..] == RenderItems(items) + "\"" + t;
    SkipItems(items, t);
  }

  ghost predicate EndsToken(t: string) {
    t == [] || !IsTokenChar(t[0])
  }

  lemma {:induction false} TokenOfWord(s: string, t: string)
    requires TokenChars(s) && EndsToken(t)
    ensures TokenLength(s + t) == |s|
  {
    if s == [] {
      assert s + t == t;
    } else {
      assert (s + t)[1..] == s[1..] + t;
      TokenOfWord(s[1..], t);
    }
  }

  /** The parts of a number: token characters throughout, and float characters only where there is
      a fraction or an exponent. */
  lemma NumberParts(negative: bool, digits: string, fraction: Option<string>, exponent: Option<Exponent>)
    requires Grammatical(Number(negative, digits, fraction, exponent))
    ensures TokenChars(SignPart(negative)) && TokenChars(digits)
    ensures TokenChars(FractionPart(fraction)) && TokenChars(ExponentPart(exponent))
    ensures !HasFloatChar(SignPart(negative)) && !HasFloatChar(digits)
    ensures HasFloatChar(FractionPart(fraction)) <==> fraction.Some?
    ensures HasFloatChar(ExponentPart(exponent)) <==> exponent.Some?
  {
    if fraction.Some? { assert IsFloatChar(FractionPart(fraction)[0]); }
    if exponent.Some? { assert IsFloatChar(ExponentPart(exponent)[0]); }
  }

  lemma FloatCharConcat(a: string, b: string)
    ensures HasFloatChar(a + b) <==> HasFloatChar(a) || HasFloatChar(b)
    ensures TokenChars(a) && TokenChars(b) ==> TokenChars(a + b)
  {
    if HasFloatChar(a) {
      var i :| 0 <= i < |a| && IsFloatChar(a[i]);
      assert IsFloatChar((a + b)[i]);
    }
    if HasFloatChar(b) {
      var i :| 0 <= i < |b| && IsFloatChar(b[i]);
      assert IsFloatChar((a + b)[|a| + i]);
    }
  }

  lemma NumberIsToken(negative: bool, digits: string, fraction: Option<string>, exponent: Option<Exponent>)
    requires Grammatical(Number(negative, digits, fraction, exponent))
    ensures var s := RenderNumber(negative, digits, fraction, exponent);
      && s != [] && IsTokenStart(s[0]) && TokenChars(s)
      && (TokenOk(s) <==> fraction.Some? || exponent.Some? || Value(digits) <= MAX_SAFE_INTEGER)
  {
    var sign, f, e := SignPart(negative), FractionPart(fraction), ExponentPart(exponent);
    NumberParts(negative, digits, fraction, exponent);
    FloatCharConcat(sign, digits);
    FloatCharConcat(sign + digits, f);
    FloatCharConcat(sign + digits + f, e);
    TooLargeIsNumeric(digits);
    if fraction == None && exponent == None {
      assert sign + digits + f + e == sign + digits;
      MagnitudeOfInteger(negative, digits);
    }
  }

  lemma MagnitudeOfInteger(negative: bool, digits: string)
    requires DigitsOk(digits)
    ensures Magnitude(SignPart(negative) + digits) == digits
  {
    if negative { assert ("-" + digits)[1..] == digits; } else { assert "" + digits == digits; }
  }

  lemma ScanNumber(j: Json, t: string)
    requires j.Number? && Grammatical(j) && EndsToken(t)
    ensures Accepts(Render(j) + t) <==> IntegersSafe(j) && Accepts(t)
  {
    NumberIsToken(j.negative, j.digits, j.fraction, j.exponent);
    var s := Render(j);
    TokenOfWord(s, t);
    assert (s + t)[0] == s[0] && (s + t)[..|s|] == s && (s + t)[|s|..] == t;
  }

  lemma {:induction false} ScanValue(j: Json, t: string)
    requires Grammatical(j) && EndsToken(t)
    ensures Accepts(Render(j) + t) <==> IntegersSafe(j) && Accepts(t)
    decreases j, 1
  {
    match j
    case Literal(w) => SkipHarmless(w, t);
    case Number(_, _, _, _) => ScanNumber(j, t);
    case Str(items) => SkipString(items, t);
    case Arr(blank, es) => ScanArray(blank, es, t);
    case Obj(blank, ms) => ScanObject(blank, ms, t);
  }

  /** A bracketed body is scanned as its body. */
  lemma Bracketed(open: string, body: string, close: string, t: string)
    requires Harmless(open) && Harmless(close)
    ensures Accepts(open + body + close + t) == Accepts(body + (close + t)) && Accepts(close + t) == Accepts(t)
  {
    assert open + body + close + t == open + (body + (close + t));
    SkipHarmless(open, body + (close + t));
    SkipHarmless(close, t);
  }

  lemma {:induction false} ScanArray(blank: string, es: seq<Element>, t: string)
    requires IsBlank(blank) && (forall i | 0 <= i < |es| :: ElementOk(es[i])) && EndsToken(t)
    ensures Accepts(Render(Arr(blank, es)) + t) <==> ElementsSafe(es) && Accepts(t)
    decreases es, 1
  {
    Bracketed("[", if es == [] then blank else RenderElements(es), "]", t);
    if es == [] {
      SkipHarmless(blank, "]" + t);
    } else {
      ScanElements(es, "]" + t);
    }
  }

  lemma {:induction false} ScanObject(blank: string, ms: seq<Member>, t: string)
    requires IsBlank(blank) && (forall i | 0 <= i < |ms| :: MemberOk(ms[i])) && EndsToken(t)
    ensures Accepts(Render(Obj(blank, ms)) + t) <==> MembersSafe(ms) && Accepts(t)
    decreases ms, 1
  {
    Bracketed("{", if ms == [] then blank else RenderMembers(ms), "}", t);
    if ms == [] {
      SkipHarmless(blank, "}" + t);
    } else {
      ScanMembers(ms, "}" + t);
    }
  }

  lemma {:induction false} ScanElement(e: Element, t: string)
    requires ElementOk(e) && EndsToken(t)
    ensures Accepts(RenderElement(e) + t) <==> ElementSafe(e) && Accepts(t)
    decreases e, 2
  {
    assert RenderElement(e) + t == e.before + (Render(e.value) + (e.after + t));
    SkipHarmless(e.before, Render(e.value) + (e.after + t));
    assert EndsToken(e.after + t) by {
      if e.after != [] { assert (e.after + t)[0] == e.after[0]; } else { assert e.after + t == t; }
    }
    ScanValue(e.value, e.after + t);
    SkipHarmless(e.after, t);
  }

  lemma {:induction false} ScanElements(es: seq<Element>, t: string)
    requires es != [] && (forall i | 0 <= i < |es| :: ElementOk(es[i])) && EndsToken(t)
    ensures Accepts(RenderElements(es) + t) <==>
      ElementsSafe(es) && Accepts(t)
    decreases es, 0
  {
    hide Accepts, ElementSafe, ElementOk, RenderElement;
    if |es| == 1 {
      ScanElement(es[0], t);
    } else {
      var rest := "," + (RenderElements(es[1..]) + t);
      assert RenderElements(es) + t == RenderElement(es[0]) + rest;
      ScanElement(es[0], rest);
      SkipHarmless(",", RenderElements(es[1..]) + t);
      ScanElements(es[1..], t);
    }
  }

  lemma {:induction false} ScanMember(m: Member, t: string)
    requires MemberOk(m) && EndsToken(t)
    ensures Accepts(RenderMember(m) + t) <==> ElementSafe(m.element) && Accepts(t)
    decreases m, 2
  {
    var afterName := m.after + (":" + (RenderElement(m.element) + t));
    assert RenderMember(m) + t == m.before + (RenderString(m.name) + afterName);
    SkipHarmless(m.before, RenderString(m.name) + afterName);
    SkipString(m.name, afterName);
    SkipHarmless(m.after, ":" + (RenderElement(m.element) + t));
    SkipHarmless(":", RenderElement(m.element) + t);
    ScanElement(m.element, t);
  }

  lemma {:induction false} ScanMembers(ms: seq<Member>, t: string)
    requires ms != [] && (forall i | 0 <= i < |ms| :: MemberOk(ms[i])) && EndsToken(t)
    ensures Accepts(RenderMembers(ms) + t) <==>
      MembersSafe(ms) && Accepts(t)
    decreases ms, 0
  {
    hide Accepts, ElementSafe, MemberOk, RenderMember;
    if |ms| == 1 {
      ScanMember(ms[0], t);
    } else {
      var rest := "," + (RenderMembers(ms[1..]) + t);
      assert RenderMembers(ms) + t == RenderMember(ms[0]) + rest;
      ScanMember(ms[0], rest);
      SkipHarmless(",", RenderMembers(ms[1..]) + t);
      ScanMembers(ms[1..], t);
    }
  }

  /** For every rendering of every JSON value the scanner accepts exactly when every integer token
      outside strings is within the safe range. */
  lemma ScanIsExact(text: Element)
    requires ElementOk(text)
    ensures Accepts(RenderElement(text)) <==> IntegersSafe(text.value)
  {
    assert RenderElement(text) + "" == RenderElement(text);
    ScanElement(text, "");
  }
}
