/** Bounded output (capture.rs) and the bound on a whole response (eval.rs, limits.rs). */
module CapturedOutput {
  import opened Wrappers

  const STDOUT_BYTES: nat := 65_536
  const RESULT_BYTES: nat := 131_072
  const DIAGNOSTIC_BYTES: nat := 2_048
  const RESPONSE_BYTES: nat := 786_432

  type Bytes = seq<Byte>

  // ---------- UTF-8 ----------

  /** RFC 3629, section 3. */
  function Utf8(c: char): (b: Bytes)
    ensures 1 <= |b| <= 4 && !IsContinuation(b[0]) && forall i | 1 <= i < |b| :: IsContinuation(b[i])
  {
    var n := c as int;
    if n < 0x80 then [n]
    else if n < 0x800 then [0xC0 + n / 64, 0x80 + n % 64]
    else if n < 0x1_0000 then [0xE0 + n / 4096, 0x80 + n / 64 % 64, 0x80 + n % 64]
    else [0xF0 + n / 262_144, 0x80 + n / 4096 % 64, 0x80 + n / 64 % 64, 0x80 + n % 64]
  }

  predicate IsContinuation(b: Byte) { 0x80 <= b < 0xC0 }

  function Encode(s: string): Bytes {
    if s == "" then [] else Utf8(s[0]) + Encode(s[1..])
  }

  lemma {:induction false} EncodeAppend(a: string, b: string)
    ensures Encode(a + b) == Encode(a) + Encode(b)
  {
    if a == "" {
      assert a + b == b;
    } else {
      assert (a + b)[1..] == a[1..] + b;
      EncodeAppend(a[1..], b);
      assert Utf8(a[0]) + (Encode(a[1..]) + Encode(b)) == Utf8(a[0]) + Encode(a[1..]) + Encode(b);
    }
  }

  /** The low bits of a byte. */
  function Low(b: Byte, m: nat): nat
    requires m > 0
  {
    b % m
  }

  /** The code point is in the low bits of the bytes, in the shortest form. */
  lemma Utf8Carries(c: char)
    ensures c as int < 0x80 ==> Utf8(c) == [c as int]
    ensures 0x80 <= c as int < 0x800 ==>
      && |Utf8(c)| == 2 && 0xC0 <= Utf8(c)[0] < 0xE0
      && c as int == Low(Utf8(c)[0], 0x20) * 0x40 + Low(Utf8(c)[1], 0x40)
    ensures 0x800 <= c as int < 0x1_0000 ==>
      && |Utf8(c)| == 3 && 0xE0 <= Utf8(c)[0] < 0xF0
      && c as int == Low(Utf8(c)[0], 0x10) * 0x1000 + Low(Utf8(c)[1], 0x40) * 0x40 + Low(Utf8(c)[2], 0x40)
    ensures 0x1_0000 <= c as int ==>
      && |Utf8(c)| == 4 && 0xF0 <= Utf8(c)[0] < 0xF8
      && c as int == Low(Utf8(c)[0], 8) * 0x4_0000 + Low(Utf8(c)[1], 0x40) * 0x1000
           + Low(Utf8(c)[2], 0x40) * 0x40 + Low(Utf8(c)[3], 0x40)
  {
    if 0x80 <= c as int < 0x800 { TwoCarry(c); }
    if 0x800 <= c as int < 0x1_0000 { ThreeCarry(c); }
    if 0x1_0000 <= c as int { FourCarry(c); }
  }

  lemma TwoCarry(c: char)
    requires 0x80 <= c as int < 0x800
    ensures |Utf8(c)| == 2 && 0xC0 <= Utf8(c)[0] < 0xE0
    ensures c as int == Low(Utf8(c)[0], 0x20) * 0x40 + Low(Utf8(c)[1], 0x40)
  {
    LowBits(6, 0x20, c as int / 64);
    LowBits(2, 0x40, c as int % 64);
  }

  lemma ThreeCarry(c: char)
    requires 0x800 <= c as int < 0x1_0000
    ensures |Utf8(c)| == 3 && 0xE0 <= Utf8(c)[0] < 0xF0
    ensures c as int == Low(Utf8(c)[0], 0x10) * 0x1000 + Low(Utf8(c)[1], 0x40) * 0x40 + Low(Utf8(c)[2], 0x40)
  {
    LowBits(14, 0x10, c as int / 4096);
    LowBits(2, 0x40, c as int / 64 % 64);
    LowBits(2, 0x40, c as int % 64);
    TwoDigits(c as int);
  }

  lemma FourCarry(c: char)
    requires 0x1_0000 <= c as int
    ensures |Utf8(c)| == 4 && 0xF0 <= Utf8(c)[0] < 0xF8
    ensures c as int == Low(Utf8(c)[0], 8) * 0x4_0000 + Low(Utf8(c)[1], 0x40) * 0x1000
      + Low(Utf8(c)[2], 0x40) * 0x40 + Low(Utf8(c)[3], 0x40)
  {
    LowBits(30, 8, c as int / 262_144);
    LowBits(2, 0x40, c as int / 4096 % 64);
    LowBits(2, 0x40, c as int / 64 % 64);
    LowBits(2, 0x40, c as int % 64);
    ThreeDigits(c as int);
  }

  lemma LowBits(k: nat, m: nat, x: nat)
    requires x < m && m in {8, 0x10, 0x20, 0x40}
    ensures (k * m + x) % m == x
  {}

  lemma TwoDigits(n: nat)
    ensures n == n / 4096 * 4096 + n / 64 % 64 * 64 + n % 64
  {
    assert n / 64 / 64 == n / 4096;
  }

  lemma ThreeDigits(n: nat)
    ensures n == n / 262_144 * 262_144 + n / 4096 % 64 * 4096 + n / 64 % 64 * 64 + n % 64
  {
    TwoDigits(n);
    assert n / 4096 / 64 == n / 262_144;
  }

  // ---------- the longest prefix that fits ----------

  /** The characters of the longest prefix of at most `limit` bytes. */
  function Fit(s: string, limit: nat): (k: nat)
    ensures k <= |s|
  {
    if s == "" || |Utf8(s[0])| > limit then 0 else 1 + Fit(s[1..], limit - |Utf8(s[0])|)
  }

  /** It fits, and one more character does not. */
  lemma {:induction false} FitIsLongest(s: string, limit: nat)
    ensures var k := Fit(s, limit);
      && |Encode(s[..k])| <= limit
      && (k < |s| ==> |Encode(s[..k])| + |Utf8(s[k])| > limit)
    ensures Fit(s, limit) == |s| <==> |Encode(s)| <= limit
  {
    if s != "" && |Utf8(s[0])| <= limit {
      var k := Fit(s, limit);
      FitIsLongest(s[1..], limit - |Utf8(s[0])|);
      assert s[..k][1..] == s[1..][..k - 1];
    }
  }

  /** Fitting a concatenation is fitting its parts in turn: chunks do not matter. */
  lemma {:induction false} FitAppend(a: string, b: string, limit: nat)
    ensures Fit(a + b, limit) ==
      if |Encode(a)| <= limit then |a| + Fit(b, limit - |Encode(a)|) else Fit(a, limit)
  {
    if a == "" {
      assert a + b == b;
    } else {
      assert (a + b)[1..] == a[1..] + b;
      if |Utf8(a[0])| <= limit { FitAppend(a[1..], b, limit - |Utf8(a[0])|); }
    }
  }

  // ---------- finding the boundary ----------

  /** `str::is_char_boundary`. */
  predicate IsCharBoundary(bytes: Bytes, i: nat) {
    i == 0 || i == |bytes| || (i < |bytes| && !IsContinuation(bytes[i]))
  }

  /** The prefix ends at a boundary, and from there to the limit there is no other. */
  ghost predicate LastBoundary(bytes: Bytes, prefix: Bytes, limit: nat) {
    && |prefix| <= limit < |bytes| && prefix <= bytes && IsCharBoundary(bytes, |prefix|)
    && forall i | |prefix| < i <= limit :: !IsCharBoundary(bytes, i)
  }

  /** The bytes from the end of the longest fitting prefix up to the limit are inside one character. */
  lemma {:induction false} BoundaryOfFit(s: string, limit: nat)
    requires |Encode(s)| > limit
    ensures LastBoundary(Encode(s), Encode(s[..Fit(s, limit)]), limit)
  {
    hide LastBoundary;
    var b, rest := Utf8(s[0]), Encode(s[1..]);
    if |b| <= limit {
      var k := Fit(s, limit);
      assert s[..k][1..] == s[1..][..k - 1] && s[..k][0] == s[0];
      BoundaryOfFit(s[1..], limit - |b|);
      BoundaryBehind(b, rest, Encode(s[1..][..k - 1]), limit - |b|);
    } else {
      assert s[..0] == "";
      InsideFirst(b, rest, limit);
    }
  }

  lemma InsideFirst(b: Bytes, rest: Bytes, limit: nat)
    requires |b| > limit && forall i | 1 <= i < |b| :: IsContinuation(b[i])
    ensures LastBoundary(b + rest, [], limit)
  {}

  lemma BoundaryBehind(b: Bytes, rest: Bytes, prefix: Bytes, limit: nat)
    requires |b| > 0 && LastBoundary(rest, prefix, limit) && !IsContinuation(rest[0])
    ensures LastBoundary(b + rest, b + prefix, |b| + limit)
  {
    forall i | |b + prefix| < i <= |b| + limit ensures !IsCharBoundary(b + rest, i) {
      assert !IsCharBoundary(rest, i - |b|);
    }
  }

  /** The loop both truncations share: step back from the limit to a character boundary. */
  method FloorBoundary(value: Bytes, limit: nat, ghost text: string) returns (boundary: nat)
    requires value == Encode(text) && |value| > limit
    ensures boundary <= limit && value[..boundary] == Encode(text[..Fit(text, limit)])
  {
    BoundaryOfFit(text, limit);
    ghost var at := |Encode(text[..Fit(text, limit)])|;
    boundary := limit;
    while boundary > 0 && !IsCharBoundary(value, boundary)
      invariant at <= boundary <= limit
    {
      boundary := boundary - 1;
    }
  }

  /** `bounded_text`. */
  method BoundedText(value: Bytes, limit: nat, ghost text: string) returns (r: Bytes)
    requires value == Encode(text)
    ensures r == Encode(text[..Fit(text, limit)]) && |r| <= limit
  {
    FitIsLongest(text, limit);
    if |value| <= limit {
      assert text[..|text|] == text;
      return value;
    }
    var boundary := FloorBoundary(value, limit, text);
    r := value[..boundary];
  }

  // ---------- the capture ----------

  class Captured {
    var stdout: Bytes
    var truncated: bool
    ghost var written: string

    /** What is held is the longest prefix of everything written that fits, whatever the chunks. */
    ghost predicate Valid()
      reads this
    {
      && stdout == Encode(written[..Fit(written, STDOUT_BYTES)])
      && (truncated <==> |Encode(written)| > STDOUT_BYTES)
    }

    constructor ()
      ensures Valid() && written == ""
    {
      stdout, truncated, written := [], false, "";
    }

    method Reset()
      modifies this
      ensures Valid() && written == ""
    {
      stdout, truncated, written := [], false, "";
    }

    method Append(value: Bytes, ghost text: string)
      requires Valid() && value == Encode(text)
      modifies this
      ensures Valid() && written == old(written) + text && |stdout| <= STDOUT_BYTES
    {
      hide Encode, Fit;
      Appended(written, text);
      EncodeAppend(written, text);
      FitIsLongest(written, STDOUT_BYTES);
      FitIsLongest(written + text, STDOUT_BYTES);
      written := written + text;
      if truncated {
        return;
      }
      var remaining := if |stdout| <= STDOUT_BYTES then STDOUT_BYTES - |stdout| else 0;
      if |value| <= remaining {
        stdout := stdout + value;
        return;
      }
      var boundary := FloorBoundary(value, remaining, text);
      stdout := stdout + value[..boundary];
      truncated := true;
    }
  }

  /** The prefix kept of old and new text together. */
  lemma Appended(before: string, text: string)
    ensures var all, limit := before + text, STDOUT_BYTES;
      && |Encode(all)| == |Encode(before)| + |Encode(text)|
      && (|Encode(before)| <= limit ==> before[..Fit(before, limit)] == before)
      && (|Encode(all)| <= limit ==> all[..Fit(all, limit)] == all)
      && Encode(all[..Fit(all, limit)]) ==
         if |Encode(before)| > limit then Encode(before[..Fit(before, limit)])
         else Encode(before) + Encode(text[..Fit(text, limit - |Encode(before)|)])
  {
    hide Encode, Fit;
    var limit := STDOUT_BYTES;
    EncodeAppend(before, text);
    FitAppend(before, text, limit);
    FitIsLongest(before, limit);
    FitIsLongest(before + text, limit);
    if |Encode(before)| <= limit {
      var k := Fit(text, limit - |Encode(before)|);
      assert (before + text)[..|before| + k] == before + text[..k];
      EncodeAppend(before, text[..k]);
    } else {
      assert (before + text)[..Fit(before, limit)] == before[..Fit(before, limit)];
    }
  }

  // ---------- the response ----------

  /** serde_json's escapes, byte by byte; everything else is written as it is. */
  function EscapedByte(n: Byte): (b: Bytes)
    ensures |b| <= 6
  {
    if n == 0x22 || n == 0x5C then [0x5C, n]
    else if n == 8 then [0x5C, 0x62]
    else if n == 9 then [0x5C, 0x74]
    else if n == 10 then [0x5C, 0x6E]
    else if n == 12 then [0x5C, 0x66]
    else if n == 13 then [0x5C, 0x72]
    else if n < 32 then [0x5C, 0x75, 0x30, 0x30, 0x30 + n / 16, HexDigit(n % 16)]
    else [n]
  }

  function HexDigit(n: nat): Byte
    requires n < 16
  {
    if n < 10 then 0x30 + n else 0x61 + n - 10
  }

  function Escaped(s: Bytes): (b: Bytes)
    ensures |b| <= 6 * |s|
  {
    if s == [] then [] else EscapedByte(s[0]) + Escaped(s[1..])
  }

  function Quoted(s: Bytes): Bytes { [0x22] + Escaped(s) + [0x22] }

  function BoolText(b: bool): Bytes { Encode(if b then "true" else "false") }

  lemma {:induction false} AtMostFour(s: string)
    ensures |Encode(s)| <= 4 * |s|
  {
    if s != "" { AtMostFour(s[1..]); }
  }

  /** What a script run answers: strings as their UTF-8 bytes, the result as its encoding. */
  datatype Response =
    | Success(stdout: Bytes, truncated: bool, result: Bytes)
    | Failure(stdout: Bytes, truncated: bool, kind: Bytes, typeName: Bytes, message: Bytes)

  /** A member of an object, with its value encoded already. */
  datatype Field = Field(name: string, value: Bytes)

  function FieldsBytes(fs: seq<Field>): Bytes {
    if fs == [] then []
    else
      Quoted(Encode(fs[0].name)) + [0x3A] + fs[0].value
      + (if |fs| == 1 then [] else [0x2C] + FieldsBytes(fs[1..]))
  }

  function ObjectBytes(fs: seq<Field>): Bytes { [0x7B] + FieldsBytes(fs) + [0x7D] }

  function ErrorFields(kind: Bytes, typeName: Bytes, message: Bytes): seq<Field> {
    [Field("kind", Quoted(kind)), Field("type", Quoted(typeName)), Field("message", Quoted(message))]
  }

  function Fields(r: Response): seq<Field> {
    [Field("ok", BoolText(r.Success?)), Field("stdout", Quoted(r.stdout)),
     Field("stdoutTruncated", BoolText(r.truncated)),
     match r
     case Success(_, _, result) => Field("result", result)
     case Failure(_, _, kind, typeName, message) => Field("error", ObjectBytes(ErrorFields(kind, typeName, message)))]
  }

  /** The encoding of a response. */
  function Body(r: Response): Bytes { ObjectBytes(Fields(r)) }

  /** The bounds the parts are built under. */
  predicate PartsBounded(r: Response) {
    && |r.stdout| <= STDOUT_BYTES
    && match r
       case Success(_, _, result) => |result| <= RESULT_BYTES
       case Failure(_, _, kind, typeName, message) =>
         |kind| <= 64 && |typeName| <= DIAGNOSTIC_BYTES && |message| <= DIAGNOSTIC_BYTES
  }

  /** The part bounds compose: no response reaches the response limit. */
  lemma PartsCompose(r: Response)
    requires PartsBounded(r)
    ensures |Body(r)| <= RESPONSE_BYTES
  {
    hide Encode, Escaped, FieldsBytes;
    AtMostFour(if r.truncated then "true" else "false");
    AtMostFour(if r.Success? then "true" else "false");
    var fs := Fields(r);
    FieldsSize(fs);
    FieldsSize(fs[1..]);
    FieldsSize(fs[2..]);
    FieldsSize(fs[3..]);
    assert fs[1..][1..] == fs[2..] && fs[2..][1..] == fs[3..];
    if r.Failure? {
      var es := ErrorFields(r.kind, r.typeName, r.message);
      FieldsSize(es);
      FieldsSize(es[1..]);
      FieldsSize(es[2..]);
      assert es[1..][1..] == es[2..];
    }
  }

  /** A member takes its value and at most 24 bytes for each character of its name. */
  lemma FieldsSize(fs: seq<Field>)
    requires fs != []
    ensures |FieldsBytes(fs)| <= 24 * |fs[0].name| + |fs[0].value| + 4 + |FieldsBytes(fs[1..])|
    ensures |fs| == 1 ==> |FieldsBytes(fs[1..])| == 0
  {
    hide Encode;
    AtMostFour(fs[0].name);
  }

  function LimitFailure(): Response {
    Failure([], false, Encode("result"), Encode("ResponseError"), Encode("complete response exceeds 786432 bytes"))
  }

  /** `enforce_response_limit`. */
  function EnforceResponseLimit(r: Response): Response {
    if |Body(r)| <= RESPONSE_BYTES then r else LimitFailure()
  }

  /** How a script ended; an encoded result passed its own bound. */
  datatype Execution = Result(encoded: Bytes) | Error(kind: string, typeName: string, message: string)

  /** The longest prefix within a limit, as bytes. */
  function Prefix(s: string, limit: nat): Bytes { Encode(s[..Fit(s, limit)]) }

  /** The bytes of a prefix that fits, and with one more character would not. */
  ghost predicate LongestPrefix(b: Bytes, s: string, limit: nat) {
    exists k: nat ::
      k <= |s| && b == Encode(s[..k]) && |b| <= limit && (k < |s| ==> |Encode(s[..k])| + |Utf8(s[k])| > limit)
  }

  lemma PrefixIsLongest(s: string, limit: nat)
    ensures LongestPrefix(Prefix(s, limit), s, limit)
  {
    FitIsLongest(s, limit);
    assert Prefix(s, limit) == Encode(s[..Fit(s, limit)]);
  }

  /** `evaluate_with_sql`: the answer carries the output and the outcome cut to their own bounds,
      and the limit on the whole response never replaces it. */
  method Evaluate(capture: Captured, writes: seq<string>, execution: Execution) returns (r: Response)
    requires execution.Result? ==> |execution.encoded| <= RESULT_BYTES
    requires execution.Error? ==> execution.kind in {"syntax", "yaml", "runtime", "result"}
    modifies capture
    ensures var all := Concat(writes);
      && r.stdout == Prefix(all, STDOUT_BYTES) && (r.truncated <==> |Encode(all)| > STDOUT_BYTES)
      && LongestPrefix(r.stdout, all, 65_536)
      && (execution.Result? ==> r.Success? && r.result == execution.encoded)
      && (execution.Error? ==>
            && r.Failure? && r.kind == Encode(execution.kind)
            && r.typeName == Prefix(execution.typeName, DIAGNOSTIC_BYTES)
            && r.message == Prefix(execution.message, DIAGNOSTIC_BYTES)
            && LongestPrefix(r.typeName, execution.typeName, 2048) && LongestPrefix(r.message, execution.message, 2048))
  {
    hide Body, Encode, Fit;
    capture.Reset();
    assert writes[..0] == [];
    for i := 0 to |writes|
      invariant capture.Valid() && capture.written == Concat(writes[..i])
    {
      assert writes[..i + 1] == writes[..i] + [writes[i]];
      capture.Append(Encode(writes[i]), writes[i]);
    }
    assert writes[..|writes|] == writes;
    match execution {
      case Result(encoded) => r := Success(capture.stdout, capture.truncated, encoded);
      case Error(kind, typeName, message) =>
        var boundedName := BoundedText(Encode(typeName), DIAGNOSTIC_BYTES, typeName);
        var boundedMessage := BoundedText(Encode(message), DIAGNOSTIC_BYTES, message);
        KindIsShort(kind);
        r := Failure(capture.stdout, capture.truncated, Encode(kind), boundedName, boundedMessage);
    }
    FitIsLongest(Concat(writes), STDOUT_BYTES);
    PrefixIsLongest(Concat(writes), STDOUT_BYTES);
    if execution.Error? {
      PrefixIsLongest(execution.typeName, DIAGNOSTIC_BYTES);
      PrefixIsLongest(execution.message, DIAGNOSTIC_BYTES);
    }
    PartsCompose(r);
    r := EnforceResponseLimit(r);
  }

  lemma KindIsShort(kind: string)
    requires kind in {"syntax", "yaml", "runtime", "result"}
    ensures |Encode(kind)| <= 64
  {
    hide Encode;
    AtMostFour(kind);
  }

  function Concat(writes: seq<string>): string {
    if writes == [] then "" else Concat(writes[..|writes| - 1]) + writes[|writes| - 1]
  }

  lemma {:induction false} ConcatJoins(a: seq<string>, b: seq<string>)
    ensures Concat(a + b) == Concat(a) + Concat(b)
    ensures forall s :: Concat([s]) == s
  {
    forall s ensures Concat([s]) == s { assert [s][..0] == []; }
    if b == [] {
      assert a + b == a;
    } else {
      assert (a + b)[..|a + b| - 1] == a + b[..|b| - 1];
      ConcatJoins(a, b[..|b| - 1]);
    }
  }
}
