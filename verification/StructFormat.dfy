/** The struct format parser of buffer.rs: tokens, checked sizes and alignment padding. */
module StructFormat {
  import opened Wrappers

  const ISIZE_MAX: nat := 0x7FFF_FFFF_FFFF_FFFF

  datatype Endianness = Native | Little | Big | Host

  function ParseEndianness(fmt: string): (Endianness, nat) {
    if fmt == [] then (Native, 0)
    else if fmt[0] == '@' then (Native, 1)
    else if fmt[0] == '=' then (Host, 1)
    else if fmt[0] == '<' then (Little, 1)
    else if fmt[0] == '>' || fmt[0] == '!' then (Big, 1)
    else (Native, 0)
  }

  datatype Kind = Pad | Str | Pascal | Char | Signed | Unsigned | Bool | Float

  /** Size and alignment of one item; alignment 0 asks for no padding. */
  datatype Info = Info(kind: Kind, size: nat, align: nat)

  predicate InfoOk(i: Info) {
    && i.align in {0, 1, 2, 4, 8} && i.size in {1, 2, 4, 8}
    && (i.kind in {Pad, Str, Pascal, Char, Bool} ==> i.size == 1)
  }

  /** `FormatType::info` on a 64-bit Unix; None for characters that are no format type. */
  function TypeInfo(c: char, e: Endianness): (r: Option<Info>)
    ensures r.Some? ==> InfoOk(r.value)
  {
    var native := e == Native;
    match c
    case 'x' => Some(Info(Pad, 1, 0))
    case 's' => Some(Info(Str, 1, 0))
    case 'p' => Some(Info(Pascal, 1, 0))
    case 'c' => Some(Info(Char, 1, 0))
    case 'b' => Some(Aligned(Signed, 1, native))
    case 'B' => Some(Aligned(Unsigned, 1, native))
    case 'u' => Some(Aligned(Signed, 4, native))
    case 'h' => Some(Aligned(Signed, 2, native))
    case 'H' => Some(Aligned(Unsigned, 2, native))
    case 'i' => Some(Aligned(Signed, 4, native))
    case 'I' => Some(Aligned(Unsigned, 4, native))
    case 'l' => Some(Aligned(Signed, if native then 8 else 4, native))
    case 'L' => Some(Aligned(Unsigned, if native then 8 else 4, native))
    case 'n' => Some(Aligned(Signed, 8, native))
    case 'N' => Some(Aligned(Unsigned, 8, native))
    case 'q' => Some(Aligned(Signed, 8, native))
    case 'Q' => Some(Aligned(Unsigned, 8, native))
    case '?' => Some(Aligned(Bool, 1, native))
    case 'e' => Some(Aligned(Float, 2, native))
    case 'f' => Some(Aligned(Float, 4, native))
    case 'd' => Some(Aligned(Float, 8, native))
    case 'g' => Some(Aligned(Float, 8, native))
    case 'P' => Some(Aligned(Unsigned, 8, native))
    case 'O' => Some(Aligned(Unsigned, 8, native))
    case _ => None
  }

  function Aligned(kind: Kind, size: nat, native: bool): Info {
    Info(kind, size, if native then size else 0)
  }

  /** Types that only the native mode has. */
  predicate NativeOnly(c: char) { c == 'n' || c == 'N' || c == 'P' }

  datatype ParseError = TooLong | NoSpecifier | EmbeddedNull | Unmatched | BadChar | Unreachable

  // ---------- tokens ----------

  predicate IsBlank(c: char) { c == ' ' || c == '\t' || c == '\n' || c == '\r' }

  predicate IsDigit(c: char) { '0' <= c <= '9' }

  function Digit(c: char): (v: nat)
    requires IsDigit(c)
    ensures v <= 9
  {
    c as int - '0' as int
  }

  predicate IsSkipped(c: char) { c in "{}&<>@=!" }

  function BlankEnd(s: string, i: nat): (j: nat)
    requires i <= |s|
    ensures i <= j <= |s|
    decreases |s| - i
  {
    if i < |s| && IsBlank(s[i]) then BlankEnd(s, i + 1) else i
  }

  /** The repeat count read so far is `r`; None when it exceeds isize::MAX. */
  function ReadRepeat(s: string, i: nat, r: nat): (o: Option<(nat, nat)>)
    requires i <= |s|
    ensures o.Some? ==> i <= o.value.1 <= |s|
    ensures o.Some? && r <= ISIZE_MAX ==> o.value.0 <= ISIZE_MAX
    decreases |s| - i
  {
    if i < |s| && IsDigit(s[i]) then
      var r' := r * 10 + Digit(s[i]);
      if r' > ISIZE_MAX then None else ReadRepeat(s, i + 1, r')
    else Some((r, i))
  }

  /** The position after the closing bracket that brings the depth to zero. */
  function AfterClose(s: string, i: nat, open: char, close: char, depth: nat): (o: Option<nat>)
    requires i <= |s|
    ensures o.Some? ==> i <= o.value <= |s|
    decreases |s| - i
  {
    if depth == 0 then Some(i)
    else if i == |s| then None
    else if s[i] == open then AfterClose(s, i + 1, open, close, depth + 1)
    else if s[i] == close then AfterClose(s, i + 1, open, close, depth - 1)
    else AfterClose(s, i + 1, open, close, depth)
  }

  function AfterColon(s: string, i: nat): (o: Option<nat>)
    requires i <= |s|
    ensures o.Some? ==> i < o.value <= |s|
    decreases |s| - i
  {
    if i == |s| then None else if s[i] == ':' then Some(i + 1) else AfterColon(s, i + 1)
  }

  datatype Token = End | Bad(error: ParseError) | Skip(next: nat) | Item(next: nat, repeat: nat, info: Info)

  /** What starts at position i: blanks, a repeat count and a format character, or something to skip. */
  function TokenAt(s: string, i: nat, e: Endianness): (t: Token)
    requires i <= |s|
    ensures t.Skip? || t.Item? ==> i < t.next <= |s|
    ensures t.Item? ==> t.repeat <= ISIZE_MAX && InfoOk(t.info)
  {
    var j := BlankEnd(s, i);
    var counted := if j < |s| && IsDigit(s[j]) then ReadRepeat(s, j, 0) else Some((1, j));
    match counted
    case None => Bad(TooLong)
    case Some((repeat, k)) =>
      if k == |s| then (if repeat != 1 then Bad(NoSpecifier) else End)
      else CharToken(s, k, repeat, e)
  }

  function CharToken(s: string, k: nat, repeat: nat, e: Endianness): (t: Token)
    requires k < |s| && repeat <= ISIZE_MAX
    ensures t.Skip? || t.Item? ==> k < t.next <= |s|
    ensures t.Item? ==> t.repeat == repeat && InfoOk(t.info)
    ensures t != End
  {
    var c := s[k];
    if c == '\0' then Bad(EmbeddedNull)
    else if (c == 'T' || c == 'X') && k + 1 < |s| && s[k + 1] == '{' then
      (match AfterClose(s, k + 2, '{', '}', 1) case None => Bad(Unmatched) case Some(n) => Skip(n))
    else if c == '(' then
      (match AfterClose(s, k + 1, '(', ')', 1) case None => Bad(Unmatched) case Some(n) => Skip(n))
    else if c == ':' then
      (match AfterColon(s, k + 1) case None => Bad(Unmatched) case Some(n) => Skip(n))
    else if IsSkipped(c) then Skip(k + 1)
    else match TypeInfo(c, e)
      case None => Bad(BadChar)
      case Some(info) =>
        if NativeOnly(c) && e != Native then Bad(BadChar)
        else if c == 'u' && e != Native then Bad(Unreachable)
        else Item(k + 1, repeat, info)
  }

  // ---------- layout ----------

  datatype Code = Code(repeat: nat, info: Info, padding: nat)
  {
    function ArgCount(): nat {
      match info.kind
      case Pad => 0
      case Str => 1
      case Pascal => 1
      case _ => repeat
    }

    function Extent(): nat { padding + info.size * repeat }
  }

  /** `compensate_alignment`, for alignments that are powers of two: `x & (align - 1)` is `x % align`. */
  function CompensateAlignment(offset: nat, align: nat): nat {
    if align != 0 && offset != 0 then align - 1 - (offset - 1) % align else 0
  }

  /** It is the least padding that aligns the offset. */
  lemma PaddingAligns(offset: nat, align: nat)
    requires align in {1, 2, 4, 8}
    ensures (offset + CompensateAlignment(offset, align)) % align == 0 && CompensateAlignment(offset, align) < align
  {}

  datatype Parsed = Ok(codes: seq<Code>, size: nat, args: nat) | Err(error: ParseError)

  /** The codes of the tokens from position i on, laid out from an offset. */
  function ParseFrom(s: string, i: nat, e: Endianness, offset: nat): Parsed
    requires i <= |s|
    decreases |s| - i
  {
    if i == |s| then Ok([], offset, 0)
    else match TokenAt(s, i, e)
      case End => Ok([], offset, 0)
      case Bad(error) => Err(error)
      case Skip(next) => ParseFrom(s, next, e, offset)
      case Item(next, repeat, info) =>
        var code := Code(repeat, info, CompensateAlignment(offset, info.align));
        if offset + code.Extent() > ISIZE_MAX then Err(TooLong)
        else Cons(code, ParseFrom(s, next, e, offset + code.Extent()))
  }

  function Cons(code: Code, p: Parsed): Parsed {
    match p
    case Err(_) => p
    case Ok(codes, size, args) => Ok([code] + codes, size, code.ArgCount() + args)
  }

  function Prepend(codes: seq<Code>, p: Parsed): Parsed {
    if codes == [] then p else Cons(codes[0], Prepend(codes[1..], p))
  }

  lemma {:induction false} PrependOne(codes: seq<Code>, code: Code, p: Parsed)
    ensures Prepend(codes + [code], p) == Prepend(codes, Cons(code, p))
  {
    if codes == [] {
      assert [code][1..] == [];
      assert codes + [code] == [code];
    } else {
      assert (codes + [code])[1..] == codes[1..] + [code];
      PrependOne(codes[1..], code, p);
    }
  }

  function ArgSum(codes: seq<Code>): nat {
    if codes == [] then 0 else codes[0].ArgCount() + ArgSum(codes[1..])
  }

  lemma {:induction false} PrependOk(codes: seq<Code>, size: nat)
    ensures Prepend(codes, Ok([], size, 0)) == Ok(codes, size, ArgSum(codes))
  {
    if codes != [] { PrependOk(codes[1..], size); }
  }

  lemma {:induction false} PrependErr(codes: seq<Code>, error: ParseError)
    ensures Prepend(codes, Err(error)) == Err(error)
  {
    if codes != [] { PrependErr(codes[1..], error); }
  }

  lemma {:induction false} ArgSumAppend(codes: seq<Code>, code: Code)
    ensures ArgSum(codes + [code]) == ArgSum(codes) + code.ArgCount()
  {
    if codes == [] {
      assert codes + [code] == [code];
      assert [code][1..] == [];
    } else {
      assert (codes + [code])[1..] == codes[1..] + [code];
      ArgSumAppend(codes[1..], code);
    }
  }

  /** `FormatCode::parse`, from position i0 (after the byte order mark). */
  method Parse(s: string, i0: nat, e: Endianness) returns (p: Parsed)
    requires i0 <= |s|
    ensures p == ParseFrom(s, i0, e, 0)
  {
    hide TokenAt, CompensateAlignment;
    var i: nat, offset: nat, argCount: nat := i0, 0, 0;
    var codes: seq<Code> := [];
    while i < |s|
      invariant i <= |s| && offset <= ISIZE_MAX && argCount == ArgSum(codes)
      invariant ParseFrom(s, i0, e, 0) == Prepend(codes, ParseFrom(s, i, e, offset))
      decreases |s| - i
    {
      match TokenAt(s, i, e) {
        case End =>
          PrependOk(codes, offset);
          return Ok(codes, offset, argCount);
        case Bad(error) =>
          PrependErr(codes, error);
          return Err(error);
        case Skip(next) =>
          i := next;
        case Item(next, repeat, info) =>
          var padding := CompensateAlignment(offset, info.align);
          var code := Code(repeat, info, padding);
          var itemSize := info.size * repeat;
          if offset + padding > ISIZE_MAX || itemSize > ISIZE_MAX || offset + padding + itemSize > ISIZE_MAX {
            PrependErr(codes, TooLong);
            return Err(TooLong);
          }
          offset := offset + padding;
          PrependOne(codes, code, ParseFrom(s, next, e, offset + itemSize));
          ArgSumAppend(codes, code);
          argCount := argCount + code.ArgCount();
          codes := codes + [code];
          offset := offset + itemSize;
          i := next;
      }
    }
    PrependOk(codes, offset);
    p := Ok(codes, offset, argCount);
  }

  function Total(codes: seq<Code>): nat {
    if codes == [] then 0 else codes[0].Extent() + Total(codes[1..])
  }

  ghost predicate Aligns(codes: seq<Code>, offset: nat) {
    codes == [] ||
    (&& InfoOk(codes[0].info)
     && (codes[0].info.align != 0 ==>
           && codes[0].padding < codes[0].info.align
           && (offset + codes[0].padding) % codes[0].info.align == 0)
     && (codes[0].info.align == 0 ==> codes[0].padding == 0)
     && Aligns(codes[1..], offset + codes[0].Extent()))
  }

  /** Format accounting: the size is the exact sum of paddings and extents, without overflow, and
      each item starts aligned with the least padding. */
  lemma {:induction false} ParseAccounts(s: string, i: nat, e: Endianness, offset: nat)
    requires i <= |s| && offset <= ISIZE_MAX && ParseFrom(s, i, e, offset).Ok?
    ensures var p := ParseFrom(s, i, e, offset);
      && p.size == offset + Total(p.codes) <= ISIZE_MAX
      && p.args == ArgSum(p.codes)
      && Aligns(p.codes, offset)
    decreases |s| - i
  {
    hide TokenAt, CompensateAlignment;
    if i < |s| {
      match TokenAt(s, i, e)
      case End =>
      case Skip(next) => ParseAccounts(s, next, e, offset);
      case Item(next, repeat, info) =>
        var code := Code(repeat, info, CompensateAlignment(offset, info.align));
        var rest := ParseFrom(s, next, e, offset + code.Extent());
        ParseAccounts(s, next, e, offset + code.Extent());
        PaddingIs(offset, info.align);
        ConsAligns(code, rest, offset);
    }
  }

  lemma PaddingIs(offset: nat, align: nat)
    requires align in {0, 1, 2, 4, 8}
    ensures align == 0 ==> CompensateAlignment(offset, align) == 0
    ensures align != 0 ==>
      && CompensateAlignment(offset, align) < align
      && (offset + CompensateAlignment(offset, align)) % align == 0
  {
    if align != 0 { PaddingAligns(offset, align); }
  }

  lemma ConsAligns(code: Code, p: Parsed, offset: nat)
    requires p.Ok? && InfoOk(code.info)
    requires code.info.align != 0 ==> code.padding < code.info.align && (offset + code.padding) % code.info.align == 0
    requires code.info.align == 0 ==> code.padding == 0
    requires Aligns(p.codes, offset + code.Extent())
    ensures Aligns(Cons(code, p).codes, offset)
    ensures Total(Cons(code, p).codes) == code.Extent() + Total(p.codes)
    ensures ArgSum(Cons(code, p).codes) == code.ArgCount() + ArgSum(p.codes)
  {
    assert Cons(code, p).codes[1..] == p.codes;
  }

  // ---------- written formats parse back ----------

  /** An item as a programmer writes it: an optional count and a type character. */
  datatype Written = Written(count: Option<nat>, c: char)

  function Decimal(n: nat): (d: string)
    ensures d != [] && forall i | 0 <= i < |d| :: IsDigit(d[i])
  {
    var last := ['0' + (n % 10) as char];
    if n < 10 then last else Decimal(n / 10) + last
  }

  function WrittenText(w: Written): string {
    (if w.count.Some? then Decimal(w.count.value) else "") + [w.c]
  }

  function Text(ws: seq<Written>): string {
    if ws == [] then "" else WrittenText(ws[0]) + Text(ws[1..])
  }

  function Count(w: Written): nat {
    if w.count.Some? then w.count.value else 1
  }

  predicate WrittenOk(w: Written, e: Endianness) {
    TypeInfo(w.c, e).Some? && !(NativeOnly(w.c) && e != Native)
  }

  /** A type character that the parser accepts and then has no layout for. */
  predicate Unlaid(w: Written, e: Endianness) { w.c == 'u' && e != Native }

  /** The layout of the items themselves. */
  function Layout(ws: seq<Written>, e: Endianness, offset: nat): Parsed
    requires forall i | 0 <= i < |ws| :: WrittenOk(ws[i], e)
  {
    if ws == [] then Ok([], offset, 0)
    else
      assert WrittenOk(ws[0], e);
      var info := TypeInfo(ws[0].c, e).value;
      var code := Code(Count(ws[0]), info, CompensateAlignment(offset, info.align));
      if Count(ws[0]) > ISIZE_MAX then Err(TooLong)
      else if Unlaid(ws[0], e) then Err(Unreachable)
      else if offset + code.Extent() > ISIZE_MAX then Err(TooLong)
      else Cons(code, Layout(ws[1..], e, offset + code.Extent()))
  }

  /** The value that the digits of s from i to j add to a count r. */
  function Reading(s: string, i: nat, j: nat, r: nat): nat
    requires i <= j <= |s| && forall k | i <= k < j :: IsDigit(s[k])
    decreases j - i
  {
    if i == j then r else Reading(s, i + 1, j, r * 10 + Digit(s[i]))
  }

  lemma {:induction false} ReadingGrows(s: string, i: nat, j: nat, r: nat)
    requires i <= j <= |s| && forall k | i <= k < j :: IsDigit(s[k])
    ensures Reading(s, i, j, r) >= r
    decreases j - i
  {
    if i < j { ReadingGrows(s, i + 1, j, r * 10 + Digit(s[i])); }
  }

  /** The checked loop reads exactly that value or overflows. */
  lemma {:induction false} ReadRepeatReads(s: string, i: nat, j: nat, r: nat)
    requires i <= j <= |s| && (forall k | i <= k < j :: IsDigit(s[k])) && (j < |s| ==> !IsDigit(s[j]))
    requires r <= ISIZE_MAX
    ensures ReadRepeat(s, i, r) == if Reading(s, i, j, r) > ISIZE_MAX then None else Some((Reading(s, i, j, r), j))
    decreases j - i
  {
    if i < j {
      var r' := r * 10 + Digit(s[i]);
      ReadingGrows(s, i + 1, j, r');
      if r' <= ISIZE_MAX { ReadRepeatReads(s, i + 1, j, r'); }
    }
  }

  lemma {:induction false} ReadingLast(s: string, i: nat, j: nat, r: nat)
    requires i < j <= |s| && forall k | i <= k < j :: IsDigit(s[k])
    ensures Reading(s, i, j, r) == Reading(s, i, j - 1, r) * 10 + Digit(s[j - 1])
    decreases j - i
  {
    if i + 1 < j { ReadingLast(s, i + 1, j, r * 10 + Digit(s[i])); }
  }

  lemma {:induction false} ReadingDecimal(n: nat, s: string, i: nat)
    requires i + |Decimal(n)| <= |s| && s[i..i + |Decimal(n)|] == Decimal(n)
    ensures (forall k | i <= k < i + |Decimal(n)| :: IsDigit(s[k])) && Reading(s, i, i + |Decimal(n)|, 0) == n
  {
    var d := Decimal(n);
    assert forall k | 0 <= k < |d| :: s[i + k] == d[k];
    assert forall k | i <= k < i + |d| :: s[k] == d[k - i];
    ReadingLast(s, i, i + |d|, 0);
    if n >= 10 {
      var m := Decimal(n / 10);
      assert d[..|m|] == m;
      assert s[i..i + |m|] == m;
      ReadingDecimal(n / 10, s, i);
    }
  }

  /** The token of a written item, whatever follows it. */
  lemma WrittenToken(w: Written, e: Endianness, s: string, i: nat)
    requires WrittenOk(w, e) && i + |WrittenText(w)| <= |s| && s[i..i + |WrittenText(w)|] == WrittenText(w)
    ensures TokenAt(s, i, e) ==
      if Count(w) > ISIZE_MAX then Bad(TooLong)
      else if Unlaid(w, e) then Bad(Unreachable)
      else Item(i + |WrittenText(w)|, Count(w), TypeInfo(w.c, e).value)
  {
    var t := WrittenText(w);
    assert forall k | 0 <= k < |t| :: s[i + k] == t[k];
    var k := i + |t| - 1;
    assert s[k] == t[|t| - 1] == w.c;
    WrittenChar(w, e, s, k);
    if w.count.Some? {
      var d := Decimal(w.count.value);
      assert s[i] == t[0] == d[0];
      assert s[i..k] == d by { assert t[..|d|] == d; assert s[i..i + |t|][..|d|] == s[i..k]; }
      ReadingDecimal(w.count.value, s, i);
      ReadRepeatReads(s, i, k, 0);
      CountedToken(w, e, s, i, k);
    }
  }

  lemma CountedToken(w: Written, e: Endianness, s: string, i: nat, k: nat)
    requires i < k < |s| && IsDigit(s[i]) && w.count.Some?
    requires ReadRepeat(s, i, 0) == if w.count.value > ISIZE_MAX then None else Some((w.count.value, k))
    ensures TokenAt(s, i, e) == if Count(w) > ISIZE_MAX then Bad(TooLong) else CharToken(s, k, Count(w), e)
  {}

  /** A type character is an item or has no layout, and is neither a blank nor a digit. */
  lemma WrittenChar(w: Written, e: Endianness, s: string, k: nat)
    requires WrittenOk(w, e) && k < |s| && s[k] == w.c
    ensures !IsBlank(w.c) && !IsDigit(w.c)
    ensures Count(w) <= ISIZE_MAX && Unlaid(w, e) ==> CharToken(s, k, Count(w), e) == Bad(Unreachable)
    ensures Count(w) <= ISIZE_MAX && !Unlaid(w, e) ==>
      CharToken(s, k, Count(w), e) == Item(k + 1, Count(w), TypeInfo(w.c, e).value)
  {}

  /** Every written list of items parses to exactly its own layout. */
  lemma {:induction false} WrittenParses(ws: seq<Written>, e: Endianness, before: string, offset: nat)
    requires forall i | 0 <= i < |ws| :: WrittenOk(ws[i], e)
    ensures ParseFrom(before + Text(ws), |before|, e, offset) == Layout(ws, e, offset)
    decreases ws
  {
    hide TokenAt, TypeInfo, CompensateAlignment;
    var s := before + Text(ws);
    if ws != [] {
      assert WrittenOk(ws[0], e);
      var t := WrittenText(ws[0]);
      assert s == (before + t) + Text(ws[1..]);
      assert s[|before|..|before| + |t|] == t;
      WrittenToken(ws[0], e, s, |before|);
      var info := TypeInfo(ws[0].c, e).value;
      var code := Code(Count(ws[0]), info, CompensateAlignment(offset, info.align));
      WrittenParses(ws[1..], e, before + t, offset + code.Extent());
    }
  }

  // ---------- the branch that is not unreachable ----------

  /** It is reached by a two-character format. */
  lemma UnreachableReached()
    ensures ParseEndianness("<u") == (Little, 1) && ParseFrom("<u", 1, Little, 0) == Err(Unreachable)
  {
    hide ParseFrom;
    var ws := [Written(None, 'u')];
    assert ws[1..] == [];
    assert "<" + Text(ws) == "<u";
    WrittenParses(ws, Little, "<", 0);
  }

  /** Only a `u` in a format with an explicit byte order or size can reach it, whatever the text. */
  lemma {:induction false} UnreachableNeedsU(s: string, i: nat, e: Endianness, offset: nat)
    requires i <= |s| && ParseFrom(s, i, e, offset) == Err(Unreachable)
    ensures e != Native && 'u' in s[i..]
    decreases |s| - i
  {
    hide TokenAt, CompensateAlignment;
    TokenUnreachable(s, i, e);
    match TokenAt(s, i, e)
    case Bad(_) =>
    case Skip(next) =>
      UnreachableNeedsU(s, next, e, offset);
      assert s[next..] == s[i..][next - i..];
    case Item(next, repeat, info) =>
      var code := Code(repeat, info, CompensateAlignment(offset, info.align));
      UnreachableNeedsU(s, next, e, offset + code.Extent());
      assert s[next..] == s[i..][next - i..];
  }

  lemma TokenUnreachable(s: string, i: nat, e: Endianness)
    requires i <= |s|
    ensures TokenAt(s, i, e) == Bad(Unreachable) ==> e != Native && 'u' in s[i..]
  {
    hide TypeInfo;
    var j := BlankEnd(s, i);
    var counted := if j < |s| && IsDigit(s[j]) then ReadRepeat(s, j, 0) else Some((1, j));
    if counted.Some? && counted.value.1 < |s| {
      var k := counted.value.1;
      assert s[i..][k - i] == s[k];
    }
  }

  /** Item i is a `u` without layout, with a count that fits, and everything before it is laid out. */
  predicate StopsAt(ws: seq<Written>, e: Endianness, offset: nat, i: nat)
    requires forall j | 0 <= j < |ws| :: WrittenOk(ws[j], e)
  {
    i < |ws| && Unlaid(ws[i], e) && Count(ws[i]) <= ISIZE_MAX && Layout(ws[..i], e, offset).Ok?
  }

  /** Parsing a written format reaches it exactly when there is such an item. */
  lemma UnreachableExactly(ws: seq<Written>, e: Endianness, before: string, offset: nat)
    requires forall i | 0 <= i < |ws| :: WrittenOk(ws[i], e)
    ensures ParseFrom(before + Text(ws), |before|, e, offset) == Err(Unreachable) <==>
      exists i: nat :: StopsAt(ws, e, offset, i)
  {
    hide StopsAt, Layout, ParseFrom, WrittenOk;
    WrittenParses(ws, e, before, offset);
    LayoutUnreachable(ws, e, offset);
  }

  lemma {:induction false} LayoutUnreachable(ws: seq<Written>, e: Endianness, offset: nat)
    requires forall i | 0 <= i < |ws| :: WrittenOk(ws[i], e)
    ensures Layout(ws, e, offset) == Err(Unreachable) <==> exists i: nat :: StopsAt(ws, e, offset, i)
    decreases ws
  {
    hide StopsAt, Layout, HeadLaid, HeadCode, WrittenOk;
    if ws == [] {
      NothingStops(ws, e, offset);
    } else if !HeadLaid(ws, e, offset) {
      HeadStops(ws, e, offset);
    } else {
      var next := offset + HeadCode(ws, e, offset).Extent();
      HeadGoes(ws, e, offset);
      LayoutUnreachable(ws[1..], e, next);
      if i: nat :| StopsAt(ws[1..], e, next, i) {
        LaterStops(ws, e, offset, i);
      }
      if i: nat :| StopsAt(ws, e, offset, i) {
        NotFirst(ws, e, offset);
        LaterStops(ws, e, offset, i - 1);
      }
    }
  }

  lemma NothingStops(ws: seq<Written>, e: Endianness, offset: nat)
    requires ws == []
    ensures Layout(ws, e, offset) == Ok([], offset, 0) && forall i: nat :: !StopsAt(ws, e, offset, i)
  {}

  function HeadCode(ws: seq<Written>, e: Endianness, offset: nat): Code
    requires ws != [] && WrittenOk(ws[0], e)
  {
    var info := TypeInfo(ws[0].c, e).value;
    Code(Count(ws[0]), info, CompensateAlignment(offset, info.align))
  }

  predicate HeadLaid(ws: seq<Written>, e: Endianness, offset: nat)
    requires ws != [] && WrittenOk(ws[0], e)
  {
    Count(ws[0]) <= ISIZE_MAX && !Unlaid(ws[0], e) && offset + HeadCode(ws, e, offset).Extent() <= ISIZE_MAX
  }

  lemma HeadGoes(ws: seq<Written>, e: Endianness, offset: nat)
    requires forall j | 0 <= j < |ws| :: WrittenOk(ws[j], e)
    requires ws != [] && HeadLaid(ws, e, offset)
    ensures var code := HeadCode(ws, e, offset);
      Layout(ws, e, offset) == Cons(code, Layout(ws[1..], e, offset + code.Extent()))
    ensures Layout(ws, e, offset) == Err(Unreachable) <==>
      Layout(ws[1..], e, offset + HeadCode(ws, e, offset).Extent()) == Err(Unreachable)
  {
    hide TypeInfo, CompensateAlignment;
  }

  lemma NotFirst(ws: seq<Written>, e: Endianness, offset: nat)
    requires forall j | 0 <= j < |ws| :: WrittenOk(ws[j], e)
    requires ws != [] && HeadLaid(ws, e, offset)
    ensures !StopsAt(ws, e, offset, 0)
  {}

  lemma LaterStops(ws: seq<Written>, e: Endianness, offset: nat, i: nat)
    requires forall j | 0 <= j < |ws| :: WrittenOk(ws[j], e)
    requires ws != [] && HeadLaid(ws, e, offset)
    ensures var next := offset + HeadCode(ws, e, offset).Extent();
      StopsAt(ws[1..], e, next, i) <==> StopsAt(ws, e, offset, i + 1)
  {
    hide TypeInfo, CompensateAlignment, Layout;
    if i + 1 < |ws| {
      HeadGoes(ws[..i + 1], e, offset);
      assert ws[..i + 1][1..] == ws[1..][..i];
    }
  }

  lemma HeadStops(ws: seq<Written>, e: Endianness, offset: nat)
    requires forall j | 0 <= j < |ws| :: WrittenOk(ws[j], e)
    requires ws != [] && !HeadLaid(ws, e, offset)
    ensures Layout(ws, e, offset) == Err(Unreachable) <==> StopsAt(ws, e, offset, 0)
    ensures forall i: nat | i > 0 :: !StopsAt(ws, e, offset, i)
  {
    hide TypeInfo, CompensateAlignment;
    forall i: nat | 0 < i < |ws| ensures !Layout(ws[..i], e, offset).Ok? {
      assert ws[..i][0] == ws[0];
    }
  }

  // ---------- what the characters mean ----------

  /** The five marks; without one the mode is native, and nothing is consumed. */
  lemma Marks(rest: string)
    ensures ParseEndianness("@" + rest) == (Native, 1) && ParseEndianness("=" + rest) == (Host, 1)
    ensures ParseEndianness("<" + rest) == (Little, 1)
    ensures ParseEndianness(">" + rest) == ParseEndianness("!" + rest) == (Big, 1)
    ensures rest == "" || rest[0] !in "@=<>!" ==> ParseEndianness(rest) == (Native, 0)
  {}

  /** The type characters with their sizes. */
  lemma TypeSizes(c: char, e: Endianness)
    ensures TypeInfo(c, e).Some? <==>
      || c in {'x', 's', 'p', 'c', 'b', 'B', '?'} || c in {'h', 'H', 'e'} || c in {'i', 'I', 'f', 'u', 'l', 'L'}
      || c in {'q', 'Q', 'n', 'N', 'd', 'g', 'P', 'O'}
    ensures c in {'x', 's', 'p', 'c', 'b', 'B', '?'} ==> TypeInfo(c, e).value.size == 1
    ensures c in {'h', 'H', 'e'} ==> TypeInfo(c, e).value.size == 2
    ensures c in {'i', 'I', 'f', 'u'} ==> TypeInfo(c, e).value.size == 4
    ensures c in {'l', 'L'} ==> TypeInfo(c, e).value.size == if e == Native then 8 else 4
    ensures c in {'q', 'Q', 'n', 'N', 'd', 'g', 'P', 'O'} ==> TypeInfo(c, e).value.size == 8
  {}

  /** Only the native mode aligns, and it aligns each number to its size. */
  lemma TypeAlignments(c: char, e: Endianness)
    requires TypeInfo(c, e).Some?
    ensures e != Native || c in {'x', 's', 'p', 'c'} ==> TypeInfo(c, e).value.align == 0
    ensures e == Native && c !in {'x', 's', 'p', 'c'} ==> TypeInfo(c, e).value.align == TypeInfo(c, e).value.size
  {}

  lemma TypeKinds(c: char, e: Endianness)
    requires TypeInfo(c, e).Some?
    ensures TypeInfo(c, e).value.kind == Signed <==> c in {'b', 'h', 'i', 'l', 'q', 'n', 'u'}
    ensures TypeInfo(c, e).value.kind == Unsigned <==> c in {'B', 'H', 'I', 'L', 'Q', 'N', 'P', 'O'}
    ensures TypeInfo(c, e).value.kind == Float <==> c in {'e', 'f', 'd', 'g'}
    ensures (TypeInfo(c, e).value.kind == Bool <==> c == '?') && (TypeInfo(c, e).value.kind == Char <==> c == 'c')
    ensures (TypeInfo(c, e).value.kind == Str <==> c == 's') && (TypeInfo(c, e).value.kind == Pascal <==> c == 'p')
    ensures TypeInfo(c, e).value.kind == Pad <==> c == 'x'
  {}

  /** A code takes its padding and its items, and an argument for each item, except that a string is one
      argument and pad bytes are none. */
  lemma CodeTakes(repeat: nat, c: char, e: Endianness, padding: nat)
    requires TypeInfo(c, e).Some?
    ensures var code := Code(repeat, TypeInfo(c, e).value, padding);
      && code.Extent() == padding + repeat * TypeInfo(c, e).value.size
      && code.ArgCount() == if c == 'x' then 0 else if c == 's' || c == 'p' then 1 else repeat
  {}

  /** Two small items in the native mode, which aligns the second one, and in another mode. */
  lemma MarkDecidesSize()
    ensures var p := ParseFrom("bi", 0, Native, 0); p.Ok? && p.size == 8 && p.args == 2
    ensures var p := ParseFrom(">bi", 1, Big, 0); p.Ok? && p.size == 5 && p.args == 2
  {
    hide ParseFrom, TypeInfo, Layout, Text;
    var ws := [Written(None, 'b'), Written(None, 'i')];
    ByteThenInt(Native);
    ByteThenInt(Big);
    assert "" + Text(ws) == "bi" && ">" + Text(ws) == ">bi";
    WrittenParses(ws, Native, "", 0);
    WrittenParses(ws, Big, ">", 0);
  }

  lemma ByteThenInt(e: Endianness)
    ensures var ws := [Written(None, 'b'), Written(None, 'i')];
      && Text(ws) == "bi" && (forall i | 0 <= i < |ws| :: WrittenOk(ws[i], e))
      && var p := Layout(ws, e, 0);
      p.Ok? && p.size == (if e == Native then 8 else 5) && p.args == 2
  {
    hide Layout, HeadLaid, HeadCode, WrittenOk;
    var ws := [Written(None, 'b'), Written(None, 'i')];
    TwoTexts(ws);
    assert ws[1..] == [ws[1]] && ws[1..][1..] == [];
    OneItem(ws, e, 0);
    OneItem(ws[1..], e, 1);
    HeadGoes(ws, e, 0);
    HeadGoes(ws[1..], e, 1);
    NothingStops([], e, if e == Native then 8 else 5);
  }

  /** A byte at the start, and an int at offset 1. */
  lemma OneItem(ws: seq<Written>, e: Endianness, offset: nat)
    requires ws != [] && ws[0] == (if offset == 0 then Written(None, 'b') else Written(None, 'i')) && offset <= 1
    ensures WrittenOk(ws[0], e) && HeadLaid(ws, e, offset) && HeadCode(ws, e, offset).ArgCount() == 1
    ensures HeadCode(ws, e, offset).Extent() == if offset == 0 then 1 else if e == Native then 7 else 4
  {
    hide TypeInfo;
    var c := ws[0].c;
    TypeSizes(c, e);
    TypeKinds(c, e);
    TypeAlignments(c, e);
    assert HeadCode(ws, e, offset).padding == if e == Native then 3 * offset else 0;
  }

  lemma TwoTexts(ws: seq<Written>)
    requires |ws| == 2 && ws[0].count == ws[1].count == None
    ensures Text(ws) == [ws[0].c] + [ws[1].c]
  {
    assert ws[1..][1..] == [];
    assert Text(ws[1..]) == [ws[1].c] + Text([]);
  }

  // ---------- the size of a format ----------

  /** The next multiple of the alignment. */
  function RoundUp(offset: nat, align: nat): (r: nat)
    requires align in {0, 1, 2, 4, 8}
    ensures offset <= r && (align == 0 ==> r == offset)
    ensures align != 0 ==> r % align == 0 && r < offset + align
  {
    if align == 0 then offset else offset + align - 1 - (offset + align - 1) % align
  }

  /** The end of the items when each number starts at the next multiple of its alignment. */
  function SizeFrom(ws: seq<Written>, e: Endianness, offset: nat): (size: nat)
    requires forall i | 0 <= i < |ws| :: WrittenOk(ws[i], e)
    ensures size >= offset
  {
    if ws == [] then offset
    else
      assert WrittenOk(ws[0], e);
      var info := TypeInfo(ws[0].c, e).value;
      SizeFrom(ws[1..], e, RoundUp(offset, info.align) + Count(ws[0]) * info.size)
  }

  lemma PaddingRoundsUp(offset: nat, align: nat)
    requires align in {0, 1, 2, 4, 8}
    ensures offset + CompensateAlignment(offset, align) == RoundUp(offset, align)
  {
    hide CompensateAlignment, RoundUp;
    PaddingIs(offset, align);
    if align != 0 { SameMultiple(offset + CompensateAlignment(offset, align), RoundUp(offset, align), offset, align); }
  }

  lemma SameMultiple(a: nat, b: nat, offset: nat, align: nat)
    requires align in {1, 2, 4, 8} && a % align == 0 == b % align
    requires offset <= a < offset + align && offset <= b < offset + align
    ensures a == b
  {
    if align == 2 { assert a == 2 * (a / 2) && b == 2 * (b / 2); }
    if align == 4 { assert a == 4 * (a / 4) && b == 4 * (b / 4); }
    if align == 8 { assert a == 8 * (a / 8) && b == 8 * (b / 8); }
  }

  /** Every count fits isize. */
  predicate CountsFit(ws: seq<Written>) {
    forall i | 0 <= i < |ws| :: Count(ws[i]) <= ISIZE_MAX
  }

  /** A layout of n codes with this size, or an overflow. */
  predicate SizedAs(p: Parsed, fits: bool, size: nat, n: nat) {
    if fits then p.Ok? && p.size == size && |p.codes| == n else p == Err(TooLong)
  }

  lemma ConsSized(code: Code, p: Parsed, fits: bool, size: nat, n: nat)
    requires SizedAs(p, fits, size, n)
    ensures SizedAs(Cons(code, p), fits, size, n + 1)
  {}

  lemma CountsFitMore(ws: seq<Written>)
    requires ws != []
    ensures CountsFit(ws) <==> Count(ws[0]) <= ISIZE_MAX && CountsFit(ws[1..])
  {
    assert ws == [ws[0]] + ws[1..];
  }

  /** A written format without a `u` that has no layout parses exactly when its counts and its size fit, and
      to that size. */
  lemma SizeExactly(ws: seq<Written>, e: Endianness, before: string, offset: nat)
    requires forall i | 0 <= i < |ws| :: WrittenOk(ws[i], e) && !Unlaid(ws[i], e)
    requires offset <= ISIZE_MAX
    ensures var size, p := SizeFrom(ws, e, offset), ParseFrom(before + Text(ws), |before|, e, offset);
      SizedAs(p, size <= ISIZE_MAX && CountsFit(ws), size, |ws|)
  {
    hide ParseFrom, Layout, WrittenOk, SizeFrom;
    WrittenParses(ws, e, before, offset);
    LayoutSize(ws, e, offset);
  }

  lemma {:induction false} LayoutSize(ws: seq<Written>, e: Endianness, offset: nat)
    requires forall i | 0 <= i < |ws| :: WrittenOk(ws[i], e) && !Unlaid(ws[i], e)
    requires offset <= ISIZE_MAX
    ensures var size := SizeFrom(ws, e, offset);
      SizedAs(Layout(ws, e, offset), size <= ISIZE_MAX && CountsFit(ws), size, |ws|)
    decreases ws
  {
    hide TypeInfo, CompensateAlignment, WrittenOk, Layout, SizeFrom, HeadCode, HeadLaid, CountsFit, Cons;
    if ws == [] {
      NothingSized(ws, e, offset);
    } else {
      CountsFitMore(ws);
      HeadSize(ws, e, offset);
      var next := offset + HeadCode(ws, e, offset).Extent();
      HeadLays(ws, e, offset);
      if HeadLaid(ws, e, offset) {
        LayoutSize(ws[1..], e, next);
        var size := SizeFrom(ws[1..], e, next);
        var fits := size <= ISIZE_MAX && CountsFit(ws[1..]);
        ConsSized(HeadCode(ws, e, offset), Layout(ws[1..], e, next), fits, size, |ws| - 1);
      }
    }
  }

  lemma NothingSized(ws: seq<Written>, e: Endianness, offset: nat)
    requires ws == []
    ensures Layout(ws, e, offset) == Ok([], offset, 0) && SizeFrom(ws, e, offset) == offset && CountsFit(ws)
  {}

  lemma HeadSize(ws: seq<Written>, e: Endianness, offset: nat)
    requires forall i | 0 <= i < |ws| :: WrittenOk(ws[i], e)
    requires ws != []
    ensures SizeFrom(ws, e, offset) == SizeFrom(ws[1..], e, offset + HeadCode(ws, e, offset).Extent())
  {
    hide TypeInfo, CompensateAlignment, RoundUp;
    var info := TypeInfo(ws[0].c, e).value;
    PaddingRoundsUp(offset, info.align);
    assert info.size * Count(ws[0]) == Count(ws[0]) * info.size;
  }

  lemma HeadLays(ws: seq<Written>, e: Endianness, offset: nat)
    requires forall i | 0 <= i < |ws| :: WrittenOk(ws[i], e)
    requires ws != [] && !Unlaid(ws[0], e)
    ensures var code := HeadCode(ws, e, offset);
      && (HeadLaid(ws, e, offset) <==> Count(ws[0]) <= ISIZE_MAX && offset + code.Extent() <= ISIZE_MAX)
      && Layout(ws, e, offset) ==
        if HeadLaid(ws, e, offset) then Cons(code, Layout(ws[1..], e, offset + code.Extent())) else Err(TooLong)
  {
    hide TypeInfo, CompensateAlignment;
  }

  // ---------- what is skipped ----------

  lemma ParseGoesOn(s: string, i: nat, e: Endianness, offset: nat)
    requires i < |s|
    ensures match TokenAt(s, i, e)
      case Skip(next) => ParseFrom(s, i, e, offset) == ParseFrom(s, next, e, offset)
      case Bad(error) => ParseFrom(s, i, e, offset) == Err(error)
      case End => ParseFrom(s, i, e, offset) == Ok([], offset, 0)
      case _ => true
  {
    hide TokenAt;
  }

  /** Without a blank or a count in front, the token is that of the character. */
  lemma BareToken(s: string, i: nat, e: Endianness)
    requires i < |s| && !IsBlank(s[i]) && !IsDigit(s[i])
    ensures TokenAt(s, i, e) == CharToken(s, i, 1, e)
  {
    hide CharToken, ReadRepeat;
  }

  lemma BlankToken(s: string, i: nat, e: Endianness)
    requires i < |s| && IsBlank(s[i])
    ensures if i + 1 < |s| then TokenAt(s, i, e) == TokenAt(s, i + 1, e) else TokenAt(s, i, e) == End
  {
    hide CharToken, ReadRepeat;
    assert BlankEnd(s, i) == BlankEnd(s, i + 1);
  }

  /** Parsing depends on what is at a position only through the token. */
  lemma SameToken(s: string, i: nat, j: nat, e: Endianness, offset: nat)
    requires i < |s| && j < |s| && TokenAt(s, i, e) == TokenAt(s, j, e)
    ensures ParseFrom(s, i, e, offset) == ParseFrom(s, j, e, offset)
  {
    hide TokenAt, CompensateAlignment;
  }

  /** Blanks, braces, marks and the like between items mean nothing. */
  lemma SkippedChar(s: string, i: nat, e: Endianness, offset: nat)
    requires i < |s|
    requires s[i] in {' ', '\t', '\n', '\r'} || s[i] in {'{', '}', '&', '<', '>', '@', '=', '!'}
    ensures ParseFrom(s, i, e, offset) == ParseFrom(s, i + 1, e, offset)
  {
    hide ParseFrom, TokenAt;
    ParseGoesOn(s, i, e, offset);
    if IsBlank(s[i]) {
      BlankToken(s, i, e);
      if i + 1 < |s| { SameToken(s, i, i + 1, e, offset); } else { ParseEnds(s, e, offset); }
    } else {
      BareToken(s, i, e);
      SkippedMark(s, i, e);
    }
  }

  lemma ParseEnds(s: string, e: Endianness, offset: nat)
    ensures ParseFrom(s, |s|, e, offset) == Ok([], offset, 0)
  {}

  lemma SkippedMark(s: string, i: nat, e: Endianness)
    requires i < |s| && s[i] in {'{', '}', '&', '<', '>', '@', '=', '!'}
    ensures CharToken(s, i, 1, e) == Skip(i + 1)
  {
    hide TypeInfo;
    var marks := "{}&<>@=!";
    assert marks[0] == '{' && marks[1] == '}' && marks[2] == '&' && marks[3] == '<';
    assert marks[4] == '>' && marks[5] == '@' && marks[6] == '=' && marks[7] == '!';
    assert IsSkipped(s[i]);
  }

  /** A field name between colons means nothing. */
  lemma SkippedName(s: string, i: nat, n: nat, e: Endianness, offset: nat)
    requires i < n < |s| && s[i] == ':' == s[n] && forall k | i < k < n :: s[k] != ':'
    ensures ParseFrom(s, i, e, offset) == ParseFrom(s, n + 1, e, offset)
  {
    hide ParseFrom, TokenAt, TypeInfo, AfterColon, AfterClose;
    ColonFound(s, i + 1, n);
    ParseGoesOn(s, i, e, offset);
    BareToken(s, i, e);
  }

  lemma {:induction false} ColonFound(s: string, i: nat, n: nat)
    requires i <= n < |s| && s[n] == ':' && forall k | i <= k < n :: s[k] != ':'
    ensures AfterColon(s, i) == Some(n + 1)
    decreases n - i
  {
    if i < n { ColonFound(s, i + 1, n); }
  }

  /** How often a character occurs from position i up to j. */
  function Occurs(s: string, i: nat, j: nat, c: char): nat
    requires i <= j <= |s|
  {
    multiset(s[i..j])[c]
  }

  lemma OccursFirst(s: string, i: nat, j: nat, c: char)
    requires i < j <= |s|
    ensures Occurs(s, i, j, c) == Occurs(s, i + 1, j, c) + if s[i] == c then 1 else 0
  {
    assert s[i..j] == [s[i]] + s[i + 1..j];
  }

  /** The closing bracket is at position n: it is the first at which as many are closed as were opened. */
  ghost predicate ClosesAt(s: string, i: nat, open: char, close: char, depth: nat, n: nat) {
    && i <= n <= |s|
    && depth + Occurs(s, i, n, open) == Occurs(s, i, n, close)
    && forall m | i <= m < n :: depth + Occurs(s, i, m, open) > Occurs(s, i, m, close)
  }

  /** A bracket is matched by the first position at which the brackets balance, and unmatched exactly
      when there is none. */
  lemma {:induction false} AfterCloseExactly(s: string, i: nat, open: char, close: char, depth: nat)
    requires i <= |s| && open != close
    ensures match AfterClose(s, i, open, close, depth)
      case Some(n) => ClosesAt(s, i, open, close, depth, n)
      case None => forall n: nat :: !ClosesAt(s, i, open, close, depth, n)
    decreases |s| - i
  {
    if depth == 0 {
      assert s[i..i] == [];
    } else if i == |s| {
      assert s[i..i] == [];
    } else {
      var depth' := if s[i] == open then depth + 1 else if s[i] == close then depth - 1 else depth;
      AfterCloseExactly(s, i + 1, open, close, depth');
      forall n: nat ensures ClosesAt(s, i, open, close, depth, n) <==> ClosesAt(s, i + 1, open, close, depth', n) {
        ClosesLater(s, i, open, close, depth, depth', n);
      }
    }
  }

  lemma ClosesLater(s: string, i: nat, open: char, close: char, depth: nat, depth': nat, n: nat)
    requires i < |s| && open != close && depth > 0
    requires depth' == if s[i] == open then depth + 1 else if s[i] == close then depth - 1 else depth
    ensures ClosesAt(s, i, open, close, depth, n) <==> ClosesAt(s, i + 1, open, close, depth', n)
  {
    assert s[i..i] == [];
    forall m | i + 1 <= m <= |s|
      ensures depth + Occurs(s, i, m, open) - Occurs(s, i, m, close) ==
        depth' + Occurs(s, i + 1, m, open) - Occurs(s, i + 1, m, close)
    {
      OccursFirst(s, i, m, open);
      OccursFirst(s, i, m, close);
    }
    assert Occurs(s, i, i, open) == 0 == Occurs(s, i, i, close);
    hide Occurs;
    if ClosesAt(s, i, open, close, depth, n) {
      assert n != i;
      assert depth' + Occurs(s, i + 1, n, open) == Occurs(s, i + 1, n, close);
      var j := i + 1;
      forall m | j <= m < n ensures depth' + Occurs(s, j, m, open) > Occurs(s, j, m, close) {
        assert depth + Occurs(s, i, m, open) > Occurs(s, i, m, close);
      }
    }
    if ClosesAt(s, i + 1, open, close, depth', n) {
      assert depth + Occurs(s, i, n, open) == Occurs(s, i, n, close);
      forall m | i <= m < n ensures depth + Occurs(s, i, m, open) > Occurs(s, i, m, close) {
        if m > i { assert depth' + Occurs(s, i + 1, m, open) > Occurs(s, i + 1, m, close); }
      }
    }
  }

  /** A bracketed part, nested brackets included, means nothing. */
  lemma SkippedBrackets(s: string, i: nat, n: nat, e: Endianness, offset: nat)
    requires i < |s| && s[i] == '(' && ClosesAt(s, i + 1, '(', ')', 1, n)
    ensures ParseFrom(s, i, e, offset) == ParseFrom(s, n, e, offset)
  {
    hide ParseFrom, TokenAt, TypeInfo, AfterColon, AfterClose;
    AfterCloseExactly(s, i + 1, '(', ')', 1);
    ClosesOnce(s, i + 1, '(', ')', 1);
    ParseGoesOn(s, i, e, offset);
    BareToken(s, i, e);
  }

  lemma ClosesOnce(s: string, i: nat, open: char, close: char, depth: nat)
    ensures forall m: nat, n: nat ::
      ClosesAt(s, i, open, close, depth, m) && ClosesAt(s, i, open, close, depth, n) ==> m == n
  {
    hide Occurs;
  }

  lemma SkippedBraces(s: string, i: nat, n: nat, e: Endianness, offset: nat)
    requires i + 1 < |s| && (s[i] == 'T' || s[i] == 'X') && s[i + 1] == '{' && ClosesAt(s, i + 2, '{', '}', 1, n)
    ensures ParseFrom(s, i, e, offset) == ParseFrom(s, n, e, offset)
  {
    hide ParseFrom, TokenAt, TypeInfo, AfterColon, AfterClose;
    AfterCloseExactly(s, i + 2, '{', '}', 1);
    ClosesOnce(s, i + 2, '{', '}', 1);
    ParseGoesOn(s, i, e, offset);
    BareToken(s, i, e);
  }

  /** The errors of a character that starts no item. */
  lemma BadCharacters(s: string, i: nat, e: Endianness, offset: nat)
    requires i < |s|
    ensures s[i] == '\0' ==> ParseFrom(s, i, e, offset) == Err(EmbeddedNull)
    ensures s[i] in {'n', 'N', 'P'} && e != Native ==> ParseFrom(s, i, e, offset) == Err(BadChar)
    ensures s[i] == ':' && ':' !in s[i + 1..] ==> ParseFrom(s, i, e, offset) == Err(Unmatched)
    ensures s[i] == '(' && Unclosed(s, i + 1, '(', ')') ==> ParseFrom(s, i, e, offset) == Err(Unmatched)
  {
    hide ParseFrom, TokenAt, TypeInfo, AfterColon, AfterClose, Unclosed, IsSkipped;
    ParseGoesOn(s, i, e, offset);
    if s[i] in {'\0', 'n', 'N', 'P', ':', '('} { BareToken(s, i, e); }
    if s[i] == ':' && ':' !in s[i + 1..] { NoColon(s, i + 1); }
    if s[i] == '(' && Unclosed(s, i + 1, '(', ')') { NoClose(s, i + 1, '(', ')'); }
    if s[i] in {'n', 'N', 'P'} { NotSkipped(s[i]); TypeSizes(s[i], e); }
  }

  lemma NotSkipped(c: char)
    requires c in {'n', 'N', 'P'}
    ensures !IsSkipped(c)
  {}

  ghost predicate Unclosed(s: string, i: nat, open: char, close: char) {
    forall n | i <= n <= |s| :: !ClosesAt(s, i, open, close, 1, n)
  }

  lemma NoClose(s: string, i: nat, open: char, close: char)
    requires i <= |s| && open != close && Unclosed(s, i, open, close)
    ensures AfterClose(s, i, open, close, 1) == None
  {
    AfterCloseExactly(s, i, open, close, 1);
  }

  /** A count at the end, without a type, is an error unless it is 1. */
  lemma CountAlone(before: string, n: nat, e: Endianness, offset: nat)
    ensures ParseFrom(before + Decimal(n), |before|, e, offset) ==
      if n > ISIZE_MAX then Err(TooLong) else if n != 1 then Err(NoSpecifier) else Ok([], offset, 0)
  {
    hide ParseFrom, CharToken, Decimal;
    var s, i := before + Decimal(n), |before|;
    assert s[i..i + |Decimal(n)|] == Decimal(n);
    assert s[i] == Decimal(n)[0];
    ReadingDecimal(n, s, i);
    ReadRepeatReads(s, i, |s|, 0);
    ParseGoesOn(s, i, e, offset);
  }

  lemma {:induction false} NoColon(s: string, i: nat)
    requires i <= |s| && ':' !in s[i..]
    ensures AfterColon(s, i) == None
    decreases |s| - i
  {
    if i < |s| {
      assert s[i..][0] == s[i] && s[i..][1..] == s[i + 1..];
      NoColon(s, i + 1);
    }
  }
}
