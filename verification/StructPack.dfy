/** Packing and unpacking of buffer.rs for a parsed struct format. */
module StructPack {
  import opened StructFormat
  import opened Wrappers

  datatype ByteOrder = LittleEndian | BigEndian

  /** Arguments by the kind of value they carry; a float by the bits it is converted to. */
  datatype Arg = Int(i: int) | Bytes(data: seq<Byte>) | Boolean(b: bool) | Bits(bits: nat)

  // ---------- integers as bytes ----------

  function Power256(n: nat): (p: nat)
    ensures p >= 1
  {
    if n == 0 then 1 else 256 * Power256(n - 1)
  }

  function Encode(n: nat, size: nat, order: ByteOrder): (s: seq<Byte>)
    ensures |s| == size
  {
    if size == 0 then []
    else if order == LittleEndian then [n % 256] + Encode(n / 256, size - 1, order)
    else Encode(n / 256, size - 1, order) + [n % 256]
  }

  function Decode(s: seq<Byte>, order: ByteOrder): nat {
    if s == [] then 0
    else if order == LittleEndian then s[0] + 256 * Decode(s[1..], order)
    else Decode(s[..|s| - 1], order) * 256 + s[|s| - 1]
  }

  lemma {:induction false} DecodeEncode(n: nat, size: nat, order: ByteOrder)
    requires n < Power256(size)
    ensures Decode(Encode(n, size, order), order) == n
  {
    if size > 0 {
      DecodeEncode(n / 256, size - 1, order);
      var s := Encode(n, size, order);
      if order == LittleEndian {
        assert s[1..] == Encode(n / 256, size - 1, order);
      } else {
        assert s[..|s| - 1] == Encode(n / 256, size - 1, order);
      }
    }
  }

  predicate InRange(i: int, kind: Kind, size: nat)
    requires size > 0
  {
    if kind == Signed then -(Power256(size) / 2) <= i < Power256(size) / 2 else 0 <= i < Power256(size)
  }

  /** Two's complement. */
  function ToUnsigned(i: int, size: nat): (n: nat)
    requires size > 0 && (InRange(i, Signed, size) || InRange(i, Unsigned, size))
    ensures n < Power256(size)
  {
    if i < 0 then i + Power256(size) else i
  }

  function FromUnsigned(n: nat, kind: Kind, size: nat): int {
    if kind == Signed && n >= Power256(size) / 2 then n - Power256(size) else n
  }

  lemma UnsignedRoundTrip(i: int, kind: Kind, size: nat)
    requires size > 0 && (kind == Signed || kind == Unsigned) && InRange(i, kind, size)
    ensures FromUnsigned(ToUnsigned(i, size), kind, size) == i
  {
    hide Power256;
    HalfRange(size);
  }

  // ---------- one item ----------

  predicate IsItem(kind: Kind) { kind != Pad && kind != Str && kind != Pascal }

  /** The bytes of one item; None where the source raises. */
  function ItemBytes(info: Info, order: ByteOrder, arg: Arg): (r: Option<seq<Byte>>)
    requires IsItem(info.kind) && InfoOk(info)
    ensures r.Some? ==> |r.value| == info.size
  {
    if info.kind == Char then (if arg.Bytes? && |arg.data| == 1 then Some(arg.data) else None)
    else if info.kind == Bool then (if arg.Boolean? then Some([if arg.b then 1 else 0]) else None)
    else if info.kind == Float then
      (if arg.Bits? && arg.bits < Power256(info.size) then Some(Encode(arg.bits, info.size, order)) else None)
    else if arg.Int? && InRange(arg.i, info.kind, info.size) then
      Some(Encode(ToUnsigned(arg.i, info.size), info.size, order))
    else None
  }

  function ItemArg(info: Info, order: ByteOrder, data: seq<Byte>): Arg
    requires IsItem(info.kind) && |data| == info.size > 0
  {
    if info.kind == Char then Bytes([data[0]])
    else if info.kind == Bool then Boolean(data[0] != 0)
    else if info.kind == Float then Bits(Decode(data, order))
    else Int(FromUnsigned(Decode(data, order), info.kind, info.size))
  }

  /** Every value that packs comes back unchanged, for each width, sign and byte order. */
  lemma ItemRoundTrip(info: Info, order: ByteOrder, arg: Arg)
    requires IsItem(info.kind) && InfoOk(info)
    requires ItemBytes(info, order, arg).Some?
    ensures ItemArg(info, order, ItemBytes(info, order, arg).value) == arg
  {
    if info.kind == Char {
      assert arg.data == [arg.data[0]];
    } else if info.kind == Float {
      DecodeEncode(arg.bits, info.size, order);
    } else if info.kind != Bool {
      UnsignedRoundTrip(arg.i, info.kind, info.size);
      DecodeEncode(ToUnsigned(arg.i, info.size), info.size, order);
    }
  }

  // ---------- one code ----------

  ghost predicate CodeOk(c: Code) {
    InfoOk(c.info)
  }

  function Zeros(n: nat): (s: seq<Byte>)
    ensures |s| == n
  {
    seq(n, _ => 0)
  }

  /** `write_string`: cut or zero-padded to the length of the field. */
  function Field(data: seq<Byte>, n: nat): (s: seq<Byte>)
    ensures |s| == n
  {
    if |data| >= n then data[..n] else data + Zeros(n - |data|)
  }

  function PascalLength(data: seq<Byte>, repeat: nat): (n: nat)
    requires repeat > 0
    ensures n < 256 && n < repeat && n <= |data|
  {
    Min(Min(|data|, 255), repeat - 1)
  }

  function ItemsBytes(info: Info, order: ByteOrder, args: seq<Arg>): (r: Option<seq<Byte>>)
    requires IsItem(info.kind) && InfoOk(info)
    ensures r.Some? ==> |r.value| == info.size * |args|
  {
    if args == [] then Some([])
    else
      var first, rest := ItemBytes(info, order, args[0]), ItemsBytes(info, order, args[1..]);
      ItemSpace(info.size, |args|);
      if first == None || rest == None then None else Some(first.value + rest.value)
  }

  function CodeBytes(c: Code, order: ByteOrder, args: seq<Arg>): (r: Option<seq<Byte>>)
    requires CodeOk(c) && |args| == c.ArgCount()
    ensures r.Some? ==> |r.value| == c.info.size * c.repeat
  {
    match c.info.kind
    case Pad => Some(Zeros(c.repeat))
    case Str => if args[0].Bytes? then Some(Field(args[0].data, c.repeat)) else None
    case Pascal =>
      if c.repeat == 0 then Some([])
      else if args[0].Bytes? then Some([PascalLength(args[0].data, c.repeat)] + Field(args[0].data, c.repeat - 1))
      else None
    case _ => ItemsBytes(c.info, order, args)
  }

  function ItemArgs(info: Info, order: ByteOrder, data: seq<Byte>, n: nat): (r: seq<Arg>)
    requires IsItem(info.kind) && info.size > 0 && |data| == info.size * n
    ensures |r| == n
    decreases n
  {
    if n == 0 then []
    else
      assert info.size * n == info.size + info.size * (n - 1);
      [ItemArg(info, order, data[..info.size])] + ItemArgs(info, order, data[info.size..], n - 1)
  }

  function UnpackPascal(data: seq<Byte>): Arg {
    if data == [] then Bytes([])
    else Bytes(data[1..][..Min(data[0], |data| - 1)])
  }

  function CodeArgs(c: Code, order: ByteOrder, data: seq<Byte>): (r: seq<Arg>)
    requires CodeOk(c) && |data| == c.info.size * c.repeat
    ensures |r| == c.ArgCount()
  {
    match c.info.kind
    case Pad => []
    case Str => [Bytes(data)]
    case Pascal => [UnpackPascal(data)]
    case _ => ItemArgs(c.info, order, data, c.repeat)
  }

  /** What comes back: strings cut or padded to their field, Pascal strings cut to what their length
      byte and field hold, everything else unchanged. */
  function Normal(c: Code, args: seq<Arg>): seq<Arg>
    requires |args| == c.ArgCount()
  {
    match c.info.kind
    case Str => if args[0].Bytes? then [Bytes(Field(args[0].data, c.repeat))] else args
    case Pascal =>
      if c.repeat == 0 then [Bytes([])]
      else if args[0].Bytes? then [Bytes(args[0].data[..PascalLength(args[0].data, c.repeat)])] else args
    case _ => args
  }

  lemma {:induction false} ItemsRoundTrip(info: Info, order: ByteOrder, args: seq<Arg>)
    requires IsItem(info.kind) && InfoOk(info)
    requires ItemsBytes(info, order, args).Some?
    ensures ItemArgs(info, order, ItemsBytes(info, order, args).value, |args|) == args
  {
    hide ItemBytes, ItemArg, InfoOk;
    if args != [] {
      ItemRoundTrip(info, order, args[0]);
      ItemsRoundTrip(info, order, args[1..]);
      ItemSpace(info.size, |args|);
      var first, rest := ItemBytes(info, order, args[0]).value, ItemsBytes(info, order, args[1..]).value;
      assert (first + rest)[..info.size] == first && (first + rest)[info.size..] == rest;
      assert args == [args[0]] + args[1..];
    }
  }

  lemma PascalRoundTrip(data: seq<Byte>, repeat: nat)
    requires repeat > 0
    ensures UnpackPascal([PascalLength(data, repeat)] + Field(data, repeat - 1)) ==
      Bytes(data[..PascalLength(data, repeat)])
  {
    var n := PascalLength(data, repeat);
    var packed := [n] + Field(data, repeat - 1);
    assert packed[1..] == Field(data, repeat - 1);
    assert Field(data, repeat - 1)[..n] == data[..n];
  }

  lemma CodeRoundTrip(c: Code, order: ByteOrder, args: seq<Arg>)
    requires CodeOk(c) && |args| == c.ArgCount() && CodeBytes(c, order, args).Some?
    ensures CodeArgs(c, order, CodeBytes(c, order, args).value) == Normal(c, args)
  {
    match c.info.kind
    case Pad =>
    case Str =>
    case Pascal => if c.repeat > 0 { PascalRoundTrip(args[0].data, c.repeat); }
    case _ => ItemsRoundTrip(c.info, order, args);
  }

  // ---------- whole formats ----------

  ghost predicate CodesOk(codes: seq<Code>) {
    forall i | 0 <= i < |codes| :: CodeOk(codes[i])
  }

  /** The first Total(codes) bytes of the buffer after packing; padding keeps what was there. */
  ghost function Packed(codes: seq<Code>, order: ByteOrder, args: seq<Arg>, oldBytes: seq<Byte>): (r: Option<seq<Byte>>)
    requires CodesOk(codes) && |args| == ArgSum(codes) && |oldBytes| >= Total(codes)
    ensures r.Some? ==> |r.value| == Total(codes)
  {
    if codes == [] then Some([])
    else
      var c := codes[0];
      var bytes := CodeBytes(c, order, args[..c.ArgCount()]);
      var rest := Packed(codes[1..], order, args[c.ArgCount()..], oldBytes[c.Extent()..]);
      if bytes == None || rest == None then None else Some(oldBytes[..c.padding] + bytes.value + rest.value)
  }

  ghost function Unpacked(codes: seq<Code>, order: ByteOrder, data: seq<Byte>): seq<Arg>
    requires CodesOk(codes) && |data| == Total(codes)
  {
    if codes == [] then []
    else
      var c := codes[0];
      CodeArgs(c, order, data[c.padding..c.Extent()]) + Unpacked(codes[1..], order, data[c.Extent()..])
  }

  ghost function NormalAll(codes: seq<Code>, args: seq<Arg>): seq<Arg>
    requires |args| == ArgSum(codes)
  {
    if codes == [] then []
    else Normal(codes[0], args[..codes[0].ArgCount()]) + NormalAll(codes[1..], args[codes[0].ArgCount()..])
  }

  /** Unpacking what was packed returns the arguments, normalised. */
  lemma {:induction false} RoundTrip(codes: seq<Code>, order: ByteOrder, args: seq<Arg>, oldBytes: seq<Byte>)
    requires CodesOk(codes) && |args| == ArgSum(codes) && |oldBytes| >= Total(codes)
    requires Packed(codes, order, args, oldBytes).Some?
    ensures Unpacked(codes, order, Packed(codes, order, args, oldBytes).value) == NormalAll(codes, args)
  {
    if codes != [] {
      var c := codes[0];
      var n := c.ArgCount();
      CodeRoundTrip(c, order, args[..n]);
      RoundTrip(codes[1..], order, args[n..], oldBytes[c.Extent()..]);
      var bytes := CodeBytes(c, order, args[..n]).value;
      var rest := Packed(codes[1..], order, args[n..], oldBytes[c.Extent()..]).value;
      var data := oldBytes[..c.padding] + bytes + rest;
      assert data[c.padding..c.Extent()] == bytes && data[c.Extent()..] == rest;
    }
  }

  // ---------- the loops ----------

  /** The buffer with some bytes written at a position and nothing else changed. */
  ghost predicate WrittenAt(before: seq<Byte>, after: seq<Byte>, pos: nat, bytes: seq<Byte>)
    requires pos + |bytes| <= |before|
  {
    after == before[..pos] + bytes + before[pos + |bytes|..]
  }

  method WriteString(buffer: array<Byte>, pos: nat, n: nat, data: seq<Byte>)
    requires pos + n <= buffer.Length
    modifies buffer
    ensures WrittenAt(old(buffer[..]), buffer[..], pos, Field(data, n))
    ensures forall k | 0 <= k < n :: buffer[pos + k] == if k < |data| then data[k] else 0
    ensures forall k | 0 <= k < buffer.Length && !(pos <= k < pos + n) :: buffer[k] == old(buffer[k])
  {
    var len := Min(|data|, n);
    for i := 0 to len
      invariant forall k | 0 <= k < buffer.Length ::
        buffer[k] == if pos <= k < pos + i then data[k - pos] else old(buffer[k])
    {
      buffer[pos + i] := data[i];
    }
    for i := len to n
      invariant forall k | 0 <= k < buffer.Length ::
        buffer[k] == if pos <= k < pos + len then data[k - pos]
          else if pos + len <= k < pos + i then 0 else old(buffer[k])
    {
      buffer[pos + i] := 0;
    }
  }

  method PackCode(buffer: array<Byte>, pos: nat, c: Code, order: ByteOrder, args: seq<Arg>) returns (ok: bool)
    requires CodeOk(c) && |args| == c.ArgCount() && pos + c.info.size * c.repeat <= buffer.Length
    modifies buffer
    ensures ok <==> CodeBytes(c, order, args).Some?
    ensures ok ==> WrittenAt(old(buffer[..]), buffer[..], pos, CodeBytes(c, order, args).value)
  {
    match c.info.kind {
      case Pad =>
        WriteString(buffer, pos, c.repeat, []);
        assert Field([], c.repeat) == Zeros(c.repeat);
        ok := true;
      case Str =>
        ok := args[0].Bytes?;
        if ok { WriteString(buffer, pos, c.repeat, args[0].data); }
      case Pascal =>
        ok := PackPascal(buffer, pos, c.repeat, args[0]);
      case _ =>
        ok := PackItems(buffer, pos, c.info, order, args);
    }
  }

  method PackPascal(buffer: array<Byte>, pos: nat, repeat: nat, arg: Arg) returns (ok: bool)
    requires pos + repeat <= buffer.Length
    modifies buffer
    ensures ok <==> repeat == 0 || arg.Bytes?
    ensures ok && repeat == 0 ==> buffer[..] == old(buffer[..])
    ensures ok && repeat > 0 ==>
      WrittenAt(old(buffer[..]), buffer[..], pos, [PascalLength(arg.data, repeat)] + Field(arg.data, repeat - 1))
  {
    if repeat == 0 {
      return true;
    }
    hide WrittenAt, Field, PascalLength;
    ok := arg.Bytes?;
    if ok {
      var length := PascalLength(arg.data, repeat);
      buffer[pos] := length;
      WrittenOne(old(buffer[..]), buffer[..], pos, length);
      WriteMore(old(buffer[..]), buffer[..], pos, [length], Field(arg.data, repeat - 1));
      WriteString(buffer, pos + 1, repeat - 1, arg.data);
    }
  }

  method PackItems(buffer: array<Byte>, pos: nat, info: Info, order: ByteOrder, args: seq<Arg>) returns (ok: bool)
    requires IsItem(info.kind) && InfoOk(info)
    requires pos + info.size * |args| <= buffer.Length
    modifies buffer
    ensures ok <==> ItemsBytes(info, order, args).Some?
    ensures ok ==> WrittenAt(old(buffer[..]), buffer[..], pos, ItemsBytes(info, order, args).value)
  {
    hide WrittenAt, ItemBytes, ItemsBytes, Field, InfoOk;
    var p := pos;
    ghost var done: seq<Byte> := [];
    ghost var before := buffer[..];
    NothingWritten(before, pos);
    JoinNothing(ItemsBytes(info, order, args));
    assert args[0..] == args;
    for i := 0 to |args|
      invariant |done| + info.size * |args[i..]| == info.size * |args| && p == pos + |done|
      invariant WrittenAt(before, buffer[..], pos, done)
      invariant ItemsBytes(info, order, args) == Join(done, ItemsBytes(info, order, args[i..]))
    {
      ItemSpace(info.size, |args[i..]|);
      assert args[i..][1..] == args[i + 1..];
      ItemsStep(info, order, args[i..]);
      var bytes := ItemBytes(info, order, args[i]);
      if bytes == None {
        return false;
      }
      JoinMore(done, bytes.value, ItemsBytes(info, order, args[i + 1..]));
      WriteMore(before, buffer[..], pos, done, bytes.value);
      FieldExact(bytes.value);
      WriteString(buffer, p, info.size, bytes.value);
      p := p + info.size;
      done := done + bytes.value;
    }
    NoItems(info, order, args[|args|..], done);
    ok := true;
  }

  lemma WrittenOne(before: seq<Byte>, after: seq<Byte>, pos: nat, b: Byte)
    requires pos < |before| == |after| && after == before[pos := b]
    ensures WrittenAt(before, after, pos, [b])
  {}

  lemma NothingWritten(before: seq<Byte>, pos: nat)
    requires pos <= |before|
    ensures WrittenAt(before, before, pos, [])
  {}

  lemma FieldExact(data: seq<Byte>)
    ensures Field(data, |data|) == data
  {}

  lemma ItemsStep(info: Info, order: ByteOrder, args: seq<Arg>)
    requires IsItem(info.kind) && InfoOk(info) && args != []
    ensures var first, rest := ItemBytes(info, order, args[0]), ItemsBytes(info, order, args[1..]);
      ItemsBytes(info, order, args) == if first == None then None else Join(first.value, rest)
    ensures ItemBytes(info, order, args[0]).Some? ==> |ItemBytes(info, order, args[0]).value| == info.size
  {}

  lemma NoItems(info: Info, order: ByteOrder, args: seq<Arg>, done: seq<Byte>)
    requires IsItem(info.kind) && InfoOk(info) && args == []
    ensures Join(done, ItemsBytes(info, order, args)) == Some(done)
  {
    assert done + [] == done;
  }

  lemma ItemSpace(size: nat, n: nat)
    requires n > 0
    ensures size * n == size + size * (n - 1)
  {}

  ghost function Join(a: seq<Byte>, o: Option<seq<Byte>>): Option<seq<Byte>> {
    match o case None => None case Some(b) => Some(a + b)
  }

  lemma JoinNothing(o: Option<seq<Byte>>)
    ensures Join([], o) == o
  {
    match o case None => case Some(b) => assert [] + b == b;
  }

  lemma JoinMore(a: seq<Byte>, b: seq<Byte>, o: Option<seq<Byte>>)
    ensures Join(a, Join(b, o)) == Join(a + b, o)
  {
    match o case None => case Some(c) => assert a + (b + c) == (a + b) + c;
  }

  /** Writing right after what was written extends it. */
  lemma WriteMore(before: seq<Byte>, middle: seq<Byte>, pos: nat, done: seq<Byte>, bytes: seq<Byte>)
    requires pos + |done| + |bytes| <= |before| && WrittenAt(before, middle, pos, done)
    ensures forall after ::
      WrittenAt(middle, after, pos + |done|, bytes) ==> WrittenAt(before, after, pos, done + bytes)
  {
    assert middle[..pos + |done|] == before[..pos] + done;
    assert middle[pos + |done| + |bytes|..] == before[pos + |done + bytes|..];
    forall after | WrittenAt(middle, after, pos + |done|, bytes) ensures WrittenAt(before, after, pos, done + bytes) {
      assert before[..pos] + (done + bytes) == before[..pos] + done + bytes;
    }
  }

  /** `pack_into`: nothing outside the first Total(codes) bytes changes, and no slice is out of range. */
  method PackInto(codes: seq<Code>, order: ByteOrder, buffer: array<Byte>, args: seq<Arg>) returns (ok: bool)
    requires CodesOk(codes) && Total(codes) <= buffer.Length
    modifies buffer
    ensures ok <==> |args| == ArgSum(codes) && Packed(codes, order, args, old(buffer[..])).Some?
    ensures ok ==> buffer[..] == Packed(codes, order, args, old(buffer[..])).value + old(buffer[Total(codes)..])
  {
    hide PackInv, CodeBytes, Packed, CodeOk, ArgSum, Total, WrittenAt;
    if |args| != ArgSum(codes) {
      return false;
    }
    var pos: nat, next: nat := 0, 0;
    ghost var before := buffer[..];
    ghost var done: seq<Byte> := [];
    PackStart(codes, order, args, before);
    for i := 0 to |codes|
      invariant PackInv(codes, order, args, before, buffer[..], i, pos, next, done)
    {
      var c := codes[i];
      var n := c.ArgCount();
      PackReady(codes, order, args, before, buffer[..], i, pos, next, done);
      ghost var middle := buffer[..];
      var packed := PackCode(buffer, pos + c.padding, c, order, args[next..next + n]);
      if !packed {
        return false;
      }
      done := PackAdvance(codes, order, args, before, middle, buffer[..], i, pos, next, done);
      pos := pos + c.Extent();
      next := next + n;
    }
    PackEnd(codes, order, args, before, buffer[..], pos, next, done);
    ok := true;
  }

  /** Before code i: the first pos bytes are packed, and what remains decides the rest. */
  ghost predicate PackInv(codes: seq<Code>, order: ByteOrder, args: seq<Arg>, before: seq<Byte>, now: seq<Byte>,
    i: nat, pos: nat, next: nat, done: seq<Byte>)
  {
    && i <= |codes| && CodesOk(codes) && |args| == ArgSum(codes) && Total(codes) <= |before|
    && pos == |done| && pos + Total(codes[i..]) == Total(codes) && next + ArgSum(codes[i..]) == |args|
    && WrittenAt(before, now, 0, done)
    && Packed(codes, order, args, before) == Join(done, Packed(codes[i..], order, args[next..], before[pos..]))
  }

  lemma PackStart(codes: seq<Code>, order: ByteOrder, args: seq<Arg>, before: seq<Byte>)
    requires CodesOk(codes) && |args| == ArgSum(codes) && Total(codes) <= |before|
    ensures PackInv(codes, order, args, before, before, 0, 0, 0, [])
  {
    hide Packed, CodeOk, ArgSum, Total;
    NothingWritten(before, 0);
    JoinNothing(Packed(codes, order, args, before));
    assert codes[0..] == codes && args[0..] == args && before[0..] == before;
  }

  /** The code fits, and a code that does not pack makes the whole format fail. */
  lemma PackReady(codes: seq<Code>, order: ByteOrder, args: seq<Arg>, before: seq<Byte>, now: seq<Byte>,
    i: nat, pos: nat, next: nat, done: seq<Byte>)
    requires PackInv(codes, order, args, before, now, i, pos, next, done) && i < |codes|
    ensures var c := codes[i];
      && CodeOk(c) && next + c.ArgCount() <= |args| && |now| == |before|
      && pos + c.padding + c.info.size * c.repeat <= |before|
      && (CodeBytes(c, order, args[next..next + c.ArgCount()]) == None ==> Packed(codes, order, args, before) == None)
  {
    hide CodeBytes, Packed, CodeOk, ArgSum, Total;
    PackedStep(codes, i, order, args, next, before, pos, done);
  }

  lemma PackAdvance(codes: seq<Code>, order: ByteOrder, args: seq<Arg>,
                    before: seq<Byte>, now: seq<Byte>, after: seq<Byte>,
                    i: nat, pos: nat, next: nat, done: seq<Byte>)
      returns (done': seq<Byte>)
    requires PackInv(codes, order, args, before, now, i, pos, next, done) && i < |codes|
    requires var c := codes[i]; CodeOk(c) && next + c.ArgCount() <= |args|
    requires var bytes := CodeBytes(codes[i], order, args[next..next + codes[i].ArgCount()]);
      && bytes.Some? && pos + codes[i].padding + |bytes.value| <= |now|
      && WrittenAt(now, after, pos + codes[i].padding, bytes.value)
    ensures PackInv(codes, order, args, before, after, i + 1,
      pos + codes[i].Extent(), next + codes[i].ArgCount(), done')
  {
    hide CodeBytes, Packed, CodeOk, ArgSum, Total, WrittenAt;
    PackedStep(codes, i, order, args, next, before, pos, done);
    var c := codes[i];
    var padding, bytes := before[pos..pos + c.padding], CodeBytes(c, order, args[next..next + c.ArgCount()]).value;
    NothingChanged(before, now, done, padding);
    WriteMore(before, now, 0, done + padding, bytes);
    done' := done + padding + bytes;
  }

  lemma PackEnd(codes: seq<Code>, order: ByteOrder, args: seq<Arg>, before: seq<Byte>, now: seq<Byte>,
    pos: nat, next: nat, done: seq<Byte>)
    requires PackInv(codes, order, args, before, now, |codes|, pos, next, done)
    ensures Packed(codes, order, args, before) == Some(done) && |done| == Total(codes)
    ensures now == done + before[Total(codes)..]
  {
    hide Packed, CodeOk, Total;
    PackedEnd(codes[|codes|..], order, args[next..], before[pos..], done);
    PrefixWritten(before, now, done);
  }

  lemma PrefixWritten(before: seq<Byte>, after: seq<Byte>, done: seq<Byte>)
    requires |done| <= |before| && WrittenAt(before, after, 0, done)
    ensures after == done + before[|done|..]
  {}

  /** Padding is skipped: the buffer keeps what it holds there. */
  lemma NothingChanged(before: seq<Byte>, middle: seq<Byte>, done: seq<Byte>, padding: seq<Byte>)
    requires |done| + |padding| <= |before| && WrittenAt(before, middle, 0, done)
    requires padding == before[|done|..|done| + |padding|]
    ensures WrittenAt(before, middle, 0, done + padding)
  {}

  lemma PackedEnd(codes: seq<Code>, order: ByteOrder, args: seq<Arg>, oldBytes: seq<Byte>, done: seq<Byte>)
    requires codes == [] && |args| == ArgSum(codes)
    ensures Join(done, Packed(codes, order, args, oldBytes)) == Some(done)
    ensures Total(codes) == 0
  {
    assert done + [] == done;
  }

  lemma PackedStep(codes: seq<Code>, i: nat, order: ByteOrder, args: seq<Arg>, next: nat, oldBytes: seq<Byte>, pos: nat,
    done: seq<Byte>)
    requires CodesOk(codes) && i < |codes| && next <= |args| && pos <= |oldBytes|
    requires |args| == next + ArgSum(codes[i..]) && |oldBytes| >= pos + Total(codes[i..])
    ensures var c := codes[i];
      && CodeOk(c) && next + c.ArgCount() <= |args| && pos + c.Extent() <= |oldBytes|
      && Total(codes[i..]) == c.Extent() + Total(codes[i + 1..])
      && ArgSum(codes[i..]) == c.ArgCount() + ArgSum(codes[i + 1..])
      && var bytes := CodeBytes(c, order, args[next..next + c.ArgCount()]);
      var rest := Packed(codes[i + 1..], order, args[next + c.ArgCount()..], oldBytes[pos + c.Extent()..]);
      && (bytes.Some? ==> |bytes.value| == c.info.size * c.repeat)
      && Join(done, Packed(codes[i..], order, args[next..], oldBytes[pos..])) ==
        if bytes == None then None else Join(done + oldBytes[pos..pos + c.padding] + bytes.value, rest)
  {
    hide CodeBytes;
    var c, n := codes[i], codes[i].ArgCount();
    assert codes[i..][0] == c && codes[i..][1..] == codes[i + 1..];
    assert args[next..][..n] == args[next..next + n] && args[next..][n..] == args[next + n..];
    assert oldBytes[pos..][c.Extent()..] == oldBytes[pos + c.Extent()..];
    assert oldBytes[pos..][..c.padding] == oldBytes[pos..pos + c.padding];
    var bytes := CodeBytes(c, order, args[next..next + n]);
    if bytes.Some? {
      var head := oldBytes[pos..pos + c.padding] + bytes.value;
      JoinMore(done, head, Packed(codes[i + 1..], order, args[next + n..], oldBytes[pos + c.Extent()..]));
      assert done + head == done + oldBytes[pos..pos + c.padding] + bytes.value;
    }
  }

  /** `pack`: into a zeroed buffer of the format's size. */
  method Pack(codes: seq<Code>, size: nat, order: ByteOrder, args: seq<Arg>) returns (r: Option<seq<Byte>>)
    requires CodesOk(codes) && size == Total(codes)
    ensures r == if |args| == ArgSum(codes) then Packed(codes, order, args, Zeros(size)) else None
  {
    hide Packed, CodeOk;
    var buffer := new Byte[size](_ => 0);
    ghost var zeros := buffer[..];
    assert zeros == Zeros(size);
    var ok := PackInto(codes, order, buffer, args);
    if ok {
      assert zeros[Total(codes)..] == [];
      ghost var packed := Packed(codes, order, args, zeros).value;
      assert packed + [] == packed;
      r := Some(buffer[..]);
    } else {
      r := None;
    }
  }

  /** `unpack`: None when the buffer has the wrong length. */
  method Unpack(codes: seq<Code>, size: nat, order: ByteOrder, data: seq<Byte>) returns (r: Option<seq<Arg>>)
    requires CodesOk(codes) && size == Total(codes)
    ensures r == if |data| == size then Some(Unpacked(codes, order, data)) else None
  {
    hide UnpackInv, CodeArgs, Unpacked, CodeOk, Total;
    if size != |data| {
      return None;
    }
    var items: seq<Arg> := [];
    var pos: nat := 0;
    UnpackStart(codes, order, data);
    for i := 0 to |codes|
      invariant UnpackInv(codes, order, data, i, pos, items)
    {
      var c := codes[i];
      UnpackAdvance(codes, order, data, i, pos, items);
      items := items + CodeArgs(c, order, data[pos + c.padding..pos + c.Extent()]);
      pos := pos + c.Extent();
    }
    UnpackEnd(codes, order, data, pos, items);
    r := Some(items);
  }

  /** Before code i: the arguments of the codes so far, and what remains decides the rest. */
  ghost predicate UnpackInv(codes: seq<Code>, order: ByteOrder, data: seq<Byte>, i: nat, pos: nat, items: seq<Arg>) {
    && i <= |codes| && CodesOk(codes) && |data| == Total(codes) && pos + Total(codes[i..]) == |data|
    && Unpacked(codes, order, data) == items + Unpacked(codes[i..], order, data[pos..])
  }

  lemma UnpackStart(codes: seq<Code>, order: ByteOrder, data: seq<Byte>)
    requires CodesOk(codes) && |data| == Total(codes)
    ensures UnpackInv(codes, order, data, 0, 0, [])
  {
    hide Unpacked, Total, CodeOk;
    assert codes[0..] == codes && data[0..] == data;
    assert [] + Unpacked(codes, order, data) == Unpacked(codes, order, data);
  }

  lemma UnpackAdvance(codes: seq<Code>, order: ByteOrder, data: seq<Byte>, i: nat, pos: nat, items: seq<Arg>)
    requires UnpackInv(codes, order, data, i, pos, items) && i < |codes|
    ensures var c := codes[i];
      && CodeOk(c) && pos + c.Extent() <= |data| && c.Extent() - c.padding == c.info.size * c.repeat
      && UnpackInv(codes, order, data, i + 1, pos + c.Extent(),
                   items + CodeArgs(c, order, data[pos + c.padding..pos + c.Extent()]))
  {
    hide Unpacked, Total, CodeOk, CodeArgs;
    UnpackedStep(codes, i, order, data, pos);
    var c := codes[i];
    var args := CodeArgs(c, order, data[pos + c.padding..pos + c.Extent()]);
    var rest := Unpacked(codes[i + 1..], order, data[pos + c.Extent()..]);
    assert items + (args + rest) == items + args + rest;
  }

  lemma UnpackEnd(codes: seq<Code>, order: ByteOrder, data: seq<Byte>, pos: nat, items: seq<Arg>)
    requires UnpackInv(codes, order, data, |codes|, pos, items)
    ensures Unpacked(codes, order, data) == items
  {
    assert codes[|codes|..] == [];
    assert items + [] == items;
  }

  lemma UnpackedStep(codes: seq<Code>, i: nat, order: ByteOrder, data: seq<Byte>, pos: nat)
    requires CodesOk(codes) && i < |codes| && pos + Total(codes[i..]) == |data|
    ensures var c := codes[i];
      && CodeOk(c) && pos + c.Extent() <= |data| && c.Extent() - c.padding == c.info.size * c.repeat
      && Total(codes[i..]) == c.Extent() + Total(codes[i + 1..])
      && Unpacked(codes[i..], order, data[pos..]) ==
        CodeArgs(c, order, data[pos + c.padding..pos + c.Extent()])
        + Unpacked(codes[i + 1..], order, data[pos + c.Extent()..])
  {
    hide CodeArgs;
    var c := codes[i];
    assert codes[i..][0] == c && codes[i..][1..] == codes[i + 1..];
    assert data[pos..][c.padding..c.Extent()] == data[pos + c.padding..pos + c.Extent()];
    assert data[pos..][c.Extent()..] == data[pos + c.Extent()..];
  }

  // ---------- every accepted format ----------

  lemma {:induction false} ParsedCodesOk(codes: seq<Code>, offset: nat)
    requires Aligns(codes, offset)
    ensures CodesOk(codes)
  {
    if codes != [] {
      ParsedCodesOk(codes[1..], offset + codes[0].Extent());
      assert forall i | 1 <= i < |codes| :: codes[i] == codes[1..][i - 1];
    }
  }

  /** For every accepted format and all arguments that pack, unpacking the result of packing returns
      them, with strings cut or padded to their fields. */
  lemma FormatRoundTrip(s: string, order: ByteOrder, args: seq<Arg>)
    requires var (e, i) := ParseEndianness(s); ParseFrom(s, i, e, 0).Ok?
    ensures var (e, i) := ParseEndianness(s);
      var p := ParseFrom(s, i, e, 0);
      && CodesOk(p.codes) && p.size == Total(p.codes) && p.args == ArgSum(p.codes)
      && (|args| == p.args && Packed(p.codes, order, args, Zeros(p.size)).Some? ==>
            Unpacked(p.codes, order, Packed(p.codes, order, args, Zeros(p.size)).value) == NormalAll(p.codes, args))
  {
    var (e, i) := ParseEndianness(s);
    var p := ParseFrom(s, i, e, 0);
    ParseAccounts(s, i, e, 0);
    ParsedCodesOk(p.codes, 0);
    if |args| == p.args && Packed(p.codes, order, args, Zeros(p.size)).Some? {
      RoundTrip(p.codes, order, args, Zeros(p.size));
    }
  }

  // ---------- the bytes themselves ----------

  lemma DivDiv(n: int, p: nat)
    requires p > 0
    ensures n / (256 * p) == n / 256 / p
  {
    var q, r := n / 256 / p, n / 256 % p;
    assert n == 256 * (n / 256) + n % 256;
    assert n / 256 == p * q + r;
    assert 256 * (p * q) == (256 * p) * q;
    QuotientIs(n, 256 * p, q, 256 * r + n % 256);
  }

  lemma QuotientIs(n: int, d: nat, q: int, r: nat)
    requires n == d * q + r && r < d
    ensures n / d == q
  {
    if n / d > q { MulOrder(d, q + 1, n / d); }
    if n / d < q { MulOrder(d, n / d + 1, q); }
  }

  lemma MulOrder(d: nat, a: int, b: int)
    requires a <= b
    ensures d * a <= d * b
  {}

  /** The power of 256 that byte k of a number stands for. */
  function Weight(size: nat, order: ByteOrder, k: nat): nat
    requires k < size
  {
    if order == LittleEndian then k else size - 1 - k
  }

  lemma {:induction false} EncodedDigit(n: nat, size: nat, order: ByteOrder, k: nat)
    requires k < size
    ensures Encode(n, size, order)[k] == (n / Power256(Weight(size, order, k))) % 256
  {
    hide Encode, Power256;
    var w := Weight(size, order, k);
    if w == 0 {
      LowestByte(n, size, order, k);
    } else {
      var k' := if order == LittleEndian then k - 1 else k;
      HigherByte(n, size, order, k);
      EncodedDigit(n / 256, size - 1, order, k');
      DigitUp(n, w);
    }
  }

  lemma LowestByte(n: nat, size: nat, order: ByteOrder, k: nat)
    requires k < size && Weight(size, order, k) == 0
    ensures Encode(n, size, order)[k] == n % 256 && Power256(0) == 1 && n / Power256(0) == n
  {}

  lemma HigherByte(n: nat, size: nat, order: ByteOrder, k: nat)
    requires k < size && Weight(size, order, k) > 0
    ensures var k' := if order == LittleEndian then k - 1 else k;
      && Weight(size - 1, order, k') == Weight(size, order, k) - 1
      && Encode(n, size, order)[k] == Encode(n / 256, size - 1, order)[k']
  {}

  lemma DigitUp(n: nat, w: nat)
    requires w > 0
    ensures n / Power256(w) == n / 256 / Power256(w - 1)
  {
    DivDiv(n, Power256(w - 1));
  }

  lemma {:induction false} Power256Splits(w: nat, size: nat)
    requires w < size
    ensures Power256(size) == Power256(w) * (256 * Power256(size - 1 - w))
  {
    if w > 0 {
      Power256Splits(w - 1, size - 1);
      MulThrice(256, Power256(w - 1), 256 * Power256(size - 1 - w));
    }
  }

  lemma MulThrice(a: nat, b: nat, c: nat)
    ensures a * (b * c) == (a * b) * c
  {}

  /** Adding the whole range to a negative number changes none of the bytes. */
  lemma WrapsAround(i: int, size: nat, w: nat)
    requires w < size
    ensures ((i + Power256(size)) / Power256(w)) % 256 == (i / Power256(w)) % 256
  {
    hide Power256;
    Power256Splits(w, size);
    WholeTurns(i, Power256(w), Power256(size - 1 - w));
  }

  lemma WholeTurns(i: int, p: nat, m: nat)
    requires p > 0
    ensures ((i + p * (256 * m)) / p) % 256 == (i / p) % 256
  {
    var q := i / p;
    QuotientAdds(i, p, 256 * m);
    QuotientMod(q, m);
  }

  lemma QuotientAdds(i: int, p: nat, c: nat)
    requires p > 0
    ensures (i + p * c) / p == i / p + c
  {
    var q, r := i / p, i % p;
    assert i == p * q + r;
    assert p * (q + c) == p * q + p * c;
    QuotientIs(i + p * c, p, q + c, r);
  }

  lemma QuotientMod(q: int, m: int)
    ensures (q + 256 * m) % 256 == q % 256
  {}

  /** Each byte of a packed integer is a digit of the number itself, in base 256 and by its weight; for
      a negative number, whose digits never end, this is its two's complement. */
  lemma IntegerBytes(i: int, kind: Kind, size: nat, order: ByteOrder, k: nat)
    requires k < size && (kind == Signed || kind == Unsigned) && InRange(i, kind, size)
    ensures Encode(ToUnsigned(i, size), size, order)[k] == (i / Power256(Weight(size, order, k))) % 256
  {
    EncodedDigit(ToUnsigned(i, size), size, order, k);
    if i < 0 { WrapsAround(i, size, Weight(size, order, k)); }
  }

  /** Which integers fit. */
  lemma RangesAre(i: int)
    ensures InRange(i, Signed, 1) <==> -0x80 <= i < 0x80
    ensures InRange(i, Unsigned, 1) <==> 0 <= i < 0x100
    ensures InRange(i, Signed, 2) <==> -0x8000 <= i < 0x8000
    ensures InRange(i, Unsigned, 2) <==> 0 <= i < 0x1_0000
    ensures InRange(i, Signed, 4) <==> -0x8000_0000 <= i < 0x8000_0000
    ensures InRange(i, Unsigned, 4) <==> 0 <= i < 0x1_0000_0000
    ensures InRange(i, Signed, 8) <==> -0x8000_0000_0000_0000 <= i < 0x8000_0000_0000_0000
    ensures InRange(i, Unsigned, 8) <==> 0 <= i < 0x1_0000_0000_0000_0000
  {
    assert Power256(1) == 0x100 && Power256(2) == 0x1_0000;
    assert Power256(4) == 0x1_0000 * Power256(2) && Power256(8) == 0x1_0000_0000 * Power256(4);
  }

  /** Which arguments pack as one item, and to which bytes. */
  ghost predicate PacksAs(info: Info, order: ByteOrder, arg: Arg, bytes: seq<Byte>)
    requires InfoOk(info)
  {
    && |bytes| == info.size
    && match info.kind
       case Char => arg == Bytes(bytes)
       case Bool => arg.Boolean? && bytes[0] == if arg.b then 1 else 0
       case Float =>
         && arg.Bits? && arg.bits < Power256(info.size)
         && forall k | 0 <= k < info.size :: bytes[k] == (arg.bits / Power256(Weight(info.size, order, k))) % 256
       case _ =>
         && arg.Int? && InRange(arg.i, info.kind, info.size)
         && forall k | 0 <= k < info.size :: bytes[k] == (arg.i / Power256(Weight(info.size, order, k))) % 256
  }

  lemma ItemBytesAre(info: Info, order: ByteOrder, arg: Arg)
    requires IsItem(info.kind) && InfoOk(info)
    ensures match ItemBytes(info, order, arg)
      case Some(bytes) => PacksAs(info, order, arg, bytes)
      case None => forall bytes :: !PacksAs(info, order, arg, bytes)
  {
    hide Encode, Power256;
    if info.kind == Float && arg.Bits? && arg.bits < Power256(info.size) {
      forall k | 0 <= k < info.size
        ensures Encode(arg.bits, info.size, order)[k] == (arg.bits / Power256(Weight(info.size, order, k))) % 256
      {
        EncodedDigit(arg.bits, info.size, order, k);
      }
    }
    if (info.kind == Signed || info.kind == Unsigned) && arg.Int? && InRange(arg.i, info.kind, info.size) {
      forall k | 0 <= k < info.size
        ensures Encode(ToUnsigned(arg.i, info.size), info.size, order)[k] ==
          (arg.i / Power256(Weight(info.size, order, k))) % 256
      {
        IntegerBytes(arg.i, info.kind, info.size, order, k);
      }
    }
  }

  /** The bytes of several items one after the other. */
  ghost predicate PackAllAs(info: Info, order: ByteOrder, args: seq<Arg>, bytes: seq<Byte>)
    requires InfoOk(info)
  {
    if args == [] then bytes == []
    else
      && |bytes| >= info.size
      && PacksAs(info, order, args[0], bytes[..info.size])
      && PackAllAs(info, order, args[1..], bytes[info.size..])
  }

  lemma {:induction false} ItemsBytesAre(info: Info, order: ByteOrder, args: seq<Arg>)
    requires IsItem(info.kind) && InfoOk(info)
    ensures match ItemsBytes(info, order, args)
      case Some(bytes) => PackAllAs(info, order, args, bytes)
      case None => forall bytes :: !PackAllAs(info, order, args, bytes)
  {
    hide ItemBytes, PacksAs;
    if args != [] {
      ItemBytesAre(info, order, args[0]);
      ItemsBytesAre(info, order, args[1..]);
      var first, rest := ItemBytes(info, order, args[0]), ItemsBytes(info, order, args[1..]);
      if first.Some? && rest.Some? {
        assert (first.value + rest.value)[..info.size] == first.value;
        assert (first.value + rest.value)[info.size..] == rest.value;
      }
    }
  }

  /** The bytes of a field: the data, cut to the field, and zeros behind it. */
  ghost predicate FilledWith(bytes: seq<Byte>, data: seq<Byte>) {
    forall k | 0 <= k < |bytes| :: bytes[k] == if k < |data| then data[k] else 0
  }

  /** The length byte of a Pascal field: the longest that the data, a byte and the field allow. */
  ghost predicate IsPascalLength(length: nat, data: seq<Byte>, repeat: nat) {
    && length <= |data| && length <= 255 && length < repeat
    && (length == |data| || length == 255 || length + 1 == repeat)
  }

  /** Which arguments pack as a code, and to which bytes. */
  ghost predicate CodePacksAs(c: Code, order: ByteOrder, args: seq<Arg>, bytes: seq<Byte>)
    requires CodeOk(c) && |args| == c.ArgCount()
  {
    && |bytes| == c.info.size * c.repeat
    && match c.info.kind
       case Pad => FilledWith(bytes, [])
       case Str => args[0].Bytes? && FilledWith(bytes, args[0].data)
       case Pascal => c.repeat > 0 ==>
         args[0].Bytes? && IsPascalLength(bytes[0], args[0].data, c.repeat) && FilledWith(bytes[1..], args[0].data)
       case _ => PackAllAs(c.info, order, args, bytes)
  }

  lemma CodeBytesAre(c: Code, order: ByteOrder, args: seq<Arg>)
    requires CodeOk(c) && |args| == c.ArgCount()
    ensures match CodeBytes(c, order, args)
      case Some(bytes) => CodePacksAs(c, order, args, bytes)
      case None => forall bytes :: !CodePacksAs(c, order, args, bytes)
  {
    hide ItemsBytes, PackAllAs;
    if IsItem(c.info.kind) {
      ItemsBytesAre(c.info, order, args);
    } else if c.info.kind == Pascal && c.repeat > 0 && args[0].Bytes? {
      var bytes := [PascalLength(args[0].data, c.repeat)] + Field(args[0].data, c.repeat - 1);
      assert bytes[1..] == Field(args[0].data, c.repeat - 1);
    }
  }

  /** The bytes of a format: in front of each code as much as its alignment asks for, which keeps what
      the buffer held, and then the bytes of the code. */
  ghost predicate PacksTo(codes: seq<Code>, order: ByteOrder, args: seq<Arg>, before: seq<Byte>, bytes: seq<Byte>)
    requires CodesOk(codes)
  {
    if codes == [] then args == [] && bytes == []
    else
      var c := codes[0];
      && c.ArgCount() <= |args| && c.padding + c.info.size * c.repeat <= |bytes| <= |before|
      && bytes[..c.padding] == before[..c.padding]
      && CodePacksAs(c, order, args[..c.ArgCount()], bytes[c.padding..c.Extent()])
      && PacksTo(codes[1..], order, args[c.ArgCount()..], before[c.Extent()..], bytes[c.Extent()..])
  }

  /** The result for these arguments, if they are as many as the codes take. */
  ghost function Result(codes: seq<Code>, order: ByteOrder, args: seq<Arg>, before: seq<Byte>): Option<seq<Byte>>
    requires CodesOk(codes) && |before| >= Total(codes)
  {
    if |args| == ArgSum(codes) then Packed(codes, order, args, before) else None
  }

  lemma {:induction false} PackedBytes(codes: seq<Code>, order: ByteOrder, args: seq<Arg>, before: seq<Byte>)
    requires CodesOk(codes) && |before| >= Total(codes)
    ensures match Result(codes, order, args, before)
      case Some(bytes) => PacksTo(codes, order, args, before, bytes)
      case None => forall bytes :: !PacksTo(codes, order, args, before, bytes)
  {
    hide CodeBytes, CodePacksAs, CodeOk, Result, Total, Packed, ArgSum;
    if codes == [] {
      NoCodes(order, args, before);
    } else {
      var c := codes[0];
      PackedJoins(codes, order, args, before);
      if c.ArgCount() <= |args| {
        CodeBytesAre(c, order, args[..c.ArgCount()]);
        PackedBytes(codes[1..], order, args[c.ArgCount()..], before[c.Extent()..]);
      }
    }
  }

  lemma NoCodes(order: ByteOrder, args: seq<Arg>, before: seq<Byte>)
    ensures Result([], order, args, before) == if args == [] then Some([]) else None
  {}

  /** The result is the padding, the bytes of the first code and the result of the others. */
  lemma PackedJoins(codes: seq<Code>, order: ByteOrder, args: seq<Arg>, before: seq<Byte>)
    requires CodesOk(codes) && codes != [] && |before| >= Total(codes)
    ensures var c := codes[0];
      && Total(codes) == c.Extent() + Total(codes[1..]) && c.Extent() == c.padding + c.info.size * c.repeat
      && if |args| < c.ArgCount() then Result(codes, order, args, before) == None
         else
           var bytes := CodeBytes(c, order, args[..c.ArgCount()]);
           var rest := Result(codes[1..], order, args[c.ArgCount()..], before[c.Extent()..]);
           match Result(codes, order, args, before)
           case None => bytes == None || rest == None
           case Some(all) =>
             && c.Extent() <= |all| <= |before| && all[..c.padding] == before[..c.padding]
             && bytes == Some(all[c.padding..c.Extent()]) && rest == Some(all[c.Extent()..])
  {
    hide CodeBytes;
    var c := codes[0];
    if |args| == ArgSum(codes) && Packed(codes, order, args, before).Some? {
      var bytes := CodeBytes(c, order, args[..c.ArgCount()]).value;
      var rest := Packed(codes[1..], order, args[c.ArgCount()..], before[c.Extent()..]).value;
      var all := before[..c.padding] + bytes + rest;
      assert all[..c.padding] == before[..c.padding];
      assert all[c.padding..c.Extent()] == bytes && all[c.Extent()..] == rest;
    }
  }

  // ---------- what bytes unpack to ----------

  lemma {:induction false} EncodeDecode(data: seq<Byte>, order: ByteOrder)
    ensures Decode(data, order) < Power256(|data|) && Encode(Decode(data, order), |data|, order) == data
  {
    if data != [] {
      hide Power256;
      var n := |data| - 1;
      if order == LittleEndian {
        EncodeDecode(data[1..], order);
        LowByte(data[0], Decode(data[1..], order), n);
        assert data == [data[0]] + data[1..];
      } else {
        EncodeDecode(data[..n], order);
        LowByte(data[n], Decode(data[..n], order), n);
        assert data == data[..n] + [data[n]];
      }
    } else {
      assert Power256(0) == 1;
    }
  }

  lemma LowByte(b: Byte, m: nat, n: nat)
    requires m < Power256(n)
    ensures (b + 256 * m) % 256 == b && (b + 256 * m) / 256 == m && b + 256 * m < Power256(n + 1)
    ensures b + 256 * m == m * 256 + b
  {}

  lemma SignedRange(n: nat, kind: Kind, size: nat)
    requires size > 0 && n < Power256(size) && (kind == Signed || kind == Unsigned)
    ensures InRange(FromUnsigned(n, kind, size), kind, size)
    ensures ToUnsigned(FromUnsigned(n, kind, size), size) == n
  {
    hide Power256;
    HalfRange(size);
  }

  lemma HalfRange(size: nat)
    requires size > 0
    ensures Power256(size) == 2 * (Power256(size) / 2)
  {
    assert Power256(size) == 2 * (128 * Power256(size - 1));
  }

  /** Each item unpacks to the one argument that packs to its bytes; a truth value is true for every
      byte but 0. */
  lemma ItemArgIs(info: Info, order: ByteOrder, data: seq<Byte>)
    requires IsItem(info.kind) && InfoOk(info) && |data| == info.size
    ensures info.kind != Bool ==> PacksAs(info, order, ItemArg(info, order, data), data)
    ensures info.kind == Bool ==> ItemArg(info, order, data) == Boolean(data != [0])
  {
    hide Encode, Decode, Power256;
    EncodeDecode(data, order);
    if info.kind == Float {
      forall k | 0 <= k < info.size
        ensures data[k] == (Decode(data, order) / Power256(Weight(info.size, order, k))) % 256
      {
        EncodedDigit(Decode(data, order), info.size, order, k);
      }
    } else if info.kind == Signed || info.kind == Unsigned {
      SignedRange(Decode(data, order), info.kind, info.size);
      var i := FromUnsigned(Decode(data, order), info.kind, info.size);
      forall k | 0 <= k < info.size ensures data[k] == (i / Power256(Weight(info.size, order, k))) % 256 {
        IntegerBytes(i, info.kind, info.size, order, k);
      }
    }
  }

  /** The argument of an item with these bytes. */
  ghost predicate UnpacksAs(info: Info, order: ByteOrder, data: seq<Byte>, arg: Arg)
    requires InfoOk(info)
  {
    if info.kind == Bool then arg == Boolean(data != [0]) else PacksAs(info, order, arg, data)
  }

  ghost predicate UnpackAllAs(info: Info, order: ByteOrder, data: seq<Byte>, args: seq<Arg>)
    requires InfoOk(info)
  {
    if args == [] then data == []
    else
      && |data| >= info.size
      && UnpacksAs(info, order, data[..info.size], args[0])
      && UnpackAllAs(info, order, data[info.size..], args[1..])
  }

  lemma {:induction false} ItemArgsAre(info: Info, order: ByteOrder, data: seq<Byte>, n: nat)
    requires IsItem(info.kind) && InfoOk(info) && |data| == info.size * n
    ensures UnpackAllAs(info, order, data, ItemArgs(info, order, data, n))
    decreases n
  {
    if n > 0 {
      hide UnpacksAs, ItemArg, InfoOk;
      assert info.size * n == info.size + info.size * (n - 1) by { ItemSpace(info.size, n); }
      UnpackedItem(info, order, data[..info.size]);
      ItemArgsAre(info, order, data[info.size..], n - 1);
      var args := ItemArgs(info, order, data, n);
      assert args[1..] == ItemArgs(info, order, data[info.size..], n - 1);
    }
  }

  lemma UnpackedItem(info: Info, order: ByteOrder, data: seq<Byte>)
    requires IsItem(info.kind) && InfoOk(info) && |data| == info.size
    ensures UnpacksAs(info, order, data, ItemArg(info, order, data))
  {
    ItemArgIs(info, order, data);
  }

  /** What a code unpacks to: nothing for pad bytes, all bytes of a string field, the stated length of a
      Pascal field as far as it has that many bytes, and the items. */
  ghost predicate CodeUnpacksAs(c: Code, order: ByteOrder, data: seq<Byte>, args: seq<Arg>)
    requires CodeOk(c)
  {
    match c.info.kind
    case Pad => args == []
    case Str => args == [Bytes(data)]
    case Pascal =>
      |args| == 1 && args[0].Bytes? &&
      if data == [] then args[0].data == []
      else args[0].data == data[1..][..if data[0] < |data| then data[0] else |data| - 1]
    case _ => |args| == c.repeat && UnpackAllAs(c.info, order, data, args)
  }

  lemma CodeArgsAre(c: Code, order: ByteOrder, data: seq<Byte>)
    requires CodeOk(c) && |data| == c.info.size * c.repeat
    ensures CodeUnpacksAs(c, order, data, CodeArgs(c, order, data))
  {
    hide UnpackAllAs, ItemArgs;
    if IsItem(c.info.kind) { ItemArgsAre(c.info, order, data, c.repeat); }
  }

  ghost predicate UnpacksTo(codes: seq<Code>, order: ByteOrder, data: seq<Byte>, args: seq<Arg>)
    requires CodesOk(codes)
  {
    if codes == [] then data == [] && args == []
    else
      var c := codes[0];
      && c.padding + c.info.size * c.repeat <= |data| && c.ArgCount() <= |args|
      && CodeUnpacksAs(c, order, data[c.padding..c.Extent()], args[..c.ArgCount()])
      && UnpacksTo(codes[1..], order, data[c.Extent()..], args[c.ArgCount()..])
  }

  lemma {:induction false} UnpackedArgs(codes: seq<Code>, order: ByteOrder, data: seq<Byte>)
    requires CodesOk(codes) && |data| == Total(codes)
    ensures UnpacksTo(codes, order, data, Unpacked(codes, order, data))
  {
    hide CodeArgs, CodeUnpacksAs, CodeOk;
    if codes != [] {
      var c := codes[0];
      CodeArgsAre(c, order, data[c.padding..c.Extent()]);
      UnpackedArgs(codes[1..], order, data[c.Extent()..]);
      var first := CodeArgs(c, order, data[c.padding..c.Extent()]);
      var rest := Unpacked(codes[1..], order, data[c.Extent()..]);
      assert (first + rest)[..c.ArgCount()] == first && (first + rest)[c.ArgCount()..] == rest;
    }
  }

  // ---------- a format text and its arguments ----------

  /** The byte order that a mark selects; the host's own for `@`, `=` and no mark. */
  function OrderOf(e: Endianness, host: ByteOrder): ByteOrder {
    match e case Little => LittleEndian case Big => BigEndian case _ => host
  }

  /** `struct.pack`: the bytes of the arguments, with zeros for alignment; None where it raises. */
  method PackFormat(fmt: string, host: ByteOrder, args: seq<Arg>) returns (r: Option<seq<Byte>>)
    ensures var (e, i) := ParseEndianness(fmt);
      var p := ParseFrom(fmt, i, e, 0);
      if p.Err? then r == None
      else
        && CodesOk(p.codes)
        && forall before: seq<Byte> | |before| == p.size && (forall k | 0 <= k < p.size :: before[k] == 0) ::
             if r.Some? then |r.value| == p.size && PacksTo(p.codes, OrderOf(e, host), args, before, r.value)
             else forall bytes :: !PacksTo(p.codes, OrderOf(e, host), args, before, bytes)
  {
    hide Packed, PacksTo, CodesOk, ParseFrom, Total, Zeros;
    var (e, i) := ParseEndianness(fmt);
    var parsed := Parse(fmt, i, e);
    if parsed.Err? {
      return None;
    }
    ParseAccounts(fmt, i, e, 0);
    ParsedCodesOk(parsed.codes, 0);
    r := Pack(parsed.codes, parsed.size, OrderOf(e, host), args);
    PackedBytes(parsed.codes, OrderOf(e, host), args, Zeros(parsed.size));
    OnlyZeros(parsed.size);
  }

  lemma OnlyZeros(n: nat)
    ensures forall s: seq<Byte> | |s| == n && (forall k | 0 <= k < n :: s[k] == 0) :: s == Zeros(n)
  {}

  /** `struct.unpack`: None where it raises. */
  method UnpackFormat(fmt: string, host: ByteOrder, data: seq<Byte>) returns (r: Option<seq<Arg>>)
    ensures var (e, i) := ParseEndianness(fmt);
      var p := ParseFrom(fmt, i, e, 0);
      && (r.Some? <==> p.Ok? && |data| == p.size)
      && (r.Some? ==> CodesOk(p.codes) && UnpacksTo(p.codes, OrderOf(e, host), data, r.value))
  {
    hide Unpacked, UnpacksTo, CodesOk, ParseFrom, Total;
    var (e, i) := ParseEndianness(fmt);
    var parsed := Parse(fmt, i, e);
    if parsed.Err? {
      return None;
    }
    ParseAccounts(fmt, i, e, 0);
    ParsedCodesOk(parsed.codes, 0);
    r := Unpack(parsed.codes, parsed.size, OrderOf(e, host), data);
    if r.Some? { UnpackedArgs(parsed.codes, OrderOf(e, host), data); }
  }
}
