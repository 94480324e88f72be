/** bytes.replace of bytes_inner.rs: four specialised routines and the one simple rule they compute. */
module BytesReplace {
  import opened Wrappers

  type Bytes = seq<Byte>

  const ISIZE_MAX: nat := 0x7FFF_FFFF_FFFF_FFFF
  const USIZE_MAX: nat := 0xFFFF_FFFF_FFFF_FFFF

  /** Overflow is the exception raised by the length guard; Panics stands for a vector that would have
      to hold more than isize::MAX bytes, which no vector does. */
  datatype Result = Ok(value: Bytes) | Overflow | Panics

  // ---------- the rule ----------

  /** Left to right, at most `left` replacements; the empty pattern matches in front of every byte
      and at the end. */
  function Replaced(s: Bytes, from: Bytes, to: Bytes, left: nat): Bytes {
    if left == 0 then s
    else if from <= s then
      if from != [] then to + Replaced(s[|from|..], from, to, left - 1)
      else if s == [] then to
      else to + [s[0]] + Replaced(s[1..], from, to, left - 1)
    else if s == [] then []
    else [s[0]] + Replaced(s[1..], from, to, left)
  }

  /** No limit is a limit that no string reaches. */
  function Limit(s: Bytes, max: Option<nat>): nat {
    if max.Some? then max.value else |s| + 1
  }

  // ---------- the search ----------

  /** What `find_iter` yields for a non-empty pattern: leftmost non-overlapping offsets. */
  function Occurrences(s: Bytes, from: Bytes, i: nat): (offsets: seq<nat>)
    requires from != [] && i <= |s|
    ensures Spaced(offsets, |from|, i, |s|)
    decreases |s| - i
  {
    if i + |from| > |s| then []
    else if s[i..i + |from|] == from then [i] + Occurrences(s, from, i + |from|)
    else Occurrences(s, from, i + 1)
  }

  /** Increasing offsets at least n apart, from `low` on, that leave room before `high`. */
  predicate Spaced(offsets: seq<nat>, n: nat, low: nat, high: nat) {
    offsets == [] || (low <= offsets[0] && offsets[0] + n <= high && Spaced(offsets[1..], n, offsets[0] + n, high))
  }

  lemma OccurrencesStep(s: Bytes, from: Bytes, i: nat)
    requires from != [] && i + |from| <= |s|
    ensures Occurrences(s, from, i) ==
      if s[i..i + |from|] == from then [i] + Occurrences(s, from, i + |from|) else Occurrences(s, from, i + 1)
  {}

  /** Every match is one of the offsets or overlaps an earlier one: none is missed. */
  lemma {:induction false} OccurrencesAreAll(s: Bytes, from: Bytes, i: nat, j: nat) returns (o: nat)
    requires from != [] && i <= j && j + |from| <= |s| && s[j..j + |from|] == from
    ensures o in Occurrences(s, from, i) && o <= j < o + |from| && s[o..o + |from|] == from
    decreases |s| - i
  {
    hide Spaced, Occurrences;
    OccurrencesStep(s, from, i);
    if s[i..i + |from|] == from {
      if j >= i + |from| {
        o := OccurrencesAreAll(s, from, i + |from|, j);
      } else {
        o := i;
      }
    } else {
      o := OccurrencesAreAll(s, from, i + 1, j);
    }
  }

  /** s from position `last` on, with the pattern at each offset replaced. */
  function Splice(s: Bytes, offsets: seq<nat>, n: nat, to: Bytes, last: nat): Bytes
    requires Spaced(offsets, n, last, |s|) && last <= |s|
  {
    if offsets == [] then s[last..]
    else s[last..offsets[0]] + to + Splice(s, offsets[1..], n, to, offsets[0] + n)
  }

  lemma SpliceOneMore(s: Bytes, offsets: seq<nat>, n: nat, to: Bytes, last: nat)
    requires last < |s| && Spaced(offsets, n, last + 1, |s|)
    ensures Spaced(offsets, n, last, |s|)
    ensures Splice(s, offsets, n, to, last) == [s[last]] + Splice(s, offsets, n, to, last + 1)
  {
    if offsets != [] {
      hide Splice, Spaced;
      SpacedHead(offsets, n, last + 1, |s|);
      SpacedCons(offsets, n, last, |s|);
      SpliceCons(s, offsets, n, to, last);
      SpliceCons(s, offsets, n, to, last + 1);
      Associate([s[last]], s[last + 1..offsets[0]], to, Splice(s, offsets[1..], n, to, offsets[0] + n));
      assert s[last..offsets[0]] == [s[last]] + s[last + 1..offsets[0]];
    } else {
      assert s[last..] == [s[last]] + s[last + 1..];
    }
  }

  lemma {:induction false} SpacedPrefix(offsets: seq<nat>, k: nat, n: nat, low: nat, high: nat)
    requires Spaced(offsets, n, low, high) && k <= |offsets|
    ensures Spaced(offsets[..k], n, low, high)
  {
    if k > 0 {
      assert offsets[..k][1..] == offsets[1..][..k - 1];
      SpacedPrefix(offsets[1..], k - 1, n, offsets[0] + n, high);
    }
  }

  /** The first `left` occurrences from position i on. */
  function Chosen(s: Bytes, from: Bytes, i: nat, left: nat): (offsets: seq<nat>)
    requires from != [] && i <= |s|
    ensures Spaced(offsets, |from|, i, |s|)
  {
    var all := Occurrences(s, from, i);
    SpacedPrefix(all, Min(left, |all|), |from|, i, |s|);
    all[..Min(left, |all|)]
  }

  /** Splicing at the chosen occurrences is the rule. */
  lemma {:induction false} SpliceIsReplaced(s: Bytes, from: Bytes, to: Bytes, i: nat, left: nat)
    requires from != [] && i <= |s|
    ensures Splice(s, Chosen(s, from, i, left), |from|, to, i) == Replaced(s[i..], from, to, left)
    decreases |s| - i
  {
    hide Replaced, Splice, Occurrences, Spaced, Chosen;
    var chosen := Chosen(s, from, i, left);
    if left == 0 || i + |from| > |s| {
      NoneChosen(s, from, to, i, left);
    } else if s[i..i + |from|] == from {
      ChosenMatch(s, from, to, i, left);
      SpliceIsReplaced(s, from, to, i + |from|, left - 1);
    } else {
      ChosenMiss(s, from, to, i, left);
      SpliceIsReplaced(s, from, to, i + 1, left);
      SpliceOneMore(s, chosen, |from|, to, i);
    }
  }

  lemma NoneChosen(s: Bytes, from: Bytes, to: Bytes, i: nat, left: nat)
    requires from != [] && i <= |s| && (left == 0 || i + |from| > |s|)
    ensures Splice(s, Chosen(s, from, i, left), |from|, to, i) == Replaced(s[i..], from, to, left)
  {
    if left > 0 { NoRoom(s[i..], from, to, left); }
  }

  lemma ChosenMatch(s: Bytes, from: Bytes, to: Bytes, i: nat, left: nat)
    requires from != [] && i + |from| <= |s| && left > 0 && s[i..i + |from|] == from
    ensures Splice(s, Chosen(s, from, i, left), |from|, to, i) ==
      to + Splice(s, Chosen(s, from, i + |from|, left - 1), |from|, to, i + |from|)
    ensures Replaced(s[i..], from, to, left) == to + Replaced(s[i + |from|..], from, to, left - 1)
  {
    hide Splice, Chosen, Replaced, Spaced;
    ReplacedMatch(s, from, to, i, left);
    ChosenCons(s, from, i, left);
    var rest := Chosen(s, from, i + |from|, left - 1);
    assert ([i] + rest)[1..] == rest;
    SpliceCons(s, [i] + rest, |from|, to, i);
    assert s[i..i] + to == to;
  }

  lemma ReplacedMatch(s: Bytes, from: Bytes, to: Bytes, i: nat, left: nat)
    requires from != [] && i + |from| <= |s| && left > 0 && s[i..i + |from|] == from
    ensures Replaced(s[i..], from, to, left) == to + Replaced(s[i + |from|..], from, to, left - 1)
  {
    assert s[i..][..|from|] == s[i..i + |from|];
    assert s[i..][|from|..] == s[i + |from|..];
  }

  lemma ChosenCons(s: Bytes, from: Bytes, i: nat, left: nat)
    requires from != [] && i + |from| <= |s| && left > 0 && s[i..i + |from|] == from
    ensures Chosen(s, from, i, left) == [i] + Chosen(s, from, i + |from|, left - 1)
  {
    hide Spaced;
    var all, rest := Occurrences(s, from, i), Occurrences(s, from, i + |from|);
    assert all == [i] + rest;
    assert all[..Min(left, |all|)] == [i] + rest[..Min(left - 1, |rest|)];
  }

  lemma ChosenMiss(s: Bytes, from: Bytes, to: Bytes, i: nat, left: nat)
    requires from != [] && i + |from| <= |s| && left > 0 && s[i..i + |from|] != from
    ensures Chosen(s, from, i, left) == Chosen(s, from, i + 1, left)
    ensures Replaced(s[i..], from, to, left) == [s[i]] + Replaced(s[i + 1..], from, to, left)
  {
    assert s[i..][..|from|] == s[i..i + |from|];
    assert s[i..][1..] == s[i + 1..];
  }

  lemma {:induction false} NoRoom(s: Bytes, from: Bytes, to: Bytes, left: nat)
    requires |from| > |s|
    ensures Replaced(s, from, to, left) == s
  {
    if s != [] && left > 0 { NoRoom(s[1..], from, to, left); }
  }

  lemma {:induction false} SpliceLength(s: Bytes, offsets: seq<nat>, n: nat, to: Bytes, last: nat)
    requires last <= |s| && Spaced(offsets, n, last, |s|)
    ensures |Splice(s, offsets, n, to, last)| == |s| - last + |offsets| * (|to| - n)
  {
    if offsets != [] {
      SpliceLength(s, offsets[1..], n, to, offsets[0] + n);
      MulStep(|offsets|, |to| - n);
    }
  }

  lemma MulStep(k: nat, d: int)
    requires k > 0
    ensures k * d == d + (k - 1) * d
  {}

  /** The replacements that the rule makes. */
  function Count(s: Bytes, from: Bytes, left: nat): nat {
    if from == [] then Min(left, |s| + 1) else |Chosen(s, from, 0, left)|
  }

  /** The result has exactly the length the arithmetic says. */
  lemma ReplacedLength(s: Bytes, from: Bytes, to: Bytes, left: nat)
    ensures |Replaced(s, from, to, left)| == |s| + Count(s, from, left) * (|to| - |from|)
  {
    if from == [] {
      InterleavedLength(s, to, left);
    } else {
      SpliceIsReplaced(s, from, to, 0, left);
      assert s[0..] == s;
      SpliceLength(s, Chosen(s, from, 0, left), |from|, to, 0);
    }
  }

  lemma {:induction false} InterleavedLength(s: Bytes, to: Bytes, left: nat)
    ensures |Replaced(s, [], to, left)| == |s| + Min(left, |s| + 1) * |to|
  {
    if left > 0 && s != [] {
      InterleavedLength(s[1..], to, left - 1);
      MulStep(Min(left, |s| + 1), |to|);
    }
  }

  // ---------- the routines ----------

  /** `count_substring`. */
  function CountSubstring(s: Bytes, from: Bytes, max: Option<nat>): nat
    requires from != []
  {
    var n := |Occurrences(s, from, 0)|;
    if max.Some? then Min(n, max.value) else n
  }

  lemma {:induction false} SpacedCount(offsets: seq<nat>, n: nat, low: nat, high: nat)
    requires n > 0 && Spaced(offsets, n, low, high) && low <= high
    ensures |offsets| * n <= high - low && |offsets| <= high - low
  {
    if offsets != [] {
      SpacedCount(offsets[1..], n, offsets[0] + n, high);
      MulStep(|offsets|, n);
    }
  }

  lemma CountIsCount(s: Bytes, from: Bytes, max: Option<nat>)
    requires from != []
    ensures CountSubstring(s, from, max) == |Chosen(s, from, 0, Limit(s, max))|
    ensures Chosen(s, from, 0, Limit(s, max)) == Occurrences(s, from, 0)[..CountSubstring(s, from, max)]
  {
    SpacedCount(Occurrences(s, from, 0), |from|, 0, |s|);
  }

  /** The empty pattern has no length guard. */
  method ReplaceInterleave(s: Bytes, to: Bytes, max: Option<nat>) returns (r: Result)
    requires max.Some? ==> max.value >= 1
    ensures var value := Replaced(s, [], to, Limit(s, max)); r == if |value| > ISIZE_MAX then Panics else Ok(value)
  {
    var places := |s| + 1;
    var count := (if max.Some? then Min(max.value, places) else places) - 1;
    var result := to;
    hide Interleaving, Replaced;
    Gaps(s, max);
    InterleaveStart(s, to, Limit(s, max));
    for k := 0 to count
      invariant Interleaving(s, to, Limit(s, max), k, result)
    {
      InterleaveStep(s, to, Limit(s, max), k, result);
      result := result + [s[k]] + to;
    }
    InterleaveEnd(s, to, Limit(s, max), count, result);
    result := result + s[count..];
    r := if |result| > ISIZE_MAX then Panics else Ok(result);
  }

  ghost predicate Interleaving(s: Bytes, to: Bytes, limit: nat, k: nat, done: Bytes) {
    && k <= |s| && k < limit
    && done + Between(s[k..], to, limit - 1 - k) == Replaced(s, [], to, limit)
  }

  lemma Gaps(s: Bytes, max: Option<nat>)
    requires max.Some? ==> max.value >= 1
    ensures var places := |s| + 1;
      (if max.Some? then Min(max.value, places) else places) == Min(Limit(s, max), places) >= 1
  {}

  lemma InterleaveStart(s: Bytes, to: Bytes, limit: nat)
    requires limit > 0
    ensures Interleaving(s, to, limit, 0, to)
  {
    assert s[0..] == s;
    Interleaved(s, to, limit);
  }

  lemma InterleaveStep(s: Bytes, to: Bytes, limit: nat, k: nat, done: Bytes)
    requires k < |s| && k + 1 < limit && Interleaving(s, to, limit, k, done)
    ensures Interleaving(s, to, limit, k + 1, done + [s[k]] + to)
  {
    hide Replaced, Between;
    var left: nat := limit - 1 - k;
    BetweenNext(s, to, k, left);
    Associate(done, [s[k]], to, Between(s[k + 1..], to, left - 1));
  }

  lemma BetweenNext(s: Bytes, to: Bytes, k: nat, left: nat)
    requires k < |s| && left > 0
    ensures Between(s[k..], to, left) == [s[k]] + to + Between(s[k + 1..], to, left - 1)
  {
    assert s[k..][0] == s[k] && s[k..][1..] == s[k + 1..];
    Interleaved(s[k + 1..], to, left);
    assert [s[k]] + (to + Between(s[k + 1..], to, left - 1)) == [s[k]] + to + Between(s[k + 1..], to, left - 1);
  }

  lemma InterleaveEnd(s: Bytes, to: Bytes, limit: nat, k: nat, done: Bytes)
    requires Interleaving(s, to, limit, k, done) && (k == |s| || k + 1 == limit)
    ensures done + s[k..] == Replaced(s, [], to, limit)
  {
    hide Replaced, Between;
    NothingLeft(s[k..], to, limit - 1 - k);
  }

  lemma NothingLeft(s: Bytes, to: Bytes, left: nat)
    requires s == [] || left == 0
    ensures Between(s, to, left) == s
  {
    if s != [] { assert Replaced(s[1..], [], to, 0) == s[1..]; }
  }

  /** What follows the first insertion. */
  function Between(s: Bytes, to: Bytes, left: nat): Bytes {
    if s == [] then [] else [s[0]] + Replaced(s[1..], [], to, left)
  }

  lemma Interleaved(s: Bytes, to: Bytes, left: nat)
    requires left > 0
    ensures Replaced(s, [], to, left) == to + Between(s, to, left - 1)
  {}

  /** The loop shared by deletion and the general case. */
  method SpliceLoop(s: Bytes, from: Bytes, to: Bytes, total: nat) returns (result: Bytes)
    requires from != [] && 0 < total <= |Occurrences(s, from, 0)|
    ensures result == Replaced(s, from, to, total)
  {
    hide Replaced, SpliceInv, Occurrences;
    var offsets := Occurrences(s, from, 0);
    var lastEnd: nat, count := 0, total;
    result := [];
    SpliceStart(s, from, to, total);
    var k := 0;
    while k < |offsets|
      invariant k <= total && count == total - k && count > 0
      invariant SpliceInv(s, from, to, total, k, lastEnd, result)
      decreases total - k
    {
      SpliceStep(s, from, to, total, k, lastEnd, result);
      result := result + s[lastEnd..offsets[k]];
      result := result + to;
      lastEnd := offsets[k] + |from|;
      count := count - 1;
      k := k + 1;
      if count == 0 {
        break;
      }
    }
    SpliceEnd(s, from, to, total, lastEnd, result);
    result := result + s[lastEnd..];
  }

  /** k matches are copied; splicing the remaining ones completes the result. */
  ghost predicate SpliceInv(s: Bytes, from: Bytes, to: Bytes, total: nat, k: nat, lastEnd: nat, done: Bytes)
    requires from != [] && k <= total <= |Occurrences(s, from, 0)|
  {
    var rest := Occurrences(s, from, 0)[k..total];
    && lastEnd <= |s| && Spaced(rest, |from|, lastEnd, |s|)
    && done + Splice(s, rest, |from|, to, lastEnd) == Replaced(s, from, to, total)
  }

  lemma SpliceStart(s: Bytes, from: Bytes, to: Bytes, total: nat)
    requires from != [] && total <= |Occurrences(s, from, 0)|
    ensures SpliceInv(s, from, to, total, 0, 0, [])
  {
    hide Replaced, Splice, Spaced, Occurrences;
    SpliceIsReplaced(s, from, to, 0, total);
    assert s[0..] == s;
    SpacedPrefix(Occurrences(s, from, 0), total, |from|, 0, |s|);
    assert [] + Replaced(s, from, to, total) == Replaced(s, from, to, total);
    assert Occurrences(s, from, 0)[0..total] == Occurrences(s, from, 0)[..total];
  }

  lemma SpliceStep(s: Bytes, from: Bytes, to: Bytes, total: nat, k: nat, lastEnd: nat, done: Bytes)
    requires from != [] && k < total <= |Occurrences(s, from, 0)| && SpliceInv(s, from, to, total, k, lastEnd, done)
    ensures var o := Occurrences(s, from, 0)[k];
      && lastEnd <= o && o + |from| <= |s|
      && SpliceInv(s, from, to, total, k + 1, o + |from|, done + s[lastEnd..o] + to)
  {
    hide Replaced, Splice, Spaced, Occurrences;
    var rest := Occurrences(s, from, 0)[k..total];
    assert rest[0] == Occurrences(s, from, 0)[k] && rest[1..] == Occurrences(s, from, 0)[k + 1..total];
    var o := rest[0];
    SpliceCons(s, rest, |from|, to, lastEnd);
    Associate(done, s[lastEnd..o], to, Splice(s, rest[1..], |from|, to, o + |from|));
  }

  lemma SpliceEnd(s: Bytes, from: Bytes, to: Bytes, total: nat, lastEnd: nat, done: Bytes)
    requires from != [] && total <= |Occurrences(s, from, 0)| && SpliceInv(s, from, to, total, total, lastEnd, done)
    ensures lastEnd <= |s| && done + s[lastEnd..] == Replaced(s, from, to, total)
  {
    assert Occurrences(s, from, 0)[total..total] == [];
  }

  lemma SpacedHead(offsets: seq<nat>, n: nat, low: nat, high: nat)
    requires Spaced(offsets, n, low, high) && offsets != []
    ensures low <= offsets[0] && offsets[0] + n <= high && Spaced(offsets[1..], n, offsets[0] + n, high)
  {}

  lemma SpliceCons(s: Bytes, offsets: seq<nat>, n: nat, to: Bytes, last: nat)
    requires last <= |s| && Spaced(offsets, n, last, |s|) && offsets != []
    ensures last <= offsets[0] && offsets[0] + n <= |s| && Spaced(offsets[1..], n, offsets[0] + n, |s|)
    ensures Splice(s, offsets, n, to, last) == s[last..offsets[0]] + to + Splice(s, offsets[1..], n, to, offsets[0] + n)
  {}

  lemma Associate(a: Bytes, b: Bytes, c: Bytes, d: Bytes)
    ensures a + (b + c + d) == a + b + c + d
  {}

  method ReplaceDelete(s: Bytes, from: Bytes, max: Option<nat>) returns (result: Bytes)
    requires from != []
    ensures result == Replaced(s, from, [], Limit(s, max))
  {
    var count := CountSubstring(s, from, max);
    SameChoice(s, from, [], max);
    if count == 0 {
      return s;
    }
    result := SpliceLoop(s, from, [], count);
  }

  /** Limiting by the count of the matches changes nothing. */
  lemma SameChoice(s: Bytes, from: Bytes, to: Bytes, max: Option<nat>)
    requires from != []
    ensures Replaced(s, from, to, Limit(s, max)) == Replaced(s, from, to, CountSubstring(s, from, max))
  {
    var n := CountSubstring(s, from, max);
    CountIsCount(s, from, max);
    assert Chosen(s, from, 0, n) == Chosen(s, from, 0, Limit(s, max));
    assert s[0..] == s;
    SpliceIsReplaced(s, from, to, 0, n);
    SpliceIsReplaced(s, from, to, 0, Limit(s, max));
  }

  /** The guard compares against a quotient; it is exact, so the length never wraps. */
  lemma GuardIsExact(n: nat, count: nat, d: int)
    requires n <= ISIZE_MAX && count > 0
    ensures d > (ISIZE_MAX - n) / count <==> n + count * d > ISIZE_MAX
  {
    var room := ISIZE_MAX - n;
    var q := room / count;
    assert count * q <= room < count * (q + 1);
    if d > q { MulOrder(count, q + 1, d); } else { MulOrder(count, d, q); }
  }

  lemma MulOrder(k: nat, a: int, b: int)
    requires a <= b
    ensures k * a <= k * b
  {}

  method ReplaceGeneral(s: Bytes, from: Bytes, to: Bytes, max: Option<nat>) returns (r: Result)
    requires from != [] && to != [] && |s| <= ISIZE_MAX && |from| <= ISIZE_MAX && |to| <= ISIZE_MAX
    ensures var value := Replaced(s, from, to, Limit(s, max)); r == if |value| > ISIZE_MAX then Overflow else Ok(value)
  {
    var count := CountSubstring(s, from, max);
    SameChoice(s, from, to, max);
    ReplacedLength(s, from, to, Limit(s, max));
    CountIsCount(s, from, max);
    if count == 0 {
      return Ok(s);
    }
    GuardIsExact(|s|, count, |to| - |from|);
    if |to| - |from| > (ISIZE_MAX - |s|) / count {
      return Overflow;
    }
    var resultLen := |s| + count * (|to| - |from|);
    var result := SpliceLoop(s, from, to, count);
    assert |result| == resultLen;
    r := Ok(result);
  }

  // ---------- in place ----------

  ghost predicate Overwrites(s: Bytes, offsets: seq<nat>, more: seq<nat>, o: nat, n: nat, to: Bytes, last: nat) {
    && last <= o && o + n <= |s| && Spaced(offsets, n, last, |s|) && Spaced(more, n, last, |s|)
    && var r := Splice(s, offsets, n, to, last);
    && |r| == |s| - last
    && Splice(s, more, n, to, last) == r[..o - last] + to + r[o - last + n..]
  }

  /** One more replacement of equal length overwrites that stretch of the result so far. */
  lemma {:induction false} SpliceAppend(s: Bytes, offsets: seq<nat>, o: nat, n: nat, to: Bytes, last: nat)
    requires |to| == n && last <= |s| && Spaced(offsets + [o], n, last, |s|)
    ensures Overwrites(s, offsets, offsets + [o], o, n, to, last)
  {
    hide Spaced, Overwrites;
    if offsets == [] {
      assert offsets + [o] == [o];
      AppendFirst(s, o, n, to, last);
    } else {
      assert (offsets + [o])[0] == offsets[0] && (offsets + [o])[1..] == offsets[1..] + [o];
      SpacedHead(offsets + [o], n, last, |s|);
      SpliceAppend(s, offsets[1..], o, n, to, offsets[0] + n);
      AppendNext(s, offsets, offsets + [o], o, n, to, last);
    }
  }

  lemma AppendNext(s: Bytes, offsets: seq<nat>, more: seq<nat>, o: nat, n: nat, to: Bytes, last: nat)
    requires |to| == n && last <= |s| && Spaced(more, n, last, |s|)
    requires offsets != [] && more != [] && offsets[0] == more[0]
    requires Overwrites(s, offsets[1..], more[1..], o, n, to, offsets[0] + n)
    ensures Overwrites(s, offsets, more, o, n, to, last)
  {
    hide Splice, Spaced;
    var first := offsets[0];
    SpacedHead(more, n, last, |s|);
    SpacedCons(offsets, n, last, |s|);
    SpliceCons(s, offsets, n, to, last);
    SpliceCons(s, more, n, to, last);
    AppendJoin(s[last..first], Splice(s, offsets[1..], n, to, first + n), o - first - n, to);
  }

  lemma AppendFirst(s: Bytes, o: nat, n: nat, to: Bytes, last: nat)
    requires last <= |s| && Spaced([o], n, last, |s|)
    ensures Overwrites(s, [], [o], o, n, to, last)
  {
    assert [o][1..] == [];
    assert s[last..][..o - last] == s[last..o] && s[last..][o - last + n..] == s[o + n..];
  }

  lemma SpacedCons(offsets: seq<nat>, n: nat, low: nat, high: nat)
    requires offsets != [] && low <= offsets[0] && offsets[0] + n <= high
    requires Spaced(offsets[1..], n, offsets[0] + n, high)
    ensures Spaced(offsets, n, low, high)
  {}

  lemma AppendJoin(gap: Bytes, inner: Bytes, k: nat, to: Bytes)
    requires k + |to| <= |inner|
    ensures var all, at := gap + to + inner, |gap| + |to| + k;
      gap + to + (inner[..k] + to + inner[k + |to|..]) == all[..at] + to + all[at + |to|..]
  {}

  method Overwrite(a: array<Byte>, offset: nat, data: Bytes)
    requires offset + |data| <= a.Length
    modifies a
    ensures a[..] == old(a[..offset]) + data + old(a[offset + |data|..])
  {
    for i := 0 to |data|
      invariant forall k | 0 <= k < a.Length :: a[k] == if offset <= k < offset + i then data[k - offset] else old(a[k])
    {
      a[offset + i] := data[i];
    }
  }

  method ReplaceInPlace(s: Bytes, from: Bytes, to: Bytes, max: Option<nat>) returns (result: Bytes)
    requires from != [] && |from| == |to| && |s| <= ISIZE_MAX && (max.Some? ==> max.value >= 1)
    ensures result == Replaced(s, from, to, Limit(s, max))
  {
    hide Occurrences, Replaced, InPlace;
    var offsets := Occurrences(s, from, 0);
    InPlaceEnds(s, from, to, max);
    if offsets == [] {
      return s;
    }
    var a := new Byte[|s|](i requires 0 <= i < |s| => s[i]);
    assert a[..] == s;
    InPlaceStep(s, from, to, 0);
    Overwrite(a, offsets[0], to);
    if max == Some(1) {
      return a[..];
    }
    var count := (if max.Some? then max.value else USIZE_MAX) - 1;
    var k := 1;
    while k < |offsets|
      invariant 1 <= k <= |offsets| && count >= 1
      invariant count == (if max.Some? then max.value else USIZE_MAX) - k
      invariant a.Length == |s| && a[..] == InPlace(s, from, to, k)
    {
      InPlaceStep(s, from, to, k);
      Overwrite(a, offsets[k], to);
      count := count - 1;
      k := k + 1;
      if count == 0 {
        break;
      }
    }
    result := a[..];
  }

  function InPlace(s: Bytes, from: Bytes, to: Bytes, k: nat): Bytes
    requires from != [] && k <= |Occurrences(s, from, 0)|
  {
    SpacedPrefix(Occurrences(s, from, 0), k, |from|, 0, |s|);
    Splice(s, Occurrences(s, from, 0)[..k], |from|, to, 0)
  }

  /** The loop ends where the rule does. */
  lemma InPlaceEnds(s: Bytes, from: Bytes, to: Bytes, max: Option<nat>)
    requires from != [] && |from| == |to|
    ensures var n := |Occurrences(s, from, 0)|;
      n <= |s| && InPlace(s, from, to, Min(n, Limit(s, max))) == Replaced(s, from, to, Limit(s, max))
    ensures InPlace(s, from, to, 0) == s
  {
    CountIsCount(s, from, max);
    SpliceIsReplaced(s, from, to, 0, Limit(s, max));
    SpacedCount(Occurrences(s, from, 0), |from|, 0, |s|);
    assert s[0..] == s;
  }

  lemma InPlaceStep(s: Bytes, from: Bytes, to: Bytes, k: nat)
    requires from != [] && |from| == |to| && k < |Occurrences(s, from, 0)|
    ensures var o, r := Occurrences(s, from, 0)[k], InPlace(s, from, to, k);
      && o + |from| <= |s| == |r|
      && InPlace(s, from, to, k + 1) == r[..o] + to + r[o + |from|..]
  {
    var offsets := Occurrences(s, from, 0);
    SpacedPrefix(offsets, k + 1, |from|, 0, |s|);
    assert offsets[..k + 1] == offsets[..k] + [offsets[k]];
    SpliceAppend(s, offsets[..k], offsets[k], |from|, to, 0);
  }

  // ---------- the dispatch ----------

  lemma {:induction false} NothingBetween(s: Bytes, left: nat)
    ensures Replaced(s, [], [], left) == s
  {
    if left > 0 && s != [] { NothingBetween(s[1..], left - 1); }
  }

  lemma NotLonger(s: Bytes, from: Bytes, to: Bytes, left: nat)
    requires |to| <= |from|
    ensures |Replaced(s, from, to, left)| <= |s|
  {
    ReplacedLength(s, from, to, left);
    MulOrder(Count(s, from, left), |to| - |from|, 0);
  }

  /** Such lengths exist: an empty pattern in 2^32 bytes, replaced by 2^32 bytes everywhere. */
  lemma InterleaveTooLong() returns (s: Bytes, to: Bytes)
    ensures |s| <= ISIZE_MAX && |to| <= ISIZE_MAX
    ensures |Replaced(s, [], to, Limit(s, None))| > ISIZE_MAX
  {
    hide Replaced;
    s := seq(0x1_0000_0000, _ => 0);
    to := s;
    InterleavedLength(s, to, Limit(s, None));
  }

  /** The limit a caller gives: negative means none. */
  function MaxOf(maxCount: Option<int>): Option<nat> {
    if maxCount.Some? && maxCount.value >= 0 then Some(maxCount.value) else None
  }

  /** `replace`: whatever routine runs, the result is the rule's, and the only failure is a result
      longer than isize::MAX: an OverflowError, or for the empty pattern, which is not guarded, a panic. */
  method Replace(s: Bytes, from: Bytes, to: Bytes, maxCount: Option<int>) returns (r: Result)
    requires |s| <= ISIZE_MAX && |from| <= ISIZE_MAX && |to| <= ISIZE_MAX
    ensures var value := Replaced(s, from, to, Limit(s, MaxOf(maxCount)));
      r == if |value| <= ISIZE_MAX then Ok(value) else if from != [] then Overflow else Panics
    ensures r == Panics <==> from == [] && |s| + Min(Limit(s, MaxOf(maxCount)), |s| + 1) * |to| > ISIZE_MAX
    ensures r == Overflow <==>
      from != [] && |s| + Count(s, from, Limit(s, MaxOf(maxCount))) * (|to| - |from|) > ISIZE_MAX
  {
    ReplacedLength(s, from, to, Limit(s, MaxOf(maxCount)));
    if from == [] { InterleavedLength(s, to, Limit(s, MaxOf(maxCount))); }
    var max: Option<nat> := None;
    if |to| <= |from| { NotLonger(s, from, to, Limit(s, MaxOf(maxCount))); }
    if maxCount.Some? && maxCount.value >= 0 {
      if maxCount.value == 0 || (s == [] && from != []) {
        return Ok(s);
      } else if s == [] && from == [] {
        return Ok(to);
      }
      max := Some(maxCount.value);
    }
    if from == [] {
      if to == [] {
        NothingBetween(s, Limit(s, max));
        return Ok(s);
      }
      r := ReplaceInterleave(s, to, max);
      return;
    }
    if s == [] {
      return Ok(s);
    }
    if to == [] {
      var value := ReplaceDelete(s, from, max);
      r := Ok(value);
    } else if |from| == |to| {
      var value := ReplaceInPlace(s, from, to, max);
      r := Ok(value);
    } else {
      r := ReplaceGeneral(s, from, to, max);
    }
  }

  // ---------- replacing is splitting and joining ----------

  function JoinBy(parts: seq<Bytes>, separator: Bytes): Bytes {
    if parts == [] then []
    else if |parts| == 1 then parts[0]
    else parts[0] + separator + JoinBy(parts[1..], separator)
  }

  predicate MatchesAt(s: Bytes, from: Bytes, i: nat) {
    i + |from| <= |s| && s[i..i + |from|] == from
  }

  /** With what follows, no match starts in the part. */
  ghost predicate MatchFree(part: Bytes, from: Bytes, behind: Bytes) {
    forall i | 0 <= i < |part| :: !MatchesAt(part + behind, from, i)
  }

  /** The parts between the matches that are replaced: each match is the leftmost one behind the match
      before it, there are at most `left`, and with fewer the last part has no match. */
  ghost predicate IsSplit(s: Bytes, from: Bytes, left: nat, parts: seq<Bytes>) {
    && parts != [] && |parts| - 1 <= left && JoinBy(parts, from) == s
    && (forall k | 0 <= k < |parts| - 1 :: MatchFree(parts[k], from, from))
    && (|parts| - 1 < left ==> MatchFree(parts[|parts| - 1], from, []))
  }

  /** Replacing is splitting at the matches and joining with the replacement. */
  lemma {:induction false} ReplacedIsJoin(s: Bytes, from: Bytes, to: Bytes, left: nat) returns (parts: seq<Bytes>)
    requires from != []
    ensures IsSplit(s, from, left, parts) && Replaced(s, from, to, left) == JoinBy(parts, to)
    decreases |s|
  {
    hide IsSplit, JoinBy, Replaced;
    ReplacedCases(s, from, to, left);
    if left == 0 {
      parts := [s];
      OnePart(s, from, to, left);
    } else if from <= s {
      var rest := ReplacedIsJoin(s[|from|..], from, to, left - 1);
      parts := [[]] + rest;
      SplitMatch(s, from, to, left, rest);
    } else if s == [] {
      parts := [[]];
      OnePart([], from, to, left);
    } else {
      var rest := ReplacedIsJoin(s[1..], from, to, left);
      SomePart(s[1..], from, left, rest);
      parts := [[s[0]] + rest[0]] + rest[1..];
      SplitMiss(s, from, to, left, rest);
    }
  }

  lemma ReplacedCases(s: Bytes, from: Bytes, to: Bytes, left: nat)
    requires from != []
    ensures Replaced(s, from, to, left) ==
      if left == 0 || s == [] then s
      else if from <= s then to + Replaced(s[|from|..], from, to, left - 1)
      else [s[0]] + Replaced(s[1..], from, to, left)
  {}

  lemma OnePart(s: Bytes, from: Bytes, to: Bytes, left: nat)
    requires from != [] && (left == 0 || s == [])
    ensures IsSplit(s, from, left, [s]) && JoinBy([s], to) == s
  {}

  lemma SomePart(s: Bytes, from: Bytes, left: nat, parts: seq<Bytes>)
    requires IsSplit(s, from, left, parts)
    ensures parts != []
  {}

  lemma SplitMatch(s: Bytes, from: Bytes, to: Bytes, left: nat, rest: seq<Bytes>)
    requires from != [] && from <= s && left > 0 && IsSplit(s[|from|..], from, left - 1, rest)
    ensures IsSplit(s, from, left, [[]] + rest) && JoinBy([[]] + rest, to) == to + JoinBy(rest, to)
  {
    hide MatchFree;
    var parts := [[]] + rest;
    assert parts[1..] == rest;
    assert s == from + s[|from|..];
    assert [] + from + s[|from|..] == s && [] + to + JoinBy(rest, to) == to + JoinBy(rest, to);
    NoMatchInNothing(from);
    forall k | 0 <= k < |parts| - 1 ensures MatchFree(parts[k], from, from) {
      if k > 0 { assert parts[k] == rest[k - 1]; }
    }
  }

  lemma NoMatchInNothing(from: Bytes)
    ensures MatchFree([], from, from)
  {}

  lemma SplitMiss(s: Bytes, from: Bytes, to: Bytes, left: nat, rest: seq<Bytes>)
    requires from != [] && s != [] && !(from <= s) && left > 0 && IsSplit(s[1..], from, left, rest)
    ensures var parts := [[s[0]] + rest[0]] + rest[1..];
      IsSplit(s, from, left, parts) && JoinBy(parts, to) == [s[0]] + JoinBy(rest, to)
  {
    hide MatchFree;
    var parts := [[s[0]] + rest[0]] + rest[1..];
    assert parts[1..] == rest[1..];
    PrefixJoins(s[0], rest, from);
    PrefixJoins(s[0], rest, to);
    assert s == [s[0]] + s[1..];
    FirstPartFree(s, from, rest);
    forall k | 0 <= k < |parts| - 1 ensures MatchFree(parts[k], from, from) {
      if k > 0 { assert parts[k] == rest[k]; }
    }
  }

  lemma PrefixJoins(b: Byte, rest: seq<Bytes>, separator: Bytes)
    requires rest != []
    ensures JoinBy([[b] + rest[0]] + rest[1..], separator) == [b] + JoinBy(rest, separator)
  {
    assert ([[b] + rest[0]] + rest[1..])[1..] == rest[1..];
    if |rest| > 1 {
      var tail := JoinBy(rest[1..], separator);
      assert [b] + rest[0] + separator + tail == [b] + (rest[0] + separator + tail);
    }
  }

  /** One byte more in front, at which no match starts. */
  lemma FirstPartFree(s: Bytes, from: Bytes, rest: seq<Bytes>)
    requires from != [] && s != [] && !(from <= s) && rest != [] && JoinBy(rest, from) == s[1..]
    ensures |rest| > 1 && MatchFree(rest[0], from, from) ==> MatchFree([s[0]] + rest[0], from, from)
    ensures |rest| == 1 && MatchFree(rest[0], from, []) ==> MatchFree([s[0]] + rest[0], from, [])
  {
    var behind := if |rest| > 1 then from else [];
    var p, q := rest[0] + behind, [s[0]] + rest[0] + behind;
    assert q == [s[0]] + p;
    assert q <= s by {
      if |rest| > 1 { assert s[1..] == p + JoinBy(rest[1..], from); } else { assert p == rest[0]; }
    }
    if MatchFree(rest[0], from, behind) {
      forall i | 0 <= i < |rest[0]| + 1 ensures !MatchesAt(q, from, i) {
        if i == 0 {
          assert |from| <= |q| ==> q[0..|from|] == s[..|from|];
        } else {
          assert !MatchesAt(p, from, i - 1);
          assert i + |from| <= |q| ==> q[i..i + |from|] == p[i - 1..i - 1 + |from|];
        }
      }
    }
  }

  /** For the empty pattern the parts are nothing, then single bytes, and last what is left. */
  ghost predicate IsByteSplit(s: Bytes, n: nat, parts: seq<Bytes>) {
    && |parts| == n + 1 <= |s| + 2
    && (n == 0 ==> parts[0] == s)
    && (n > 0 ==> parts[0] == [] && parts[n] == s[n - 1..] && forall k | 0 < k < n :: parts[k] == [s[k - 1]])
  }

  lemma {:induction false} InterleavedIsJoin(s: Bytes, to: Bytes, left: nat) returns (parts: seq<Bytes>)
    ensures IsByteSplit(s, Min(left, |s| + 1), parts) && Replaced(s, [], to, left) == JoinBy(parts, to)
    decreases |s|
  {
    if left == 0 {
      parts := [s];
    } else if s == [] {
      parts := [[], []];
      assert parts[1..] == [[]];
      assert [] + to + [] == to;
    } else {
      var rest := InterleavedIsJoin(s[1..], to, left - 1);
      parts := [[]] + ([[s[0]] + rest[0]] + rest[1..]);
      assert parts[1..] == [[s[0]] + rest[0]] + rest[1..];
      PrefixJoins(s[0], rest, to);
      assert [] + to + ([s[0]] + JoinBy(rest, to)) == to + [s[0]] + JoinBy(rest, to);
      BytesSplitMore(s, Min(left - 1, |s|), rest);
    }
  }

  lemma BytesSplitMore(s: Bytes, n: nat, rest: seq<Bytes>)
    requires s != [] && IsByteSplit(s[1..], n, rest)
    ensures IsByteSplit(s, n + 1, [[]] + ([[s[0]] + rest[0]] + rest[1..]))
  {
    var parts := [[]] + ([[s[0]] + rest[0]] + rest[1..]);
    assert forall k | 2 <= k < |parts| :: parts[k] == rest[k - 1];
    if n == 0 {
      assert parts[1] == [s[0]] + s[1..] == s[0..];
    } else {
      assert parts[1] == [s[0]];
      assert parts[n + 1] == s[1..][n - 1..] == s[n..];
    }
  }

  /** What a caller gets: without a count, or with a negative one, every match is replaced; otherwise at
      most as many as the count says, leftmost first. */
  lemma ReplaceMeans(s: Bytes, from: Bytes, to: Bytes, maxCount: Option<int>) returns (parts: seq<Bytes>)
    ensures Replaced(s, from, to, Limit(s, MaxOf(maxCount))) == JoinBy(parts, to)
    ensures from != [] && (maxCount == None || maxCount.value < 0) ==>
      IsSplit(s, from, |s| + 1, parts) && |parts| <= |s| + 1
    ensures from != [] && maxCount.Some? && maxCount.value >= 0 ==> IsSplit(s, from, maxCount.value, parts)
    ensures from == [] ==>
      IsByteSplit(s, if maxCount == None || maxCount.value < 0 then |s| + 1 else Min(maxCount.value, |s| + 1), parts)
  {
    if from == [] {
      parts := InterleavedIsJoin(s, to, Limit(s, MaxOf(maxCount)));
    } else {
      parts := ReplacedIsJoin(s, from, to, Limit(s, MaxOf(maxCount)));
      JoinLength(parts, from);
    }
  }

  lemma {:induction false} JoinLength(parts: seq<Bytes>, separator: Bytes)
    requires parts != [] && separator != []
    ensures |parts| <= |JoinBy(parts, separator)| + 1
  {
    if |parts| > 1 { JoinLength(parts[1..], separator); }
  }
}
