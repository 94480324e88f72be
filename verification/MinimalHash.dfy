/** When probing with the hash i64::MIN ends: the one hash whose probe sequence misses slots. */
module MinimalHash {
  import opened ProbeSequence
  import opened OrderedDict
  import opened OrderedMap
  import opened Wrappers

  /** Some probe meets a FREE slot, so a lookup of an absent key ends. */
  ghost predicate MeetsFree(ix: seq<IndexEntry>, hash: I64)
    requires ix != []
  {
    exists t: nat :: ix[Slot(hash, |ix|, t)] == FREE
  }

  /** No more than two thirds of the slots are filled, as `should_resize` ensures. */
  ghost predicate Loaded(ix: seq<IndexEntry>) {
    3 * Filled(ix) <= 2 * |ix|
  }

  // ---------- small tables ----------

  /** Distinct slots that are not FREE are all counted. */
  lemma {:induction false} FilledAtLeast(ix: seq<IndexEntry>, slots: seq<nat>)
    requires forall i | 0 <= i < |slots| :: slots[i] < |ix| && ix[slots[i]] != FREE
    requires forall i, j | 0 <= i < j < |slots| :: slots[i] != slots[j]
    ensures Filled(ix) >= |slots|
    decreases |slots|
  {
    if slots != [] {
      var n := |slots| - 1;
      FilledUpdate(ix, slots[n], FREE);
      FilledAtLeast(ix[slots[n] := FREE], slots[..n]);
    }
  }

  /** The first eleven probes of a table of 16 slots are eleven different slots. */
  const ELEVEN: seq<nat> := [0, 1, 6, 15, 12, 13, 2, 11, 8, 9, 14]

  lemma ElevenProbes(t: nat)
    requires t < 11
    ensures Slot(I64_MIN, 16, t) == ELEVEN[t]
  {
    MinFirstResidues(t);
  }

  lemma SixteenMeetsFree(ix: seq<IndexEntry>)
    requires |ix| == 16 && Loaded(ix)
    ensures MeetsFree(ix, I64_MIN)
  {
    if forall t: nat | t < 11 :: ix[Slot(I64_MIN, 16, t)] != FREE {
      forall t: nat | t < 11 ensures ix[ELEVEN[t]] != FREE { ElevenProbes(t); }
      FilledAtLeast(ix, ELEVEN);
    }
  }

  lemma EightMeetsFree(ix: seq<IndexEntry>, k: nat)
    requires k <= 3 && |ix| == Pow2(k) && Loaded(ix)
    ensures MeetsFree(ix, I64_MIN)
  {
    var s := SomeSlotIsFree(ix);
    var t := MinHashSmall(k, s);
    assert ix[Slot(I64_MIN, |ix|, t)] == FREE;
  }

  // ---------- large tables ----------

  /** A table whose slots 4i + 1 are tombstones. */
  function Quarter(q: nat): (ix: seq<IndexEntry>)
    ensures |ix| == 4 * q
    ensures forall s | 0 <= s < |ix| && s % 4 == 1 :: ix[s] == DUMMY
    ensures forall s | 0 <= s < |ix| :: !ix[s].At?
  {
    if q == 0 then [] else Quarter(q - 1) + [FREE, DUMMY, FREE, FREE]
  }

  lemma {:induction false} QuarterFilled(q: nat)
    ensures Filled(Quarter(q)) == q
  {
    if q > 0 {
      QuarterFilled(q - 1);
      FourMore(Quarter(q - 1));
    }
  }

  lemma FourMore(ix: seq<IndexEntry>)
    ensures Filled(ix + [FREE, DUMMY, FREE, FREE]) == Filled(ix) + 1
  {
    OneMore(ix, FREE);
    OneMore(ix + [FREE], DUMMY);
    OneMore(ix + [FREE] + [DUMMY], FREE);
    OneMore(ix + [FREE] + [DUMMY] + [FREE], FREE);
    assert ix + [FREE] + [DUMMY] + [FREE] + [FREE] == ix + [FREE, DUMMY, FREE, FREE];
  }

  lemma OneMore(ix: seq<IndexEntry>, x: IndexEntry)
    ensures Filled(ix + [x]) == Filled(ix) + if x == FREE then 0 else 1
  {
    assert (ix + [x])[..|ix|] == ix;
  }

  /** The same table with the first m probed slots turned into tombstones. */
  function Stuck(q: nat, m: nat): (ix: seq<IndexEntry>)
    requires q > 0
    ensures |ix| == 4 * q
    ensures forall s | 0 <= s < |ix| && s % 4 == 1 :: ix[s] == DUMMY
    ensures forall s | 0 <= s < |ix| :: !ix[s].At?
    ensures forall t: nat | t < m :: ix[Slot(I64_MIN, 4 * q, t)] == DUMMY
  {
    if m == 0 then Quarter(q) else Stuck(q, m - 1)[Slot(I64_MIN, 4 * q, m - 1) := DUMMY]
  }

  lemma {:induction false} StuckFilled(q: nat, m: nat)
    requires q > 0
    ensures Filled(Stuck(q, m)) <= q + m
  {
    if m == 0 {
      QuarterFilled(q);
    } else {
      StuckFilled(q, m - 1);
      FilledUpdate(Stuck(q, m - 1), Slot(I64_MIN, 4 * q, m - 1), DUMMY);
    }
  }

  lemma LaterSlots(k: nat, t: nat)
    requires 4 <= k <= 64 && t >= 13
    ensures Slot(I64_MIN, Pow2(k), t) % 4 == 1
  {
    SlotModulo16(I64_MIN, k, t);
    MinLaterResidues(t);
    ModOfMultiple(Slot(I64_MIN, Pow2(k), t), 4, 4);
  }

  lemma FourTimes(k: nat)
    requires k >= 5
    ensures Pow2(k) == 4 * Pow2(k - 2) && Pow2(k - 2) >= 8
  {
    Pow2Splits(3, k - 2);
    assert Pow2(3) == 8;
  }

  lemma SizeFits(k: nat)
    requires k <= 60
    ensures Pow2(k) <= MAX_TABLE
  {
    Pow2At64();
    Pow2Splits(60, 64);
    assert Pow2(4) == 16;
    Pow2Grows(k, 60);
  }

  /** A table of tombstones within the load bound on which probing with the minimal hash never ends.
      It meets the invariant of a dict whose keys have all been deleted. */
  lemma ProbesForever(k: nat) returns (ix: seq<IndexEntry>)
    requires 5 <= k <= 64
    ensures |ix| == Pow2(k) && Loaded(ix) && !MeetsFree(ix, I64_MIN)
    ensures k <= 60 ==> forall hashOf :: Inv<int>(hashOf, 0, Filled(ix), ix, [])
  {
    FourTimes(k);
    var q := Pow2(k - 2);
    ix := Stuck(q, 13);
    StuckFilled(q, 13);
    forall t: nat ensures ix[Slot(I64_MIN, |ix|, t)] != FREE {
      if t >= 13 { LaterSlots(k, t); }
    }
    if k <= 60 {
      SizeFits(k);
      assert IsPow2(|ix|);
    }
  }

  /** Probing with the minimal hash ends on every table within the load bound exactly up to 16 slots. */
  lemma MinimalHashEnds(k: nat)
    requires k <= 64
    ensures (forall ix: seq<IndexEntry> | |ix| == Pow2(k) && Loaded(ix) :: MeetsFree(ix, I64_MIN)) <==> k <= 4
  {
    assert Pow2(4) == 16;
    if k <= 4 {
      forall ix: seq<IndexEntry> | |ix| == Pow2(k) && Loaded(ix) ensures MeetsFree(ix, I64_MIN) {
        if k == 4 { SixteenMeetsFree(ix); } else { EightMeetsFree(ix, k); }
      }
    } else {
      var ix := ProbesForever(k);
    }
  }

  // ---------- reaching such a table by inserting keys ----------

  /** A probe for the hash starts in its own slot. */
  lemma HomeSlot(k: nat, h: nat)
    requires k <= 58 && h < Pow2(k)
    ensures h < TWO63 && Slot(h, Pow2(k), 0) == h
  {
    SizeFits(k);
    ModSmall(h, Pow2(k));
  }

  lemma ModSmall(h: nat, n: nat)
    requires h < n
    ensures h % n == h
  {}

  /** Hashes for the keys 0, 1, 2 and so on: first the slots of the first 13 probes, then the slots
      4i + 1. */
  function HashFor(k: nat, c: nat): (h: HashValue)
    requires 5 <= k <= 58
    ensures 0 <= h < Pow2(k)
  {
    SizeFits(k);
    FourTimes(k);
    if c < 13 then Slot(I64_MIN, Pow2(k), c)
    else if c - 13 < Pow2(k - 2) then 4 * (c - 13) + 1
    else 0
  }

  function Hashing(k: nat): nat -> HashValue
    requires 5 <= k <= 58
  {
    c => HashFor(k, c)
  }

  /** The home slot of a present key is not FREE. */
  lemma HomeFilled<V>(hashOf: nat -> HashValue, used: nat, filled: nat, ix: seq<IndexEntry>, es: Entries<V>, c: nat)
    requires Inv(hashOf, used, filled, ix, es) && Has(Items(es), c)
    ensures ix[Slot(hashOf(c), |ix|, 0)] != FREE
  {
    var i := ItemComesFromEntry(es, IndexOf(Items(es), c));
    var e := es[i].value;
    assert Reaches(ix, e.hash, e.index);
    var t: nat :| Slot(e.hash, |ix|, t) == e.index && Unbroken(ix, e.hash, t);
  }

  /** With all the keys present every slot that the minimal hash probes is filled. */
  lemma AllHomesFilled<V>(k: nat, used: nat, filled: nat, ix: seq<IndexEntry>, es: Entries<V>)
    requires 5 <= k <= 58 && |ix| == Pow2(k) && Inv(Hashing(k), used, filled, ix, es)
    requires forall c | 0 <= c < 13 + Pow2(k - 2) :: Has(Items(es), c)
    ensures !MeetsFree(ix, I64_MIN)
  {
    hide Inv;
    FourTimes(k);
    forall t: nat ensures ix[Slot(I64_MIN, |ix|, t)] != FREE {
      var s := Slot(I64_MIN, |ix|, t);
      if t >= 13 { LaterSlots(k, t); }
      var c := if t < 13 then t else 13 + s / 4;
      assert Hashing(k)(c) == s;
      HomeSlot(k, s);
      HomeFilled(Hashing(k), used, filled, ix, es, c);
    }
  }

  /** Every live entry has a slot of its own. */
  ghost predicate Pointed<V>(ix: seq<IndexEntry>, es: Entries<V>) {
    forall i | 0 <= i < |es| && es[i].Some? :: es[i].value.index < |ix| && ix[es[i].value.index] == At(i)
  }

  lemma {:induction false} UsedAtMostFilled<V>(ix: seq<IndexEntry>, es: Entries<V>)
    requires Pointed(ix, es)
    ensures |Items(es)| <= Filled(ix)
    decreases es
  {
    if es != [] {
      var n := |es| - 1;
      if es[n].Some? {
        FilledUpdate(ix, es[n].value.index, FREE);
        UsedAtMostFilled(ix[es[n].value.index := FREE], es[..n]);
      } else {
        UsedAtMostFilled(ix, es[..n]);
      }
    }
  }

  lemma PowersApart(a: nat, b: nat)
    requires IsPow2(a) && IsPow2(b) && a < 2 * b
    ensures a <= b
  {
    var i: nat :| a == Pow2(i);
    var j: nat :| b == Pow2(j);
    if j < i { Pow2Grows(j, i); } else { Pow2Grows(i, j); }
  }

  /** The table size that n keys, none of them deleted, lead to. */
  ghost predicate SizeFor(size: nat, n: nat) {
    8 <= size && IsPow2(size) && 3 * n <= 2 * size && (size == 8 || 3 * n > size)
  }

  lemma SizeGrows(size: nat, size': nat, n: nat, filled': nat)
    requires SizeFor(size, n) && IsPow2(size') && 3 * (n + 1) <= 2 * size'
    requires Grown(size, size', n, filled', n + 1)
    ensures SizeFor(size', n + 1)
  {
    if size' != size {
      Doubled(size);
      PowersApart(size', 2 * size);
    }
  }

  lemma Doubled(size: nat)
    requires IsPow2(size)
    ensures IsPow2(2 * size)
  {
    var k: nat :| size == Pow2(k);
    assert Pow2(k + 1) == 2 * size;
  }

  lemma SizeUnique(size: nat, k: nat, n: nat)
    requires SizeFor(size, n) && k >= 5 && Pow2(k) < 3 * n <= 2 * Pow2(k)
    ensures size == Pow2(k)
  {
    assert IsPow2(Pow2(k));
    FourTimes(k);
    PowersApart(size, Pow2(k));
    PowersApart(Pow2(k), size);
  }

  /** After n insertions of new keys. */
  ghost predicate Inserted(d: Dict<int>, n: nat)
    reads d
  {
    && d.Valid() && |d.entries| <= n && d.used == d.filled == n && SizeFor(|d.indices|, n)
    && |d.Contents()| == n && forall i | 0 <= i < n :: d.Contents()[i] == (Key(i, i), 0)
  }

  lemma FilledIsUsed<V>(hashOf: nat -> HashValue, used: nat, filled: nat, ix: seq<IndexEntry>, es: Entries<V>)
    requires Inv(hashOf, used, filled, ix, es)
    ensures used == |Items(es)| <= filled && 3 * filled <= 2 * |ix| && IsPow2(|ix|)
  {
    UsedAtMostFilled(ix, es);
  }

  method InsertNext(d: Dict<int>, n: nat)
    requires Inserted(d, n) && n < MAX_ENTRIES
    modifies d
    ensures Inserted(d, n + 1)
  {
    hide Inv, SizeFor, Items;
    ghost var size := |d.indices|;
    assert IndexOf(d.Contents(), n) == n;
    d.Insert(Key(n, n), 0);
    FilledIsUsed(d.hashOf, d.used, d.filled, d.indices, d.entries);
    assert d.filled == n + 1;
    SizeGrows(size, |d.indices|, n, d.filled);
  }

  /** Insertions alone lead to a dict with 2^k slots in which a lookup of a key with the minimal hash
      never ends. */
  method StuckByInserts(k: nat) returns (d: Dict<int>)
    requires 5 <= k <= 58
    ensures fresh(d) && d.Valid() && |d.indices| == Pow2(k) && !MeetsFree(d.indices, I64_MIN)
  {
    hide Inv, SizeFor;
    FourTimes(k);
    EnoughKeys(k);
    d := new Dict(Hashing(k));
    var n := Pow2(k - 1) + 5;
    NothingInserted(d);
    for c := 0 to n
      invariant fresh(d) && d.hashOf == Hashing(k) && Inserted(d, c)
    {
      InsertNext(d, c);
    }
    SizeUnique(|d.indices|, k, n);
    forall c | 0 <= c < 13 + Pow2(k - 2) ensures Has(d.Contents(), c) { assert d.Contents()[c].0.cls == c; }
    AllHomesFilled(k, d.used, d.filled, d.indices, d.entries);
  }

  lemma NothingInserted(d: Dict<int>)
    requires d.Valid() && d.Contents() == [] && d.entries == [] && |d.indices| == 8 && d.filled == 0
    ensures Inserted(d, 0)
  {
    assert Pow2(3) == 8;
    assert IsPow2(8);
  }

  lemma EnoughKeys(k: nat)
    requires 5 <= k <= 58
    ensures var n := Pow2(k - 1) + 5;
      13 + Pow2(k - 2) <= n <= MAX_ENTRIES && Pow2(k) < 3 * n <= 2 * Pow2(k)
  {
    FourTimes(k);
    SizeFits(60);
    assert Pow2(60) == 8 * Pow2(57);
    Pow2Grows(k - 1, 57);
  }
}
