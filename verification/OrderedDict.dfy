/** The ordered hash dict of dict_inner.rs: an open-addressed index table with tombstones over an
    insertion-ordered vector of entries. */
module OrderedDict {
  import opened ProbeSequence
  import opened OrderedMap
  import opened Wrappers

  /** Hashes for which every table is probed completely (see CoversExactly). */
  type HashValue = h: I64 | h != I64_MIN witness 0

  datatype IndexEntry = FREE | DUMMY | At(index: nat)

  datatype Entry<V> = Entry(hash: HashValue, key: Key, index: nat, value: V)

  /** No vector of 32-byte entries can be longer: isize::MAX bytes is the limit. */
  const MAX_ENTRIES: nat := 0x400_0000_0000_0000
  const MAX_TABLE: nat := 4 * MAX_ENTRIES

  type Entries<V> = seq<Option<Entry<V>>>

  // ---------- the entries as an ordered map ----------

  function ItemOf<V>(o: Option<Entry<V>>): seq<Item<V>> {
    match o
    case None => []
    case Some(e) => [(e.key, e.value)]
  }

  function Items<V>(es: Entries<V>): seq<Item<V>> {
    if es == [] then [] else Items(es[..|es| - 1]) + ItemOf(es[|es| - 1])
  }

  predicate Live<V>(es: Entries<V>, i: nat) {
    i < |es| && es[i].Some?
  }

  ghost predicate DistinctKeys<V>(es: Entries<V>) {
    forall i, j | 0 <= i < j < |es| && es[i].Some? && es[j].Some? ::
      es[i].value.key.cls != es[j].value.key.cls
  }

  ghost predicate Absent<V>(es: Entries<V>, c: nat) {
    forall i | 0 <= i < |es| && es[i].Some? :: es[i].value.key.cls != c
  }

  lemma {:induction false} ItemsConcat<V>(a: Entries<V>, b: Entries<V>)
    ensures Items(a + b) == Items(a) + Items(b)
  {
    if b == [] {
      assert a + b == a;
    } else {
      var n := |b| - 1;
      ItemsConcat(a, b[..n]);
      assert (a + b)[..|a + b| - 1] == a + b[..n];
      assert (a + b)[|a + b| - 1] == b[n];
      assert Items(a + b) == Items(a + b[..n]) + ItemOf(b[n]);
    }
  }

  lemma ItemsOne<V>(o: Option<Entry<V>>)
    ensures Items([o]) == ItemOf(o)
  {
    assert [o][..0] == [];
  }

  /** The items around position i. */
  lemma ItemsAround<V>(es: Entries<V>, i: nat)
    requires i < |es|
    ensures Items(es) == Items(es[..i]) + ItemOf(es[i]) + Items(es[i + 1..])
  {
    SplitAround(es, i);
    ItemsOfThree(es[..i], es[i], es[i + 1..]);
  }

  lemma SplitAround<T>(s: seq<T>, i: nat)
    requires i < |s|
    ensures s == s[..i] + [s[i]] + s[i + 1..]
  {}

  lemma ItemsOfThree<V>(a: Entries<V>, x: Option<Entry<V>>, b: Entries<V>)
    ensures Items(a + [x] + b) == Items(a) + ItemOf(x) + Items(b)
  {
    ItemsConcat(a + [x], b);
    ItemsConcat(a, [x]);
    ItemsOne(x);
  }

  lemma {:induction false} ItemComesFromEntry<V>(es: Entries<V>, k: nat) returns (i: nat)
    requires k < |Items(es)|
    ensures Live(es, i) && k == |Items(es[..i])|
    ensures Items(es)[k] == (es[i].value.key, es[i].value.value)
  {
    var n := |es| - 1;
    if k < |Items(es[..n])| {
      i := ItemComesFromEntry(es[..n], k);
      assert es[..n][..i] == es[..i];
    } else {
      i := n;
    }
  }

  lemma ItemsDistinct<V>(es: Entries<V>)
    requires DistinctKeys(es)
    ensures Distinct(Items(es))
  {
    var s := Items(es);
    forall a, b | 0 <= a < b < |s| ensures s[a].0.cls != s[b].0.cls {
      var i := ItemComesFromEntry(es, a);
      var j := ItemComesFromEntry(es, b);
    }
  }

  lemma AbsentFromItems<V>(es: Entries<V>, c: nat)
    requires Absent(es, c)
    ensures !Has(Items(es), c)
  {
    if Has(Items(es), c) {
      var i := ItemComesFromEntry(es, IndexOf(Items(es), c));
    }
  }

  /** A live entry is the item that its class finds, at the rank of its position. */
  lemma LiveIsItem<V>(es: Entries<V>, i: nat)
    requires DistinctKeys(es) && Live(es, i)
    ensures |Items(es[..i])| < |Items(es)|
    ensures Items(es)[|Items(es[..i])|] == (es[i].value.key, es[i].value.value)
    ensures IndexOf(Items(es), es[i].value.key.cls) == |Items(es[..i])|
  {
    ItemsAround(es, i);
    ItemsDistinct(es);
    IndexIsUnique(Items(es), es[i].value.key.cls, |Items(es[..i])|);
  }

  lemma MiddleUpdate<T>(a: seq<T>, x: T, b: seq<T>, y: T)
    ensures (a + [x] + b)[|a| := y] == a + [y] + b
  {}

  lemma MiddleRemove<T>(a: seq<T>, x: T, b: seq<T>)
    ensures (a + [x] + b)[..|a|] + (a + [x] + b)[|a| + 1..] == a + b
  {}

  /** Overwriting the value of a live entry is Put on the items. */
  lemma UpdateIsPut<V>(es: Entries<V>, i: nat, k: Key, v: V)
    requires DistinctKeys(es) && Live(es, i) && es[i].value.key.cls == k.cls
    ensures Items(es[i := Some(es[i].value.(value := v))]) == Put(Items(es), k, v)
  {
    var es' := es[i := Some(es[i].value.(value := v))];
    LiveIsItem(es, i);
    ItemsAround(es, i);
    ItemsAround(es', i);
    assert es'[..i] == es[..i] && es'[i + 1..] == es[i + 1..];
    var e := es[i].value;
    MiddleUpdate(Items(es[..i]), (e.key, e.value), Items(es[i + 1..]), (e.key, v));
  }

  /** Clearing a live entry is Drop on the items. */
  lemma RemoveIsDrop<V>(es: Entries<V>, i: nat)
    requires DistinctKeys(es) && Live(es, i)
    ensures Items(es[i := None]) == Drop(Items(es), es[i].value.key.cls)
    ensures |Items(es[i := None])| + 1 == |Items(es)|
  {
    LiveIsItem(es, i);
    ItemsAround(es, i);
    ItemsWithout(es, i);
    MiddleRemove(Items(es[..i]), (es[i].value.key, es[i].value.value), Items(es[i + 1..]));
  }

  lemma ItemsWithout<V>(es: Entries<V>, i: nat)
    requires i < |es|
    ensures Items(es[i := None]) == Items(es[..i]) + Items(es[i + 1..])
  {
    ItemsAround(es[i := None], i);
    assert es[i := None][..i] == es[..i] && es[i := None][i + 1..] == es[i + 1..];
  }

  /** es' has the same entries at the same positions, up to their slot numbers. */
  ghost predicate Relocated<V>(es: Entries<V>, es': Entries<V>) {
    && |es| == |es'|
    && forall i | 0 <= i < |es| ::
      && es[i].Some? == es'[i].Some?
      && (es[i].Some? ==> es'[i].value == es[i].value.(index := es'[i].value.index))
  }

  /** Entries cache the hash of their key. */
  ghost predicate HashesOk<V>(hashOf: nat -> HashValue, es: Entries<V>) {
    forall i | 0 <= i < |es| && es[i].Some? :: es[i].value.hash == hashOf(es[i].value.key.cls)
  }

  lemma {:induction false} RelocatedItems<V>(es: Entries<V>, es': Entries<V>)
    requires Relocated(es, es')
    ensures Items(es) == Items(es')
  {
    if es != [] {
      RelocatedItems(es[..|es| - 1], es'[..|es| - 1]);
    }
  }

  lemma RelocatedKeys<V>(hashOf: nat -> HashValue, es: Entries<V>, es': Entries<V>)
    requires Relocated(es, es') && DistinctKeys(es) && HashesOk(hashOf, es)
    ensures |es'| == |es| && DistinctKeys(es') && HashesOk(hashOf, es')
  {}

  lemma RelocateOne<V>(es: Entries<V>, es': Entries<V>, i: nat, slot: nat)
    requires Relocated(es, es') && Live(es', i)
    ensures Relocated(es, es'[i := Some(es'[i].value.(index := slot))])
  {}

  // ---------- the index table ----------

  /** The number of slots that are not FREE. */
  function Filled(ix: seq<IndexEntry>): nat {
    if ix == [] then 0 else Filled(ix[..|ix| - 1]) + if ix[|ix| - 1] == FREE then 0 else 1
  }

  lemma {:induction false} FilledUpdate(ix: seq<IndexEntry>, s: nat, x: IndexEntry)
    requires s < |ix|
    ensures Filled(ix[s := x]) == Filled(ix) - (if ix[s] == FREE then 0 else 1) + (if x == FREE then 0 else 1)
  {
    var n := |ix| - 1;
    if s < n {
      assert ix[s := x][..n] == ix[..n][s := x];
      FilledUpdate(ix[..n], s, x);
    } else {
      assert ix[s := x][..n] == ix[..n];
    }
  }

  lemma {:induction false} SomeSlotIsFree(ix: seq<IndexEntry>) returns (s: nat)
    requires Filled(ix) < |ix|
    ensures s < |ix| && ix[s] == FREE
  {
    var n := |ix| - 1;
    if ix[n] == FREE { s := n; } else { s := SomeSlotIsFree(ix[..n]); }
  }

  lemma {:induction false} AllFree(ix: seq<IndexEntry>)
    requires forall s | 0 <= s < |ix| :: ix[s] == FREE
    ensures Filled(ix) == 0
  {
    if ix != [] { AllFree(ix[..|ix| - 1]); }
  }

  /** The first t probes for a hash meet no FREE slot. */
  ghost predicate Unbroken(ix: seq<IndexEntry>, hash: I64, t: nat)
    requires |ix| > 0
  {
    forall j: nat | j < t :: ix[Slot(hash, |ix|, j)] != FREE
  }

  /** The slot lies on the probe path of a hash with no FREE slot before it. */
  ghost predicate Reaches(ix: seq<IndexEntry>, hash: I64, slot: nat)
    requires |ix| > 0
  {
    exists t: nat :: Slot(hash, |ix|, t) == slot && Unbroken(ix, hash, t)
  }

  /** Live slots and live entries point at each other, and each entry can be found from its hash. */
  ghost predicate TableOk<V>(ix: seq<IndexEntry>, es: Entries<V>) {
    && |ix| > 0
    && (forall s | 0 <= s < |ix| && ix[s].At? :: Live(es, ix[s].index) && es[ix[s].index].value.index == s)
    && (forall i | 0 <= i < |es| && es[i].Some? ::
          && es[i].value.index < |ix|
          && ix[es[i].value.index] == At(i)
          && Reaches(ix, es[i].value.hash, es[i].value.index))
  }

  /** The invariant that every operation keeps: the table is consistent and not too full, keys are
      pairwise unequal, hashes are cached, and the two counters count. */
  ghost predicate Inv<V>(hashOf: nat -> HashValue, used: nat, filled: nat, ix: seq<IndexEntry>, es: Entries<V>) {
    && GoodSize(|ix|)
    && TableOk(ix, es)
    && DistinctKeys(es)
    && HashesOk(hashOf, es)
    && used == |Items(es)|
    && filled == Filled(ix)
    && 3 * filled <= 2 * |ix|
    && |es| <= MAX_ENTRIES
  }

  ghost predicate GoodSize(n: nat) {
    2 <= n <= MAX_TABLE && IsPow2(n)
  }

  lemma SizeExponent(n: nat) returns (k: nat)
    requires GoodSize(n)
    ensures k <= 64 && n == Pow2(k)
  {
    k :| n == Pow2(k);
    if k > 64 { Pow2BeyondWord(k); }
  }

  /** Some probe of any hash meets a FREE slot, so probing ends. */
  lemma ProbeMeetsFree(ix: seq<IndexEntry>, hash: HashValue) returns (t: nat)
    requires GoodSize(|ix|) && Filled(ix) < |ix|
    ensures ix[Slot(hash, |ix|, t)] == FREE
  {
    var s := SomeSlotIsFree(ix);
    var k := SizeExponent(|ix|);
    t := Coverage(hash, k, s);
  }

  /** Filling a slot that holds no entry keeps every path. */
  lemma FillKeepsReach(ix: seq<IndexEntry>, slot: nat, x: IndexEntry, hash: I64, target: nat)
    requires slot < |ix| && x != FREE && Reaches(ix, hash, target)
    ensures Reaches(ix[slot := x], hash, target)
  {
    var t: nat :| Slot(hash, |ix|, t) == target && Unbroken(ix, hash, t);
    assert Unbroken(ix[slot := x], hash, t);
  }

  /** Appending an entry whose slot is on its own path keeps the table consistent. */
  lemma PushOk<V>(ix: seq<IndexEntry>, es: Entries<V>, e: Entry<V>)
    requires TableOk(ix, es) && e.index < |ix| && !ix[e.index].At? && Reaches(ix, e.hash, e.index)
    ensures TableOk(ix[e.index := At(|es|)], es + [Some(e)])
  {
    var ix', es' := ix[e.index := At(|es|)], es + [Some(e)];
    forall i | 0 <= i < |es'| && es'[i].Some?
      ensures Reaches(ix', es'[i].value.hash, es'[i].value.index)
    {
      FillKeepsReach(ix, e.index, At(|es|), es'[i].value.hash, es'[i].value.index);
    }
  }

  /** Turning the slot of an entry into a tombstone and clearing the entry keeps it so too. */
  lemma RemoveOk<V>(ix: seq<IndexEntry>, es: Entries<V>, i: nat)
    requires TableOk(ix, es) && Live(es, i)
    ensures TableOk(ix[es[i].value.index := DUMMY], es[i := None])
  {
    var slot := es[i].value.index;
    var ix', es' := ix[slot := DUMMY], es[i := None];
    forall j | 0 <= j < |es'| && es'[j].Some?
      ensures Reaches(ix', es'[j].value.hash, es'[j].value.index)
    {
      FillKeepsReach(ix, slot, DUMMY, es'[j].value.hash, es'[j].value.index);
    }
  }

  /** Overwriting the value of an entry. */
  lemma Updated<V>(hashOf: nat -> HashValue, used: nat, filled: nat, ix: seq<IndexEntry>, es: Entries<V>,
                   i: nat, k: Key, v: V)
    requires Inv(hashOf, used, filled, ix, es) && Live(es, i) && es[i].value.key.cls == k.cls
    ensures var es' := es[i := Some(es[i].value.(value := v))];
      Inv(hashOf, used, filled, ix, es') && Items(es') == Put(Items(es), k, v)
  {
    LiveIsItem(es, i);
    UpdateIsPut(es, i, k, v);
  }

  lemma SameLiveTrims<V>(a: Entries<V>, es: Entries<V>)
    requires SameLive(a, es) && es != [] && es[|es| - 1] == None
    ensures SameLive(a, es[..|es| - 1])
  {}

  /** Removing a cleared entry at the end changes nothing. */
  lemma DropTrailing<V>(hashOf: nat -> HashValue, used: nat, filled: nat, ix: seq<IndexEntry>, es: Entries<V>)
    requires Inv(hashOf, used, filled, ix, es) && es != [] && es[|es| - 1] == None
    ensures var es' := es[..|es| - 1];
      Inv(hashOf, used, filled, ix, es') && Items(es') == Items(es)
  {}

  /** Clearing a live entry and turning its slot into a tombstone. */
  lemma Cleared<V>(hashOf: nat -> HashValue, used: nat, filled: nat, ix: seq<IndexEntry>, es: Entries<V>, i: nat)
    requires Inv(hashOf, used, filled, ix, es) && Live(es, i)
    ensures used > 0
    ensures var es' := es[i := None];
      && Inv(hashOf, used - 1, filled, ix[es[i].value.index := DUMMY], es')
      && Items(es') == Drop(Items(es), es[i].value.key.cls)
  {
    RemoveIsDrop(es, i);
    RemoveOk(ix, es, i);
    FilledUpdate(ix, es[i].value.index, DUMMY);
  }

  /** `pop_back` on a live last entry: its slot becomes a tombstone and the vector shrinks. */
  lemma PoppedLast<V>(hashOf: nat -> HashValue, used: nat, filled: nat, ix: seq<IndexEntry>, es: Entries<V>)
    requires Inv(hashOf, used, filled, ix, es) && es != [] && Live(es, |es| - 1)
    ensures used > 0
    ensures var e, es' := es[|es| - 1].value, es[..|es| - 1];
      && Inv(hashOf, used - 1, filled, ix[e.index := DUMMY], es')
      && Items(es) == Items(es') + [(e.key, e.value)]
  {
    var n := |es| - 1;
    var es' := es[n := None];
    Cleared(hashOf, used, filled, ix, es, n);
    DropTrailing(hashOf, used - 1, filled, ix[es[n].value.index := DUMMY], es');
    assert es'[..n] == es[..n];
    assert Items(es) == Items(es[..n]) + ItemOf(es[n]);
  }

  lemma NoItems<V>(es: Entries<V>)
    requires es == []
    ensures Items(es) == []
  {}

  /** A live entry has a slot. */
  lemma SlotOf<V>(hashOf: nat -> HashValue, used: nat, filled: nat, ix: seq<IndexEntry>, es: Entries<V>, i: nat)
    requires Inv(hashOf, used, filled, ix, es) && Live(es, i)
    ensures es[i].value.index < |ix|
  {}

  // ---------- hints ----------

  /** The entry at position `hint` is live and has class c. */
  ghost predicate HintsAt<V>(es: Entries<V>, c: nat, hint: nat) {
    Live(es, hint) && es[hint].value.key.cls == c
  }

  /** The same live entries at the same positions. */
  ghost predicate SameLive<V>(es: Entries<V>, es': Entries<V>) {
    forall i: nat :: Live(es, i) == Live(es', i) && (Live(es, i) ==> es[i] == es'[i])
  }

  // ---------- iteration ----------

  /** `next_entry`: the first live entry at or after a position, and the position after it. */
  function EntryFrom<V>(es: Entries<V>, position: nat): (r: Option<(nat, Key, V)>)
    ensures r.Some? ==> position < r.value.0 <= |es|
    decreases |es| - position
  {
    if position >= |es| then None
    else match es[position]
      case None => EntryFrom(es, position + 1)
      case Some(e) => Some((position + 1, e.key, e.value))
  }

  /** The items that repeated calls of `next_entry` deliver. */
  function Walk<V>(es: Entries<V>, position: nat): seq<Item<V>>
    decreases |es| - position
  {
    match EntryFrom(es, position)
    case None => []
    case Some((next, k, v)) => [(k, v)] + Walk(es, next)
  }

  /** Iteration delivers exactly the items, in order. */
  lemma {:induction false} WalkIsItems<V>(es: Entries<V>, position: nat)
    requires position <= |es|
    ensures Walk(es, position) == Items(es[position..])
    decreases |es| - position
  {
    if position < |es| {
      WalkIsItems(es, position + 1);
      ItemsAround(es[position..], 0);
      assert es[position..][1..] == es[position + 1..];
      assert es[position..][..0] == [];
    }
  }

  /** The slot points at an entry whose key has class c. */
  ghost predicate Holds<V>(ix: seq<IndexEntry>, es: Entries<V>, slot: nat, c: nat)
    requires TableOk(ix, es) && slot < |ix|
  {
    ix[slot].At? && es[ix[slot].index].value.key.cls == c
  }

  /** None of the first t probes for a hash meets a FREE slot or class c. */
  ghost predicate Passed<V>(ix: seq<IndexEntry>, es: Entries<V>, hash: I64, c: nat, t: nat)
    requires TableOk(ix, es)
  {
    && Unbroken(ix, hash, t)
    && forall j: nat | j < t :: !Holds(ix, es, Slot(hash, |ix|, j), c)
  }

  lemma PassedNone<V>(ix: seq<IndexEntry>, es: Entries<V>, hash: I64, c: nat)
    requires TableOk(ix, es)
    ensures Passed(ix, es, hash, c, 0)
  {}

  lemma PassedSlot<V>(ix: seq<IndexEntry>, es: Entries<V>, hash: I64, c: nat, t: nat)
    requires TableOk(ix, es) && Passed(ix, es, hash, c, t)
    ensures Reaches(ix, hash, Slot(hash, |ix|, t))
    ensures ix[Slot(hash, |ix|, t)] != FREE && !Holds(ix, es, Slot(hash, |ix|, t), c) ==>
      Passed(ix, es, hash, c, t + 1)
  {}

  /** A FREE slot on the path of a class proves it absent: it would have been met before. */
  lemma FreeMeansAbsent<V>(hashOf: nat -> HashValue, ix: seq<IndexEntry>, es: Entries<V>, c: nat, t: nat)
    requires TableOk(ix, es) && HashesOk(hashOf, es)
    requires ix[Slot(hashOf(c), |ix|, t)] == FREE && Passed(ix, es, hashOf(c), c, t)
    ensures Absent(es, c)
  {
    forall i | 0 <= i < |es| && es[i].Some? ensures es[i].value.key.cls != c {
      var e := es[i].value;
      if e.key.cls == c {
        var u: nat :| Slot(e.hash, |ix|, u) == e.index && Unbroken(ix, e.hash, u);
        assert false;
      }
    }
  }

  // ---------- the dict ----------

  /** What the predicate of `remove_if` may answer about a value. */
  datatype Verdict = Remove | Keep | Raise

  datatype Removal<+V> = Removed(value: V) | NotRemoved | Raised

  /** The size that `resize` rounds a request up to. */
  method PowerOfTwoAtLeast(newSize: nat) returns (size: nat)
    requires 2 <= newSize <= 2 * MAX_ENTRIES
    ensures GoodSize(size) && newSize <= size < 2 * newSize
  {
    size := 1;
    ghost var k := 0;
    while size < newSize
      invariant size == Pow2(k)
      invariant size < 2 * newSize
    {
      size := size * 2;
      k := k + 1;
    }
    assert IsPow2(size);
  }

  /** What appending an entry does to the table and to the items. */
  lemma Pushed<V>(hashOf: nat -> HashValue, ix: seq<IndexEntry>, es: Entries<V>, e: Entry<V>)
    requires TableOk(ix, es) && DistinctKeys(es) && HashesOk(hashOf, es)
    requires Absent(es, e.key.cls) && e.hash == hashOf(e.key.cls)
    requires e.index < |ix| && !ix[e.index].At? && Reaches(ix, e.hash, e.index)
    ensures TableOk(ix[e.index := At(|es|)], es + [Some(e)])
    ensures DistinctKeys(es + [Some(e)]) && HashesOk(hashOf, es + [Some(e)])
    ensures Items(es + [Some(e)]) == Items(es) + [(e.key, e.value)]
    ensures Filled(ix[e.index := At(|es|)]) == Filled(ix) + if ix[e.index] == FREE then 1 else 0
  {
    PushOk(ix, es, e);
    FilledUpdate(ix, e.index, At(|es|));
    assert (es + [Some(e)])[..|es|] == es;
  }

  /** Before the rebuild: no entry is in the table. */
  lemma RebuildStart<V>(ix: seq<IndexEntry>, es: Entries<V>)
    requires ix != [] && forall s | 0 <= s < |ix| :: ix[s] == FREE
    ensures TableOk(ix, es[..0]) && Filled(ix) == 0 == |Items(es[..0])| && Relocated(es, es)
  {
    AllFree(ix);
  }

  /** While entry i waits to be placed, fewer than all items are in the table. */
  lemma RoomFor<V>(es: Entries<V>, i: nat)
    requires Live(es, i)
    ensures |Items(es[..i])| < |Items(es)|
  {
    ItemsAround(es, i);
  }

  /** One step of the rebuild: entry i goes to a FREE slot on its path. */
  lemma Placed<V>(ix: seq<IndexEntry>, es: Entries<V>, i: nat, slot: nat)
    requires Live(es, i) && TableOk(ix, es[..i])
    requires slot < |ix| && ix[slot] == FREE && Reaches(ix, es[i].value.hash, slot)
    ensures var es' := es[i := Some(es[i].value.(index := slot))];
      && TableOk(ix[slot := At(i)], es'[..i + 1])
      && Filled(ix[slot := At(i)]) == Filled(ix) + 1
      && |Items(es'[..i + 1])| == |Items(es[..i])| + 1
  {
    var moved := es[i].value.(index := slot);
    var es' := es[i := Some(moved)];
    assert es'[..i + 1] == es[..i] + [Some(moved)];
    assert es'[..i + 1][..i] == es[..i];
    PushOk(ix, es[..i], moved);
    FilledUpdate(ix, slot, At(i));
  }

  lemma Skipped<V>(ix: seq<IndexEntry>, es: Entries<V>, i: nat)
    requires i < |es| && es[i] == None && TableOk(ix, es[..i])
    ensures TableOk(ix, es[..i + 1]) && Items(es[..i + 1]) == Items(es[..i])
  {
    assert es[..i + 1][..i] == es[..i];
  }

  /** The inner loop of `resize`: the first FREE slot on the probe path of a hash. */
  method FirstFree(ix: seq<IndexEntry>, hash: HashValue) returns (slot: nat)
    requires GoodSize(|ix|) && Filled(ix) < |ix|
    ensures slot < |ix| && ix[slot] == FREE && Reaches(ix, hash, slot)
  {
    ghost var last := ProbeMeetsFree(ix, hash);
    var idxs := new GenIndexes(hash, |ix|);
    ghost var t := 0;
    while true
      invariant idxs.State() == After(hash, t) && idxs.size == |ix|
      invariant fresh(idxs)
      invariant Unbroken(ix, hash, t)
      invariant t <= last
      decreases last - t
    {
      slot := idxs.Next();
      assert slot == Slot(hash, |ix|, t);
      if ix[slot] == FREE {
        return;
      }
      t := t + 1;
    }
  }

  /** How one more key changes the table: its size stays, or it was full and becomes the power of two
      that the number of keys asks for. */
  ghost predicate Grown(size: nat, size': nat, filled: nat, filled': nat, used': nat) {
    || (size' == size && filled' <= filled + 1)
    || (3 * (filled + 1) > 2 * size && 2 * used' <= size' < 4 * used' && filled' == used')
  }

  class Dict<V> {
    const hashOf: nat -> HashValue
    var used: nat
    var filled: nat
    var indices: seq<IndexEntry>
    var entries: Entries<V>
    var version: nat

    ghost predicate Valid()
      reads this
    {
      Inv(hashOf, used, filled, indices, entries)
    }

    /** The dict as an insertion-ordered map. */
    ghost function Contents(): seq<Item<V>>
      reads this
    {
      Items(entries)
    }

    constructor (hashOf: nat -> HashValue)
      ensures Valid() && Contents() == [] && this.hashOf == hashOf && version == 0 && entries == []
      ensures |indices| == 8 && filled == 0
    {
      this.hashOf := hashOf;
      used := 0;
      filled := 0;
      indices := seq(8, _ => FREE);
      entries := [];
      version := 0;
      new;
      AllFree(indices);
      assert Pow2(3) == 8;
    }

    method Resize(newSize: nat)
      requires DistinctKeys(entries) && HashesOk(hashOf, entries) && |entries| <= MAX_ENTRIES
      requires used == |Items(entries)| && used >= 1 && newSize == 2 * used
      modifies this`indices, this`entries, this`filled
      ensures Valid()
      ensures Relocated(old(entries), entries) && Contents() == Items(old(entries))
      ensures newSize <= |indices| < 2 * newSize && filled == used
    {
      hide TableOk, Items, Filled, Relocated, DistinctKeys, HashesOk;
      ItemsBound(entries);
      var size := PowerOfTwoAtLeast(newSize);
      indices := seq(size, _ => FREE);
      RebuildStart(indices, entries);
      ghost var before := entries;
      assert entries[..0] == [];
      var i := 0;
      while i < |entries|
        invariant i <= |entries|
        invariant |indices| == size
        invariant Relocated(before, entries) && Items(entries) == Items(before)
        invariant TableOk(indices, entries[..i])
        invariant Filled(indices) == |Items(entries[..i])|
      {
        match entries[i] {
          case Some(entry) =>
            RoomFor(entries, i);
            var slot := FirstFree(indices, entry.hash);
            Placed(indices, entries, i, slot);
            RelocateOne(before, entries, i, slot);
            indices := indices[slot := At(i)];
            entries := entries[i := Some(entry.(index := slot))];
            RelocatedItems(before, entries);
          case None =>
            Skipped(indices, entries, i);
        }
        i := i + 1;
      }
      assert entries[..i] == entries;
      RelocatedKeys(hashOf, before, entries);
      filled := used;
    }

    function ShouldResize(): Option<nat>
      reads this
    {
      if filled * 3 > |indices| * 2 then Some(used * 2) else None
    }

    method UncheckedPush(slot: nat, hash: HashValue, key: Key, value: V, indexEntry: IndexEntry)
      requires Valid() && |entries| < MAX_ENTRIES
      requires slot < |indices| && indices[slot] == indexEntry && !indexEntry.At?
      requires hash == hashOf(key.cls) && Absent(entries, key.cls) && Reaches(indices, hash, slot)
      modifies this`used, this`filled, this`indices, this`entries
      ensures Valid() && Contents() == old(Contents()) + [(key, value)]
      ensures |entries| == old(|entries|) + 1
      ensures Grown(old(|indices|), |indices|, old(filled), filled, used)
    {
      hide TableOk, Items, Filled, Reaches, DistinctKeys, HashesOk;
      var entry := Entry(hash, key, slot, value);
      var entryIndex := |entries|;
      Pushed(hashOf, indices, entries, entry);
      entries := entries + [Some(entry)];
      indices := indices[slot := At(entryIndex)];
      used := used + 1;
      if indexEntry == FREE {
        filled := filled + 1;
        match ShouldResize() {
          case Some(newSize) => Resize(newSize);
          case None =>
        }
      }
    }

    /** Finds the slot and entry of an equal key, or the slot where it would be stored. */
    method Lookup(key: Key, hash: HashValue) returns (entry: IndexEntry, slot: nat)
      requires Valid() && hash == hashOf(key.cls)
      ensures slot < |indices| && indices[slot] == entry
      ensures entry.At? ==> Live(entries, entry.index) && entries[entry.index].value.key.cls == key.cls
      ensures !entry.At? ==> Absent(entries, key.cls) && Reaches(indices, hash, slot)
    {
      hide Reaches, Unbroken, Passed, Items, Filled, DistinctKeys, Absent;
      ghost var last := ProbeMeetsFree(indices, hash);
      var idxs := new GenIndexes(hash, |indices|);
      PassedNone(indices, entries, hash, key.cls);
      var freeSlot: Option<nat> := None;
      ghost var t := 0;
      while true
        invariant idxs.State() == After(hash, t) && idxs.size == |indices|
        invariant fresh(idxs)
        invariant Passed(indices, entries, hash, key.cls, t)
        invariant t <= last
        invariant freeSlot.Some? ==>
          freeSlot.value < |indices| && indices[freeSlot.value] == DUMMY && Reaches(indices, hash, freeSlot.value)
        decreases last - t
      {
        slot := idxs.Next();
        assert slot == Slot(hash, |indices|, t);
        PassedSlot(indices, entries, hash, key.cls, t);
        entry := indices[slot];
        match entry {
          case DUMMY =>
            if freeSlot == None { freeSlot := Some(slot); }
          case FREE =>
            FreeMeansAbsent(hashOf, indices, entries, key.cls, t);
            match freeSlot {
              case Some(free) => return DUMMY, free;
              case None => return FREE, slot;
            }
          case At(i) =>
            var found := entries[i].value;
            if key == found.key {
              return;
            } else if found.hash == hash {
              if key.cls == found.key.cls { return; }
            }
        }
        t := t + 1;
      }
    }

    /** What a lookup says about the ordered map. */
    lemma LookupMeans(key: Key, entry: IndexEntry)
      requires Valid()
      requires entry.At? ==> Live(entries, entry.index) && entries[entry.index].value.key.cls == key.cls
      requires !entry.At? ==> Absent(entries, key.cls)
      ensures entry.At? <==> Has(Contents(), key.cls)
      ensures entry.At? ==> Get(Contents(), key.cls) == Some(entries[entry.index].value.value)
    {
      if entry.At? { LiveIsItem(entries, entry.index); } else { AbsentFromItems(entries, key.cls); }
    }

    /** A mutation either counts in the version or leaves every live entry where and what it was. */
    twostate predicate Versioned()
      reads this
    {
      || version == old(version) + 1
      || (version == old(version) && SameLive(old(entries), entries))
    }

    method Insert(key: Key, value: V)
      requires Valid() && |entries| < MAX_ENTRIES
      modifies this
      ensures Valid() && Contents() == Put(old(Contents()), key, value)
      ensures version == old(version) + 1 && |entries| <= old(|entries|) + 1
      ensures Grown(old(|indices|), |indices|, old(filled), filled, used)
    {
      var hash := hashOf(key.cls);
      var indexEntry, slot := Lookup(key, hash);
      LookupMeans(key, indexEntry);
      match indexEntry {
        case At(i) =>
          Updated(hashOf, used, filled, indices, entries, i, key, value);
          entries := entries[i := Some(entries[i].value.(value := value))];
        case _ =>
          UncheckedPush(slot, hash, key, value, indexEntry);
      }
      version := version + 1;
    }

    method GetValue(key: Key) returns (r: Option<V>)
      requires Valid()
      ensures r == Get(Contents(), key.cls)
    {
      var entry, slot := Lookup(key, hashOf(key.cls));
      LookupMeans(key, entry);
      match entry {
        case At(i) => r := Some(entries[i].value.value);
        case _ => r := None;
      }
    }

    method Contains(key: Key) returns (r: bool)
      requires Valid()
      ensures r <==> Has(Contents(), key.cls)
    {
      var entry, slot := Lookup(key, hashOf(key.cls));
      LookupMeans(key, entry);
      r := entry.At?;
    }

    /** Looks in this dict, then in another one. */
    method GetChain(other: Dict<V>, key: Key) returns (r: Option<V>)
      requires Valid() && other.Valid() && other.hashOf == hashOf
      ensures r == if Has(Contents(), key.cls) then Get(Contents(), key.cls) else Get(other.Contents(), key.cls)
    {
      r := GetValue(key);
      if r == None { r := other.GetValue(key); }
    }

    /** The position of the key's entry, when it fits in 16 bits. */
    method HintForKey(key: Key) returns (r: Option<nat>)
      requires Valid()
      ensures r.Some? ==> HintsAt(entries, key.cls, r.value) && r.value <= 0xFFFF
      ensures r == None ==>
        !Has(Contents(), key.cls) || exists i :: HintsAt(entries, key.cls, i) && i > 0xFFFF
    {
      var entry, slot := Lookup(key, hashOf(key.cls));
      LookupMeans(key, entry);
      match entry {
        case At(i) =>
          r := if i <= 0xFFFF then Some(i) else None;
          assert HintsAt(entries, key.cls, i);
        case _ => r := None;
      }
    }

    /** With any hint at all the answer is either the right one or None, and it is the right one
        when the key's entry is still at the hinted position. */
    method GetHint(key: Key, hint: nat) returns (r: Option<V>)
      requires Valid()
      ensures r == None || r == Get(Contents(), key.cls)
      ensures HintsAt(entries, key.cls, hint) <==> r.Some?
    {
      if hint >= |entries| || entries[hint] == None {
        return None;
      }
      var entry := entries[hint].value;
      LiveIsItem(entries, hint);
      if key == entry.key {
        return Some(entry.value);
      }
      r := if key.cls == entry.key.cls then Some(entry.value) else None;
    }

    /** Removes the entry that a lookup found, if the predicate says so. */
    method PopInnerIf(entry: IndexEntry, slot: nat, pred: V -> Verdict) returns (r: Removal<V>)
      requires Valid() && slot < |indices| && indices[slot] == entry
      modifies this
      ensures Valid() && |entries| == old(|entries|)
      ensures !entry.At? ==> r == NotRemoved
      ensures entry.At? ==> var e := old(entries)[entry.index].value;
        r == match pred(e.value) case Remove => Removed(e.value) case Keep => NotRemoved case Raise => Raised
      ensures r.Removed? ==>
        Contents() == Drop(old(Contents()), old(entries)[entry.index].value.key.cls) && version == old(version) + 1
      ensures !r.Removed? ==> entries == old(entries) && indices == old(indices) && version == old(version)
    {
      if !entry.At? {
        return NotRemoved;
      }
      var i := entry.index;
      var value := entries[i].value.value;
      match pred(value) {
        case Raise => return Raised;
        case Keep => return NotRemoved;
        case Remove =>
      }
      Cleared(hashOf, used, filled, indices, entries, i);
      indices := indices[slot := DUMMY];
      used := used - 1;
      entries := entries[i := None];
      version := version + 1;
      r := Removed(value);
    }

    method RemoveIf(key: Key, pred: V -> Verdict) returns (r: Removal<V>)
      requires Valid()
      modifies this
      ensures Valid() && Versioned() && |entries| == old(|entries|)
      ensures r == match Get(old(Contents()), key.cls)
        case None => NotRemoved
        case Some(v) => match pred(v) case Remove => Removed(v) case Keep => NotRemoved case Raise => Raised
      ensures Contents() == if r.Removed? then Drop(old(Contents()), key.cls) else old(Contents())
    {
      var entry, slot := Lookup(key, hashOf(key.cls));
      LookupMeans(key, entry);
      r := PopInnerIf(entry, slot, pred);
    }

    method Pop(key: Key) returns (r: Option<V>)
      requires Valid()
      modifies this
      ensures Valid() && Versioned() && |entries| == old(|entries|)
      ensures r == Get(old(Contents()), key.cls) && Contents() == Drop(old(Contents()), key.cls)
    {
      var removed := RemoveIf(key, _ => Remove);
      r := if removed.Removed? then Some(removed.value) else None;
    }

    /** Deletes a key, or reports that it is missing (KeyError). */
    method Delete(key: Key) returns (found: bool)
      requires Valid()
      modifies this
      ensures Valid() && Versioned() && |entries| == old(|entries|)
      ensures found <==> Has(old(Contents()), key.cls)
      ensures Contents() == Drop(old(Contents()), key.cls)
    {
      var removed := Pop(key);
      found := removed.Some?;
    }

    method DeleteOrInsert(key: Key, value: V)
      requires Valid() && |entries| < MAX_ENTRIES
      modifies this
      ensures Valid() && Contents() == Apply(old(Contents()), Op.DeleteOrInsert(key, value))
      ensures version == old(version) + 1 && |entries| <= old(|entries|) + 1
    {
      var hash := hashOf(key.cls);
      var entry, slot := Lookup(key, hash);
      LookupMeans(key, entry);
      if entry.At? {
        var _ := PopInnerIf(entry, slot, _ => Remove);
      } else {
        UncheckedPush(slot, hash, key, value, entry);
        version := version + 1;
      }
    }

    method SetDefault(key: Key, default: V) returns (r: V)
      requires Valid() && |entries| < MAX_ENTRIES
      modifies this
      ensures Valid() && Versioned() && |entries| <= old(|entries|) + 1
      ensures Contents() == Apply(old(Contents()), Op.SetDefault(key, default))
      ensures Get(Contents(), key.cls) == Some(r)
    {
      var hash := hashOf(key.cls);
      var entry, slot := Lookup(key, hash);
      LookupMeans(key, entry);
      match entry {
        case At(i) => r := entries[i].value.value;
        case _ =>
          PutThenGet(Contents(), key, default);
          UncheckedPush(slot, hash, key, default, entry);
          version := version + 1;
          r := default;
      }
    }

    /** The loop of `pop_back`: pops cleared entries off the end. */
    method TrimEnd()
      requires Valid()
      modifies this`entries
      ensures Valid() && Contents() == old(Contents()) && |entries| <= old(|entries|)
      ensures SameLive(old(entries), entries)
      ensures entries == [] || entries[|entries| - 1].Some?
    {
      hide Inv, Items;
      var es := entries;
      while |es| > 0 && es[|es| - 1] == None
        invariant entries == old(entries)
        invariant Inv(hashOf, used, filled, indices, es) && Items(es) == Items(entries)
        invariant |es| <= |entries| && SameLive(entries, es)
      {
        DropTrailing(hashOf, used, filled, indices, es);
        SameLiveTrims(entries, es);
        es := es[..|es| - 1];
      }
      entries := es;
    }

    /** Pops trailing cleared entries and then the newest live one. */
    method PopBack() returns (r: Option<Item<V>>)
      requires Valid()
      modifies this
      ensures Valid() && Versioned() && |entries| <= old(|entries|)
      ensures r == None <==> old(Contents()) == []
      ensures r.Some? ==> old(Contents()) == Contents() + [r.value]
      ensures r == None ==> Contents() == []
    {
      hide Inv, Items;
      TrimEnd();
      if entries == [] {
        NoItems(entries);
        return None;
      }
      var n := |entries| - 1;
      SlotOf(hashOf, used, filled, indices, entries, n);
      var entry := entries[n].value;
      PoppedLast(hashOf, used, filled, indices, entries);
      entries := entries[..n];
      used := used - 1;
      indices := indices[entry.index := DUMMY];
      version := version + 1;
      r := Some((entry.key, entry.value));
    }

    method Clear()
      modifies this
      ensures Valid() && Contents() == [] && entries == [] && version == old(version) + 1
    {
      indices := seq(8, _ => FREE);
      used := 0;
      filled := 0;
      version := version + 1;
      entries := [];
      AllFree(indices);
      assert Pow2(3) == 8;
    }

    method Perform(op: Op<V>)
      requires Valid() && |entries| < MAX_ENTRIES
      modifies this
      ensures Valid() && Contents() == Apply(old(Contents()), op) && |entries| <= old(|entries|) + 1
      ensures Versioned()
    {
      match op {
        case Insert(k, v) => Insert(k, v);
        case SetDefault(k, v) => var _ := SetDefault(k, v);
        case Delete(c) => var _ := Delete(Key(0, c));
        case DeleteOrInsert(k, v) => DeleteOrInsert(k, v);
        case PopBack => var _ := PopBack();
        case Clear => Clear();
      }
    }

    method Len() returns (n: nat)
      requires Valid()
      ensures n == |Contents()|
    {
      n := used;
    }

    method NextEntry(position: nat) returns (r: Option<(nat, Key, V)>)
      requires Valid()
      ensures r == EntryFrom(entries, position)
    {
      var p := position;
      while p < |entries|
        invariant EntryFrom(entries, p) == EntryFrom(entries, position)
        decreases |entries| - p
      {
        var entry := entries[p];
        p := p + 1;
        match entry {
          case Some(e) => return Some((p, e.key, e.value));
          case None =>
        }
      }
      r := None;
    }
  }

  lemma {:induction false} ItemsBound<V>(es: Entries<V>)
    ensures |Items(es)| <= |es|
  {
    if es != [] { ItemsBound(es[..|es| - 1]); }
  }

  /** Every run of operations leaves the dict with the contents of the ordered map's run. */
  method Replay<V>(hashOf: nat -> HashValue, ops: seq<Op<V>>) returns (d: Dict<V>)
    requires |ops| <= MAX_ENTRIES
    ensures fresh(d) && d.Valid() && d.hashOf == hashOf && d.Contents() == Run(ops)
  {
    d := new Dict(hashOf);
    var i := 0;
    assert ops[..0] == [];
    while i < |ops|
      invariant i <= |ops| && fresh(d) && d.hashOf == hashOf
      invariant d.Valid() && d.Contents() == Run(ops[..i]) && |d.entries| <= i
    {
      assert ops[..i + 1][..i] == ops[..i];
      d.Perform(ops[i]);
      i := i + 1;
    }
    assert ops[..i] == ops;
  }

  lemma SameLiveTransitive<V>(a: Entries<V>, b: Entries<V>, c: Entries<V>)
    requires SameLive(a, b) && SameLive(b, c)
    ensures SameLive(a, c)
  {}

  /** A hint taken before a run of operations is still exact after it if the version is unchanged,
      and is never wrong in any case. */
  method HintAcrossRun<V>(d: Dict<V>, key: Key, ops: seq<Op<V>>) returns (hint: Option<nat>, r: Option<V>)
    requires d.Valid() && |d.entries| + |ops| <= MAX_ENTRIES
    modifies d
    ensures d.Valid()
    ensures r == None || r == Get(d.Contents(), key.cls)
    ensures hint.Some? && d.version == old(d.version) ==> r.Some? && r == Get(d.Contents(), key.cls)
  {
    hint := d.HintForKey(key);
    var i := 0;
    while i < |ops|
      invariant i <= |ops| && d.Valid() && |d.entries| <= old(|d.entries|) + i
      invariant d.version >= old(d.version)
      invariant d.version == old(d.version) ==> SameLive(old(d.entries), d.entries)
    {
      ghost var before := d.entries;
      d.Perform(ops[i]);
      if d.version == old(d.version) { SameLiveTransitive(old(d.entries), before, d.entries); }
      i := i + 1;
    }
    match hint {
      case Some(h) => r := d.GetHint(key, h);
      case None => r := None;
    }
  }
}
