/** An insertion-ordered map as a plain sequence of items: the specification of the dict. */
module OrderedMap {
  import opened Wrappers

  /** A key object: two keys are identical when they are the same object, and equal (`__eq__`)
      when they are in the same class. Every equality that respects identity has this form. */
  datatype Key = Key(obj: nat, cls: nat)

  type Item<V> = (Key, V)

  ghost predicate Distinct<V>(s: seq<Item<V>>) {
    forall i, j | 0 <= i < j < |s| :: s[i].0.cls != s[j].0.cls
  }

  /** The position of the item with a key of class c, or |s|. */
  function IndexOf<V>(s: seq<Item<V>>, c: nat): (i: nat)
    ensures i <= |s|
    ensures i < |s| ==> s[i].0.cls == c
    ensures forall j | 0 <= j < i :: s[j].0.cls != c
  {
    if s == [] then 0
    else if s[0].0.cls == c then 0
    else 1 + IndexOf(s[1..], c)
  }

  ghost predicate Has<V>(s: seq<Item<V>>, c: nat) {
    IndexOf(s, c) < |s|
  }

  function Get<V>(s: seq<Item<V>>, c: nat): Option<V> {
    var i := IndexOf(s, c);
    if i < |s| then Some(s[i].1) else None
  }

  /** Overwrites the value in place and keeps the stored key, or appends. */
  function Put<V>(s: seq<Item<V>>, k: Key, v: V): seq<Item<V>> {
    var i := IndexOf(s, k.cls);
    if i < |s| then s[i := (s[i].0, v)] else s + [(k, v)]
  }

  function Drop<V>(s: seq<Item<V>>, c: nat): seq<Item<V>> {
    var i := IndexOf(s, c);
    if i < |s| then s[..i] + s[i + 1..] else s
  }

  lemma IndexIsUnique<V>(s: seq<Item<V>>, c: nat, i: nat)
    requires Distinct(s) && i < |s| && s[i].0.cls == c
    ensures IndexOf(s, c) == i
  {
    var j := IndexOf(s, c);
    assert j <= i;
    assert forall a, b | 0 <= a < b < |s| :: s[a].0.cls != s[b].0.cls;
  }

  lemma PutThenGet<V>(s: seq<Item<V>>, k: Key, v: V)
    ensures Get(Put(s, k, v), k.cls) == Some(v)
  {
    var i, t := IndexOf(s, k.cls), Put(s, k, v);
    assert t[i].0.cls == k.cls;
    var j := IndexOf(t, k.cls);
    assert forall l | 0 <= l < i :: t[l].0.cls != k.cls;
    assert j == i;
  }

  // ---------- runs ----------

  datatype Op<V> =
    | Insert(key: Key, value: V)
    | SetDefault(key: Key, value: V)
    | Delete(cls: nat)
    | DeleteOrInsert(key: Key, value: V)
    | PopBack
    | Clear

  function Apply<V>(s: seq<Item<V>>, op: Op<V>): seq<Item<V>> {
    match op
    case Insert(k, v) => Put(s, k, v)
    case SetDefault(k, v) => if IndexOf(s, k.cls) < |s| then s else s + [(k, v)]
    case Delete(c) => Drop(s, c)
    case DeleteOrInsert(k, v) => if IndexOf(s, k.cls) < |s| then Drop(s, k.cls) else s + [(k, v)]
    case PopBack => if s == [] then s else s[..|s| - 1]
    case Clear => []
  }

  function Run<V>(ops: seq<Op<V>>): seq<Item<V>> {
    if ops == [] then [] else Apply(Run(ops[..|ops| - 1]), ops[|ops| - 1])
  }

  /** A key's entry in the reference: when it last became present, with what key object, and the
      value last stored. */
  datatype Stamped<V> = Stamped(birth: nat, key: Key, value: V)

  /** The reference model has no order at all: a map from classes to stamped entries. */
  type Reference<V> = map<nat, Stamped<V>>

  /** The present class with the latest birth is c. */
  ghost predicate Youngest<V>(m: Reference<V>, c: nat) {
    c in m && forall d | d in m :: m[d].birth <= m[c].birth
  }

  /** One operation on the reference at time `now`. */
  ghost predicate Refers<V>(m: Reference<V>, op: Op<V>, now: nat, m': Reference<V>) {
    match op
    case Insert(k, v) =>
      m' == if k.cls in m then m[k.cls := m[k.cls].(value := v)] else m[k.cls := Stamped(now, k, v)]
    case SetDefault(k, v) => m' == if k.cls in m then m else m[k.cls := Stamped(now, k, v)]
    case Delete(c) => m' == m - {c}
    case DeleteOrInsert(k, v) => m' == if k.cls in m then m - {k.cls} else m[k.cls := Stamped(now, k, v)]
    case PopBack => if m == map[] then m' == m else exists c :: Youngest(m, c) && m' == m - {c}
    case Clear => m' == map[]
  }

  /** A run of the reference: the state after each prefix of the operations. */
  ghost predicate ReferenceRun<V>(ops: seq<Op<V>>, states: seq<Reference<V>>) {
    && |states| == |ops| + 1
    && states[0] == map[]
    && forall t | 0 <= t < |ops| :: Refers(states[t], ops[t], t, states[t + 1])
  }

  ghost predicate ItemsMatch<V>(s: seq<Item<V>>, m: Reference<V>) {
    forall i | 0 <= i < |s| :: s[i].0.cls in m && s[i] == (m[s[i].0.cls].key, m[s[i].0.cls].value)
  }

  ghost predicate AllListed<V>(s: seq<Item<V>>, m: Reference<V>, now: nat) {
    forall c | c in m :: Has(s, c) && m[c].birth < now
  }

  ghost predicate ByBirth<V>(s: seq<Item<V>>, m: Reference<V>)
    requires ItemsMatch(s, m)
  {
    forall i, j | 0 <= i < j < |s| :: m[s[i].0.cls].birth < m[s[j].0.cls].birth
  }

  /** The sequence lists exactly the reference's entries, oldest first. */
  ghost predicate Lists<V>(s: seq<Item<V>>, m: Reference<V>, now: nat) {
    ItemsMatch(s, m) && AllListed(s, m, now) && ByBirth(s, m)
  }

  lemma ListsHas<V>(s: seq<Item<V>>, m: Reference<V>, now: nat, c: nat)
    requires Lists(s, m, now)
    ensures Has(s, c) <==> c in m
  {
    var i := IndexOf(s, c);
    if i < |s| { assert s[i].0.cls in m; }
  }

  lemma AppendDistinct<V>(s: seq<Item<V>>, k: Key, v: V)
    requires Distinct(s) && !Has(s, k.cls)
    ensures Distinct(s + [(k, v)])
  {}

  lemma ListsAppend<V>(s: seq<Item<V>>, m: Reference<V>, now: nat, k: Key, v: V)
    requires Distinct(s) && Lists(s, m, now) && !Has(s, k.cls)
    ensures Distinct(s + [(k, v)]) && Lists(s + [(k, v)], m[k.cls := Stamped(now, k, v)], now + 1)
  {
    var s', m' := s + [(k, v)], m[k.cls := Stamped(now, k, v)];
    AppendDistinct(s, k, v);
    forall c | c in m' ensures Has(s', c) && m'[c].birth < now + 1 {
      if c == k.cls {
        IndexIsUnique(s', c, |s|);
      } else {
        assert s'[IndexOf(s, c)].0.cls == c;
        IndexIsUnique(s', c, IndexOf(s, c));
      }
    }
  }

  lemma UpdateKeepsKeys<V>(s: seq<Item<V>>, i: nat, v: V)
    requires Distinct(s) && i < |s|
    ensures Distinct(s[i := (s[i].0, v)])
    ensures forall c | Has(s, c) :: Has(s[i := (s[i].0, v)], c)
  {
    var t := s[i := (s[i].0, v)];
    assert forall j | 0 <= j < |s| :: t[j].0 == s[j].0;
    forall c | Has(s, c) ensures Has(t, c) { IndexIsUnique(t, c, IndexOf(s, c)); }
  }

  lemma ListsUpdate<V>(s: seq<Item<V>>, m: Reference<V>, now: nat, k: Key, v: V)
    requires Distinct(s) && Lists(s, m, now) && Has(s, k.cls) && k.cls in m
    ensures Distinct(Put(s, k, v)) && Lists(Put(s, k, v), m[k.cls := m[k.cls].(value := v)], now + 1)
  {
    var i := IndexOf(s, k.cls);
    UpdateKeepsKeys(s, i, v);
    UpdateMatches(s, m, i, v);
  }

  lemma UpdateMatches<V>(s: seq<Item<V>>, m: Reference<V>, i: nat, v: V)
    requires Distinct(s) && ItemsMatch(s, m) && ByBirth(s, m) && i < |s|
    ensures var c := s[i].0.cls;
      var s', m' := s[i := (s[i].0, v)], m[c := m[c].(value := v)];
      ItemsMatch(s', m') && ByBirth(s', m')
  {
    var c := s[i].0.cls;
    var s', m' := s[i := (s[i].0, v)], m[c := m[c].(value := v)];
    forall j | 0 <= j < |s| ensures s'[j] == (m'[s'[j].0.cls].key, m'[s'[j].0.cls].value) {
      if j != i { assert s[j].0.cls != c; }
    }
    assert forall d | d in m :: m'[d].birth == m[d].birth;
    assert forall j | 0 <= j < |s| :: s'[j].0 == s[j].0;
  }

  lemma DropShape<V>(s: seq<Item<V>>, c: nat)
    requires Has(s, c)
    ensures |Drop(s, c)| == |s| - 1
    ensures forall j | 0 <= j < |s| - 1 :: Drop(s, c)[j] == s[if j < IndexOf(s, c) then j else j + 1]
  {
    DropAt(s, IndexOf(s, c), Drop(s, c));
  }

  lemma DropAt<V>(s: seq<Item<V>>, i: nat, t: seq<Item<V>>)
    requires i < |s| && t == s[..i] + s[i + 1..]
    ensures |t| == |s| - 1 && forall j | 0 <= j < |t| :: t[j] == s[if j < i then j else j + 1]
  {}

  lemma DropRemoves<V>(s: seq<Item<V>>, c: nat)
    requires Distinct(s) && Has(s, c)
    ensures Distinct(Drop(s, c)) && !Has(Drop(s, c), c)
  {
    DropShape(s, c);
    var i := IndexOf(s, c);
    forall j | 0 <= j < |s| && j != i ensures s[j].0.cls != c {
      assert j < i ==> s[j].0.cls != s[i].0.cls;
    }
  }

  lemma DropKeeps<V>(s: seq<Item<V>>, c: nat, d: nat)
    requires Distinct(s) && Has(s, c) && Has(s, d) && c != d
    ensures Has(Drop(s, c), d)
  {
    DropShape(s, c);
    DropRemoves(s, c);
    var i, j := IndexOf(s, c), IndexOf(s, d);
    IndexIsUnique(Drop(s, c), d, if j < i then j else j - 1);
  }

  lemma DropMatches<V>(s: seq<Item<V>>, m: Reference<V>, c: nat)
    requires Distinct(s) && Has(s, c) && ItemsMatch(s, m) && ByBirth(s, m)
    ensures ItemsMatch(Drop(s, c), m - {c}) && ByBirth(Drop(s, c), m - {c})
  {
    var i, t := IndexOf(s, c), Drop(s, c);
    DropShape(s, c);
    DropRemoves(s, c);
    forall j | 0 <= j < |t|
      ensures t[j].0.cls in m - {c} && t[j] == ((m - {c})[t[j].0.cls].key, (m - {c})[t[j].0.cls].value)
    {
      assert t[j] == s[if j < i then j else j + 1];
    }
  }

  lemma ListsDrop<V>(s: seq<Item<V>>, m: Reference<V>, now: nat, c: nat)
    requires Distinct(s) && Lists(s, m, now)
    ensures Distinct(Drop(s, c)) && Lists(Drop(s, c), m - {c}, now + 1)
  {
    ListsHas(s, m, now, c);
    if Has(s, c) {
      DropRemoves(s, c);
      DropMatches(s, m, c);
      forall d | d in m - {c} ensures Has(Drop(s, c), d) { DropKeeps(s, c, d); }
    } else {
      assert m - {c} == m;
    }
  }

  /** The youngest class is the last item. */
  lemma ListsPopBack<V>(s: seq<Item<V>>, m: Reference<V>, now: nat)
    requires Distinct(s) && Lists(s, m, now)
    ensures m == map[] <==> s == []
    ensures s != [] ==> forall c :: Youngest(m, c) <==> c == s[|s| - 1].0.cls
    ensures s != [] ==> Drop(s, s[|s| - 1].0.cls) == s[..|s| - 1]
  {
    if s == [] {
      assert forall c :: c in m ==> Has(s, c);
    } else {
      var last := s[|s| - 1].0.cls;
      IndexIsUnique(s, last, |s| - 1);
      assert last in m;
      forall d | d in m ensures m[d].birth <= m[last].birth && (d != last ==> m[d].birth < m[last].birth) {
        var j := IndexOf(s, d);
        assert s[j].0.cls == d;
      }
      assert Youngest(m, last);
    }
  }

  lemma StepFollows<V>(s: seq<Item<V>>, m: Reference<V>, now: nat, op: Op<V>, m': Reference<V>)
    requires Distinct(s) && Lists(s, m, now) && Refers(m, op, now, m')
    ensures Distinct(Apply(s, op)) && Lists(Apply(s, op), m', now + 1)
  {
    match op
    case Insert(k, v) =>
      ListsHas(s, m, now, k.cls);
      if k.cls in m { ListsUpdate(s, m, now, k, v); } else { ListsAppend(s, m, now, k, v); }
    case SetDefault(k, v) =>
      ListsHas(s, m, now, k.cls);
      if k.cls !in m { ListsAppend(s, m, now, k, v); }
    case Delete(c) => ListsDrop(s, m, now, c);
    case DeleteOrInsert(k, v) =>
      ListsHas(s, m, now, k.cls);
      if k.cls in m { ListsDrop(s, m, now, k.cls); } else { ListsAppend(s, m, now, k, v); }
    case PopBack =>
      ListsPopBack(s, m, now);
      if s != [] { ListsDrop(s, m, now, s[|s| - 1].0.cls); }
    case Clear =>
  }

  /** Over every run, the ordered map lists the entries of the unordered reference by the time they
      last became present: an update keeps the place, a deletion and re-insertion goes to the end. */
  lemma {:induction false} RunFollowsReference<V>(ops: seq<Op<V>>, states: seq<Reference<V>>)
    requires ReferenceRun(ops, states)
    ensures Distinct(Run(ops)) && Lists(Run(ops), states[|ops|], |ops|)
  {
    if ops != [] {
      var n := |ops| - 1;
      RunFollowsReference(ops[..n], states[..n + 1]);
      StepFollows(Run(ops[..n]), states[n], n, ops[n], states[n + 1]);
    }
  }

  lemma NextReference<V>(s: seq<Item<V>>, m: Reference<V>, now: nat, op: Op<V>) returns (m': Reference<V>)
    requires Distinct(s) && Lists(s, m, now)
    ensures Refers(m, op, now, m')
  {
    match op
    case Insert(k, v) =>
      m' := if k.cls in m then m[k.cls := m[k.cls].(value := v)] else m[k.cls := Stamped(now, k, v)];
    case SetDefault(k, v) => m' := if k.cls in m then m else m[k.cls := Stamped(now, k, v)];
    case Delete(c) => m' := m - {c};
    case DeleteOrInsert(k, v) => m' := if k.cls in m then m - {k.cls} else m[k.cls := Stamped(now, k, v)];
    case PopBack =>
      ListsPopBack(s, m, now);
      if s == [] {
        m' := m;
      } else {
        assert Youngest(m, s[|s| - 1].0.cls);
        m' := m - {s[|s| - 1].0.cls};
      }
    case Clear => m' := map[];
  }

  /** The reference has a run for every list of operations. */
  lemma {:induction false} ReferenceRunExists<V>(ops: seq<Op<V>>) returns (states: seq<Reference<V>>)
    ensures ReferenceRun(ops, states)
  {
    if ops == [] {
      states := [map[]];
    } else {
      var n := |ops| - 1;
      var before := ReferenceRunExists(ops[..n]);
      RunFollowsReference(ops[..n], before);
      var next := NextReference(Run(ops[..n]), before[n], n, ops[n]);
      states := before + [next];
      ReferenceRunExtends(ops, before, next);
    }
  }

  lemma ReferenceRunExtends<V>(ops: seq<Op<V>>, before: seq<Reference<V>>, next: Reference<V>)
    requires ops != [] && ReferenceRun(ops[..|ops| - 1], before)
    requires Refers(before[|ops| - 1], ops[|ops| - 1], |ops| - 1, next)
    ensures ReferenceRun(ops, before + [next])
  {
    var n, states := |ops| - 1, before + [next];
    forall t | 0 <= t < |ops| ensures Refers(states[t], ops[t], t, states[t + 1]) {
      if t < n { assert Refers(before[t], ops[..n][t], t, before[t + 1]); }
    }
  }

  /** The keys' order is untouched by an update, and a deleted key comes back last. */
  lemma OrderLaws<V>(s: seq<Item<V>>, k: Key, v: V)
    requires Distinct(s) && Has(s, k.cls)
    ensures |Put(s, k, v)| == |s| && forall i | 0 <= i < |s| :: Put(s, k, v)[i].0 == s[i].0
    ensures Put(Drop(s, k.cls), k, v) == Drop(s, k.cls) + [(k, v)]
  {
    DropRemoves(s, k.cls);
  }

  /** The item of a class is at position i, and no other item is of that class. */
  ghost predicate OnlyAt<V>(s: seq<Item<V>>, c: nat, i: nat) {
    i < |s| && forall j | 0 <= j < |s| :: s[j].0.cls == c <==> j == i
  }

  /** What each operation does to the items themselves. */
  lemma OperationLaws<V>(s: seq<Item<V>>, k: Key, v: V, i: nat)
    requires i <= |s| && if i < |s| then OnlyAt(s, k.cls, i) else forall j | 0 <= j < |s| :: s[j].0.cls != k.cls
    ensures Get(s, k.cls) == (if i < |s| then Some(s[i].1) else None) && (Has(s, k.cls) <==> i < |s|)
    ensures Apply(s, Insert(k, v)) == if i < |s| then s[..i] + [(s[i].0, v)] + s[i + 1..] else s + [(k, v)]
    ensures Apply(s, SetDefault(k, v)) == if i < |s| then s else s + [(k, v)]
    ensures Apply(s, Delete(k.cls)) == if i < |s| then s[..i] + s[i + 1..] else s
    ensures Apply(s, DeleteOrInsert(k, v)) == if i < |s| then s[..i] + s[i + 1..] else s + [(k, v)]
    ensures forall x :: Apply(s + [x], PopBack) == s
    ensures Apply<V>([], PopBack) == [] && Apply(s, Clear) == []
  {
    var j := IndexOf(s, k.cls);
    if i < |s| {
      assert j <= i && s[j].0.cls == k.cls;
    }
    assert j == i;
    forall x ensures Apply(s + [x], PopBack) == s { assert (s + [x])[..|s|] == s; }
  }
}
