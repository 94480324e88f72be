/** Bounded conversion between Python objects and JSON values (value.rs). */
module ValueConversion {
  import opened Wrappers
  import CapturedOutput

  const MAX_DEPTH: nat := 32
  const MAX_NODES: nat := 10_000
  const MAX_SAFE_INTEGER: int := 9_007_199_254_740_991

  type Id = nat

  /** A float by its bits; only finite ones are JSON numbers. */
  datatype Float = Finite(bits: nat) | NonFinite

  /** A dict key: an exact string, a string that is not valid UTF-8, or something else. */
  datatype Key = Text(s: string) | NotUtf8 | NotString

  /** A Python object as the conversion looks at it; references may be shared and cyclic. */
  datatype Object =
    | NoneObject
    | BoolObject(b: bool)
    | IntObject(i: int)
    | FloatObject(f: Float)
    | StrObject(text: Option<string>)
    | ListObject(items: seq<Id>)
    | TupleObject(items: seq<Id>)
    | DictObject(entries: seq<(Key, Id)>)
    | OtherObject

  /** Objects in the order they were allocated. */
  type Heap = seq<Object>

  datatype Json =
    | Null
    | Bool(b: bool)
    | Integer(i: int)
    | Real(bits: nat)
    | String(s: string)
    | Array(items: seq<Json>)
    | Map(entries: seq<Member>)

  datatype Member = Member(key: string, value: Json)

  // ---------- what a value is ----------

  function Max(a: nat, b: nat): nat { if a < b then b else a }

  function Depth(v: Json): (d: nat)
    ensures d >= 1
  {
    match v
    case Array(items) => 1 + DepthAll(items)
    case Map(entries) => 1 + DepthEntries(entries)
    case _ => 1
  }

  function DepthAll(items: seq<Json>): nat {
    if items == [] then 0 else Max(Depth(items[0]), DepthAll(items[1..]))
  }

  function DepthEntries(entries: seq<Member>): nat {
    if entries == [] then 0 else Max(Depth(entries[0].value), DepthEntries(entries[1..]))
  }

  /** Values and keys. */
  function Nodes(v: Json): (n: nat)
    ensures n >= 1
  {
    match v
    case Array(items) => 1 + NodesAll(items)
    case Map(entries) => 1 + NodesEntries(entries)
    case _ => 1
  }

  function NodesAll(items: seq<Json>): nat {
    if items == [] then 0 else Nodes(items[0]) + NodesAll(items[1..])
  }

  function NodesEntries(entries: seq<Member>): nat {
    if entries == [] then 0 else 1 + Nodes(entries[0].value) + NodesEntries(entries[1..])
  }

  /** A value inside n containers of one kind. */
  function Nested(n: nat, maps: bool): Json {
    if n == 0 then Null
    else if maps then Map([Member("k", Nested(n - 1, maps))])
    else Array([Nested(n - 1, maps)])
  }

  /** Each container around a value is a level and a node, and a map's key is a node more. */
  lemma {:induction false} NestedMeasures(n: nat, maps: bool)
    ensures Depth(Nested(n, maps)) == n + 1 && Nodes(Nested(n, maps)) == if maps then 2 * n + 1 else n + 1
  {
    if n > 0 {
      NestedMeasures(n - 1, maps);
      var x := Nested(n - 1, maps);
      var items, ms := [x], [Member("k", x)];
      assert items[1..] == [] && ms[1..] == [];
      assert DepthAll(items) == Depth(x) == DepthEntries(ms);
      assert NodesAll(items) == Nodes(x) && NodesEntries(ms) == 1 + Nodes(x);
    }
  }

  /** Items and members add up. */
  lemma {:induction false} FlatItems(items: seq<Json>)
    requires forall i | 0 <= i < |items| :: items[i] == Null
    ensures NodesAll(items) == |items| && DepthAll(items) == if items == [] then 0 else 1
    ensures Nodes(Array(items)) == |items| + 1 && Depth(Array(items)) == if items == [] then 1 else 2
  {
    if items != [] {
      FlatItems(items[1..]);
    }
  }

  lemma {:induction false} FlatMembers(ms: seq<Member>)
    requires forall i | 0 <= i < |ms| :: ms[i].value == Null
    ensures NodesEntries(ms) == 2 * |ms| && DepthEntries(ms) == if ms == [] then 0 else 1
    ensures Nodes(Map(ms)) == 2 * |ms| + 1 && Depth(Map(ms)) == if ms == [] then 1 else 2
  {
    if ms != [] {
      FlatMembers(ms[1..]);
    }
  }

  predicate SafeInteger(i: int): (b: bool)
    ensures b <==> -0x1F_FFFF_FFFF_FFFF <= i <= 0x1F_FFFF_FFFF_FFFF
  {
    -MAX_SAFE_INTEGER <= i <= MAX_SAFE_INTEGER
  }

  /** References lead to objects, and a dict holds each string key once. */
  ghost predicate Closed(h: Heap) {
    forall o | 0 <= o < |h| :: Sound(h[o], |h|)
  }

  ghost predicate Sound(obj: Object, n: nat) {
    && (forall c <- Children(obj) :: c < n)
    && (obj.DictObject? ==> OnceEach(obj.entries))
  }

  ghost predicate OnceEach(entries: seq<(Key, Id)>) {
    forall i, j | 0 <= i < j < |entries| && entries[i].0.Text? :: entries[i].0 != entries[j].0
  }

  function Ids(entries: seq<(Key, Id)>): (ids: seq<Id>)
    ensures |ids| == |entries|
    ensures forall i | 0 <= i < |ids| :: ids[i] == entries[i].1
  {
    seq(|entries|, i requires 0 <= i < |entries| => entries[i].1)
  }

  function Children(obj: Object): seq<Id> {
    match obj
    case ListObject(items) => items
    case TupleObject(items) => items
    case DictObject(entries) => Ids(entries)
    case _ => []
  }

  /** v is the unfolding of object o: the tree that following its references spells out. */
  ghost predicate Represents(h: Heap, o: Id, v: Json)
    decreases v
  {
    && o < |h|
    && match h[o]
       case NoneObject => v == Null
       case BoolObject(b) => v == Bool(b)
       case IntObject(i) => v == Integer(i) && SafeInteger(i)
       case FloatObject(f) => f.Finite? && v == Real(f.bits)
       case StrObject(text) => text.Some? && v == String(text.value)
       case ListObject(items) => v.Array? && RepresentsAll(h, items, v.items)
       case TupleObject(items) => v.Array? && RepresentsAll(h, items, v.items)
       case DictObject(entries) => v.Map? && RepresentsEntries(h, entries, v.entries)
       case OtherObject => false
  }

  ghost predicate RepresentsAll(h: Heap, ids: seq<Id>, vs: seq<Json>)
    decreases vs
  {
    |ids| == |vs| && (vs != [] ==> Represents(h, ids[0], vs[0]) && RepresentsAll(h, ids[1..], vs[1..]))
  }

  ghost predicate RepresentsEntries(h: Heap, entries: seq<(Key, Id)>, vs: seq<Member>)
    decreases vs
  {
    && |entries| == |vs|
    && (vs != [] ==>
          && entries[0].0 == Text(vs[0].key) && Represents(h, entries[0].1, vs[0].value)
          && RepresentsEntries(h, entries[1..], vs[1..]))
  }

  // ---------- unfolding to a depth ----------

  function Unfold(h: Heap, o: Id, d: nat): Option<Json>
    decreases d, 0
  {
    if d == 0 || o >= |h| then None
    else match h[o]
      case NoneObject => Some(Null)
      case BoolObject(b) => Some(Bool(b))
      case IntObject(i) => if SafeInteger(i) then Some(Integer(i)) else None
      case FloatObject(f) => if f.Finite? then Some(Real(f.bits)) else None
      case StrObject(text) => if text.Some? then Some(String(text.value)) else None
      case ListObject(items) => OfItems(UnfoldAll(h, items, d - 1))
      case TupleObject(items) => OfItems(UnfoldAll(h, items, d - 1))
      case DictObject(entries) => OfEntries(UnfoldEntries(h, entries, d - 1))
      case OtherObject => None
  }

  function OfItems(vs: Option<seq<Json>>): Option<Json> {
    if vs.Some? then Some(Array(vs.value)) else None
  }

  function OfEntries(vs: Option<seq<Member>>): Option<Json> {
    if vs.Some? then Some(Map(vs.value)) else None
  }

  function UnfoldAll(h: Heap, ids: seq<Id>, d: nat): Option<seq<Json>>
    decreases d, 1, |ids|
  {
    if ids == [] then Some([])
    else match Unfold(h, ids[0], d)
      case None => None
      case Some(v) => Join([v], UnfoldAll(h, ids[1..], d))
  }

  function UnfoldEntries(h: Heap, entries: seq<(Key, Id)>, d: nat): Option<seq<Member>>
    decreases d, 1, |entries|
  {
    if entries == [] then Some([])
    else match Unfold(h, entries[0].1, d)
      case None => None
      case Some(v) =>
        if entries[0].0.Text? then Join([Member(entries[0].0.s, v)], UnfoldEntries(h, entries[1..], d)) else None
  }

  function Join<T>(a: seq<T>, o: Option<seq<T>>): Option<seq<T>> {
    if o.Some? then Some(a + o.value) else None
  }

  lemma JoinMore<T>(a: seq<T>, b: seq<T>, o: Option<seq<T>>)
    ensures Join(a, Join(b, o)) == Join(a + b, o)
  {
    if o.Some? { assert a + (b + o.value) == a + b + o.value; }
  }

  /** Unfolding to depth d finds exactly the trees of at most that depth. */
  lemma {:induction false} UnfoldExact(h: Heap, o: Id, d: nat, v: Json)
    ensures Unfold(h, o, d) == Some(v) <==> Represents(h, o, v) && Depth(v) <= d
    decreases d, 0
  {
    if d > 0 && o < |h| {
      match h[o]
      case ListObject(items) => if v.Array? { UnfoldAllExact(h, items, d - 1, v.items); }
      case TupleObject(items) => if v.Array? { UnfoldAllExact(h, items, d - 1, v.items); }
      case DictObject(entries) => if v.Map? { UnfoldEntriesExact(h, entries, d - 1, v.entries); }
      case _ =>
    }
  }

  lemma {:induction false} UnfoldAllExact(h: Heap, ids: seq<Id>, d: nat, vs: seq<Json>)
    ensures UnfoldAll(h, ids, d) == Some(vs) <==> RepresentsAll(h, ids, vs) && DepthAll(vs) <= d
    decreases d, 1, |ids|
  {
    if ids != [] && vs != [] {
      UnfoldExact(h, ids[0], d, vs[0]);
      UnfoldAllExact(h, ids[1..], d, vs[1..]);
      assert vs == [vs[0]] + vs[1..];
      UnfoldAllCons(h, ids, d, vs);
    } else if ids != [] {
      UnfoldAllNonEmpty(h, ids, d);
    }
  }

  lemma UnfoldAllNonEmpty(h: Heap, ids: seq<Id>, d: nat)
    requires ids != []
    ensures UnfoldAll(h, ids, d) != Some([])
  {}

  lemma UnfoldAllCons(h: Heap, ids: seq<Id>, d: nat, vs: seq<Json>)
    requires ids != [] && vs != []
    ensures UnfoldAll(h, ids, d) == Some(vs) <==>
      Unfold(h, ids[0], d) == Some(vs[0]) && UnfoldAll(h, ids[1..], d) == Some(vs[1..])
  {
    assert vs == [vs[0]] + vs[1..];
    var u := UnfoldAll(h, ids[1..], d);
    if Unfold(h, ids[0], d).Some? && u.Some? {
      assert ([Unfold(h, ids[0], d).value] + u.value)[1..] == u.value;
    }
  }

  lemma {:induction false} UnfoldEntriesExact(h: Heap, entries: seq<(Key, Id)>, d: nat, vs: seq<Member>)
    ensures UnfoldEntries(h, entries, d) == Some(vs) <==> RepresentsEntries(h, entries, vs) && DepthEntries(vs) <= d
    decreases d, 1, |entries|
  {
    if entries != [] && vs != [] {
      UnfoldExact(h, entries[0].1, d, vs[0].value);
      UnfoldEntriesExact(h, entries[1..], d, vs[1..]);
      UnfoldEntriesCons(h, entries, d, vs);
    } else if entries != [] {
      UnfoldEntriesNonEmpty(h, entries, d);
    }
  }

  lemma UnfoldEntriesNonEmpty(h: Heap, entries: seq<(Key, Id)>, d: nat)
    requires entries != []
    ensures UnfoldEntries(h, entries, d) != Some([])
  {}

  lemma UnfoldEntriesCons(h: Heap, entries: seq<(Key, Id)>, d: nat, vs: seq<Member>)
    requires entries != [] && vs != []
    ensures UnfoldEntries(h, entries, d) == Some(vs) <==>
      && entries[0].0 == Text(vs[0].key) && Unfold(h, entries[0].1, d) == Some(vs[0].value)
      && UnfoldEntries(h, entries[1..], d) == Some(vs[1..])
  {
    assert vs == [vs[0]] + vs[1..];
    var u := UnfoldEntries(h, entries[1..], d);
    if Unfold(h, entries[0].1, d).Some? && u.Some? && entries[0].0.Text? {
      assert ([Member(entries[0].0.s, Unfold(h, entries[0].1, d).value)] + u.value)[1..] == u.value;
    }
  }

  // ---------- cycles ----------

  /** A non-empty path of references. */
  ghost predicate Linked(h: Heap, path: seq<Id>) {
    && (forall i | 0 <= i < |path| :: path[i] < |h|)
    && (forall i, j | 0 <= i < j < |path| && j == i + 1 :: path[j] in Children(h[path[i]]))
  }

  /** A child unfolds one level less, to a strictly smaller tree. */
  lemma ChildUnfolds(h: Heap, o: Id, c: Id, d: nat)
    requires o < |h| && c in Children(h[o]) && Unfold(h, o, d).Some?
    ensures d > 0 && Unfold(h, c, d - 1).Some?
    ensures Nodes(Unfold(h, c, d - 1).value) < Nodes(Unfold(h, o, d).value)
  {
    hide UnfoldAll, UnfoldEntries, NodesAll, NodesEntries;
    var k :| 0 <= k < |Children(h[o])| && Children(h[o])[k] == c;
    match h[o]
    case ListObject(items) => ItemUnfolds(h, items, d - 1, k);
    case TupleObject(items) => ItemUnfolds(h, items, d - 1, k);
    case DictObject(entries) => EntryUnfolds(h, entries, d - 1, k);
  }

  lemma {:induction false} ItemUnfolds(h: Heap, ids: seq<Id>, d: nat, k: nat)
    requires k < |ids| && UnfoldAll(h, ids, d).Some?
    ensures Unfold(h, ids[k], d).Some?
    ensures Nodes(Unfold(h, ids[k], d).value) <= NodesAll(UnfoldAll(h, ids, d).value)
    decreases |ids|
  {
    var v, u := Unfold(h, ids[0], d), UnfoldAll(h, ids[1..], d);
    assert ([v.value] + u.value)[1..] == u.value;
    if k > 0 { ItemUnfolds(h, ids[1..], d, k - 1); }
  }

  lemma {:induction false} EntryUnfolds(h: Heap, entries: seq<(Key, Id)>, d: nat, k: nat)
    requires k < |entries| && UnfoldEntries(h, entries, d).Some?
    ensures Unfold(h, entries[k].1, d).Some?
    ensures Nodes(Unfold(h, entries[k].1, d).value) <= NodesEntries(UnfoldEntries(h, entries, d).value)
    decreases |entries|
  {
    var v, u := Unfold(h, entries[0].1, d), UnfoldEntries(h, entries[1..], d);
    assert ([Member(entries[0].0.s, v.value)] + u.value)[1..] == u.value;
    if k > 0 { EntryUnfolds(h, entries[1..], d, k - 1); }
  }

  lemma {:induction false} PathShrinks(h: Heap, path: seq<Id>, d: nat)
    requires path != [] && Linked(h, path) && Unfold(h, path[0], d).Some?
    ensures var n := |path| - 1;
      && n <= d && Unfold(h, path[n], d - n).Some?
      && Nodes(Unfold(h, path[n], d - n).value) + n <= Nodes(Unfold(h, path[0], d).value)
    decreases |path|
  {
    if |path| > 1 {
      ChildUnfolds(h, path[0], path[1], d);
      PathShrinks(h, path[1..], d - 1);
    }
  }

  lemma Deeper(h: Heap, o: Id, d: nat, e: nat)
    requires d <= e && Unfold(h, o, d).Some?
    ensures Unfold(h, o, e) == Unfold(h, o, d)
  {
    UnfoldExact(h, o, d, Unfold(h, o, d).value);
    UnfoldExact(h, o, e, Unfold(h, o, d).value);
  }

  /** An object that reaches itself unfolds at no depth. */
  lemma CyclesNeverUnfold(h: Heap, path: seq<Id>, d: nat)
    requires |path| > 1 && Linked(h, path) && path[0] == path[|path| - 1]
    ensures Unfold(h, path[0], d) == None
  {
    var n := |path| - 1;
    if n <= d && Unfold(h, path[0], d - n).Some? {
      Deeper(h, path[0], d - n, d);
    }
    if Unfold(h, path[0], d).Some? {
      PathShrinks(h, path, d);
    }
  }

  // ---------- the conversion ----------

  class Budget {
    var nodes: nat
    var ancestors: set<Id>

    constructor ()
      ensures nodes == 0 && ancestors == {}
    {
      nodes, ancestors := 0, {};
    }

    method Visit(depth: nat) returns (ok: bool)
      modifies this
      ensures ancestors == old(ancestors)
      ensures ok <==> depth <= MAX_DEPTH && old(nodes) < MAX_NODES
      ensures ok ==> nodes == old(nodes) + 1
    {
      if depth > MAX_DEPTH {
        return false;
      }
      nodes := nodes + 1;
      ok := nodes <= MAX_NODES;
    }

    method VisitKey() returns (ok: bool)
      modifies this
      ensures ancestors == old(ancestors)
      ensures ok <==> old(nodes) < MAX_NODES
      ensures ok ==> nodes == old(nodes) + 1
    {
      nodes := nodes + 1;
      ok := nodes <= MAX_NODES;
    }

    method EnterContainer(id: Id) returns (ok: bool)
      modifies this
      ensures nodes == old(nodes) && ancestors == old(ancestors) + {id}
      ensures ok <==> id !in old(ancestors)
    {
      ok := id !in ancestors;
      ancestors := ancestors + {id};
    }

    method LeaveContainer(id: Id)
      modifies this
      ensures nodes == old(nodes) && ancestors == old(ancestors) - {id}
    {
      ancestors := ancestors - {id};
    }
  }

  /** What the conversion should return for an unfolding, with some nodes already spent. */
  function Charged(u: Option<Json>, spent: nat): Option<Json> {
    if u.Some? && spent + Nodes(u.value) <= MAX_NODES then u else None
  }

  function ChargedAll(u: Option<seq<Json>>, spent: nat): Option<seq<Json>> {
    if u.Some? && spent + NodesAll(u.value) <= MAX_NODES then u else None
  }

  function ChargedEntries(u: Option<seq<Member>>, spent: nat): Option<seq<Member>> {
    if u.Some? && spent + NodesEntries(u.value) <= MAX_NODES then u else None
  }

  /** The ancestors are the containers on the path from the root, and o hangs below the last. */
  ghost predicate Below(h: Heap, ancestors: set<Id>, chain: seq<Id>, o: Id) {
    Linked(h, chain + [o]) && forall a :: a in ancestors <==> a in chain
  }

  /** An object that is its own ancestor unfolds at no depth, so refusing it refuses nothing else. */
  lemma AncestorsNeverUnfold(h: Heap, ancestors: set<Id>, chain: seq<Id>, o: Id, d: nat)
    requires Below(h, ancestors, chain, o) && o in ancestors
    ensures Unfold(h, o, d) == None
  {
    var k :| 0 <= k < |chain| && chain[k] == o;
    var path := (chain + [o])[k..];
    CyclesNeverUnfold(h, path, d);
  }

  lemma ChildBelow(h: Heap, ancestors: set<Id>, chain: seq<Id>, o: Id, c: Id)
    requires Below(h, ancestors, chain, o) && Closed(h) && o < |h| && c in Children(h[o])
    ensures Below(h, ancestors + {o}, chain + [o], c)
  {
    assert Sound(h[o], |h|);
  }

  lemma InHeap(h: Heap, ancestors: set<Id>, chain: seq<Id>, o: Id)
    requires Below(h, ancestors, chain, o)
    ensures o < |h|
  {
    assert (chain + [o])[|chain|] == o;
  }

  /** `py_to_json_inner`: the unfolding, if the levels and nodes left allow it; the ancestors are
      as before on every exit. */
  method PyToJson(h: Heap, o: Id, depth: nat, budget: Budget, ghost chain: seq<Id>) returns (r: Option<Json>)
    requires Closed(h) && 1 <= depth <= MAX_DEPTH + 1 && budget.nodes <= MAX_NODES
    requires Below(h, budget.ancestors, chain, o)
    modifies budget
    ensures budget.ancestors == old(budget.ancestors)
    ensures r == Charged(Unfold(h, o, MAX_DEPTH + 1 - depth), old(budget.nodes))
    ensures r.Some? ==> budget.nodes == old(budget.nodes) + Nodes(r.value)
    decreases MAX_DEPTH + 1 - depth, 0
  {
    hide Closed, Below, UnfoldAll, UnfoldEntries;
    NothingLeftHere(h, o, MAX_DEPTH + 1 - depth, budget.nodes);
    InHeap(h, budget.ancestors, chain, o);
    var ok := budget.Visit(depth);
    if !ok {
      return None;
    }
    match h[o] {
      case NoneObject => r := Some(Null);
      case BoolObject(b) => r := Some(Bool(b));
      case IntObject(i) => r := if SafeInteger(i) then Some(Integer(i)) else None;
      case FloatObject(f) => r := if f.Finite? then Some(Real(f.bits)) else None;
      case StrObject(text) => r := if text.Some? then Some(String(text.value)) else None;
      case OtherObject => r := None;
      case ListObject(items) => r := ListToJson(h, o, items, depth + 1, budget, chain);
      case TupleObject(items) => r := ListToJson(h, o, items, depth + 1, budget, chain);
      case DictObject(entries) => r := DictToJson(h, o, entries, depth + 1, budget, chain);
    }
  }

  lemma NothingLeftHere(h: Heap, o: Id, d: nat, spent: nat)
    ensures d == 0 || spent >= MAX_NODES ==> Charged(Unfold(h, o, d), spent) == None
  {}

  /** Lists and tuples: enter, convert the items in order up to the first failure, leave. */
  method ListToJson(h: Heap, o: Id, items: seq<Id>, depth: nat, budget: Budget, ghost chain: seq<Id>)
      returns (r: Option<Json>)
    requires Closed(h) && 2 <= depth <= MAX_DEPTH + 1 && budget.nodes <= MAX_NODES
    requires Below(h, budget.ancestors, chain, o) && o < |h| && Children(h[o]) == items
    requires h[o].ListObject? || h[o].TupleObject?
    modifies budget
    ensures budget.ancestors == old(budget.ancestors)
    ensures r == OfItems(ChargedAll(UnfoldAll(h, items, MAX_DEPTH + 1 - depth), old(budget.nodes)))
    ensures r.Some? ==> budget.nodes == old(budget.nodes) + Nodes(r.value) - 1
    decreases MAX_DEPTH + 1 - depth, 1
  {
    hide ItemsInv, Closed, Below, Unfold, UnfoldAll, NodesAll, ChargedAll;
    ghost var d: nat := MAX_DEPTH + 1 - depth;
    ghost var spent, ancestors := budget.nodes, budget.ancestors;
    var entered := budget.EnterContainer(o);
    if !entered {
      ListRefused(h, ancestors, chain, o, d, spent);
      return None;
    }
    var vs: seq<Json> := [];
    ItemsStart(h, items, d, spent);
    for i := 0 to |items|
      invariant budget.ancestors == ancestors + {o} && o !in ancestors
      invariant budget.nodes == spent + NodesAll(vs) <= MAX_NODES
      invariant ItemsInv(h, items, d, spent, i, vs)
    {
      ChildBelow(h, ancestors, chain, o, items[i]);
      var v := PyToJson(h, items[i], depth, budget, chain + [o]);
      ItemsStep(h, items, d, spent, i, vs);
      if v == None {
        budget.LeaveContainer(o);
        return None;
      }
      vs := vs + [v.value];
    }
    ItemsEnd(h, items, d, spent, vs);
    budget.LeaveContainer(o);
    r := Some(Array(vs));
  }

  /** vs are the first i items, and the rest decides. */
  ghost predicate ItemsInv(h: Heap, items: seq<Id>, d: nat, spent: nat, i: nat, vs: seq<Json>) {
    i <= |items| && UnfoldAll(h, items, d) == Join(vs, UnfoldAll(h, items[i..], d))
  }

  lemma ListRefused(h: Heap, ancestors: set<Id>, chain: seq<Id>, o: Id, d: nat, spent: nat)
    requires Below(h, ancestors, chain, o) && o in ancestors && o < |h| && (h[o].ListObject? || h[o].TupleObject?)
    ensures OfItems(ChargedAll(UnfoldAll(h, Children(h[o]), d), spent)) == None
  {
    AncestorsNeverUnfold(h, ancestors, chain, o, d + 1);
  }

  lemma ItemsStart(h: Heap, items: seq<Id>, d: nat, spent: nat)
    ensures ItemsInv(h, items, d, spent, 0, []) && NodesAll([]) == 0
  {
    var u := UnfoldAll(h, items, d);
    assert items[0..] == items;
    if u.Some? { assert [] + u.value == u.value; }
  }

  lemma ItemsStep(h: Heap, items: seq<Id>, d: nat, spent: nat, i: nat, vs: seq<Json>)
    requires i < |items| && ItemsInv(h, items, d, spent, i, vs)
    ensures var v := Charged(Unfold(h, items[i], d), spent + NodesAll(vs));
      if v == None then ChargedAll(UnfoldAll(h, items, d), spent) == None
      else
        && ItemsInv(h, items, d, spent, i + 1, vs + [v.value])
        && NodesAll(vs + [v.value]) == NodesAll(vs) + Nodes(v.value)
        && spent + NodesAll(vs + [v.value]) <= MAX_NODES
  {
    hide Unfold;
    var rest := UnfoldAll(h, items[i + 1..], d);
    assert items[i..][0] == items[i] && items[i..][1..] == items[i + 1..];
    var u := Unfold(h, items[i], d);
    if u.Some? {
      JoinMore(vs, [u.value], rest);
      NodesAppend(vs, [u.value]);
      if rest.Some? {
        NodesAppend(vs + [u.value], rest.value);
      }
    }
  }

  lemma ItemsEnd(h: Heap, items: seq<Id>, d: nat, spent: nat, vs: seq<Json>)
    requires ItemsInv(h, items, d, spent, |items|, vs) && spent + NodesAll(vs) <= MAX_NODES
    ensures ChargedAll(UnfoldAll(h, items, d), spent) == Some(vs)
    ensures Nodes(Array(vs)) == 1 + NodesAll(vs)
  {
    assert items[|items|..] == [];
    assert vs + [] == vs;
  }

  lemma {:induction false} NodesAppend(a: seq<Json>, b: seq<Json>)
    ensures NodesAll(a + b) == NodesAll(a) + NodesAll(b)
  {
    if a == [] {
      assert a + b == b;
    } else {
      assert (a + b)[1..] == a[1..] + b;
      NodesAppend(a[1..], b);
    }
  }

  /** Dicts: the key is counted before it is looked at. */
  method DictToJson(h: Heap, o: Id, entries: seq<(Key, Id)>, depth: nat, budget: Budget, ghost chain: seq<Id>)
    returns (r: Option<Json>)
    requires Closed(h) && 2 <= depth <= MAX_DEPTH + 1 && budget.nodes <= MAX_NODES
    requires Below(h, budget.ancestors, chain, o) && o < |h| && h[o] == DictObject(entries)
    modifies budget
    ensures budget.ancestors == old(budget.ancestors)
    ensures r == OfEntries(ChargedEntries(UnfoldEntries(h, entries, MAX_DEPTH + 1 - depth), old(budget.nodes)))
    ensures r.Some? ==> budget.nodes == old(budget.nodes) + Nodes(r.value) - 1
    decreases MAX_DEPTH + 1 - depth, 1
  {
    hide EntriesInv, Closed, Below, Unfold, UnfoldEntries, NodesEntries, ChargedEntries, Insert;
    ghost var d: nat := MAX_DEPTH + 1 - depth;
    ghost var spent, ancestors := budget.nodes, budget.ancestors;
    var entered := budget.EnterContainer(o);
    if !entered {
      DictRefused(h, ancestors, chain, o, d, spent);
      return None;
    }
    var output: seq<Member> := [];
    EntriesStart(h, entries, d, spent);
    for i := 0 to |entries|
      invariant budget.ancestors == ancestors + {o} && o !in ancestors
      invariant budget.nodes == spent + NodesEntries(output) <= MAX_NODES
      invariant EntriesInv(h, entries, d, spent, i, output)
    {
      EntriesStep(h, entries, d, spent, i, output);
      KeyIsNew(h, o, entries, d, spent, i, output);
      assert entries[i].1 in Children(h[o]) by { assert Ids(entries)[i] == entries[i].1; }
      ChildBelow(h, ancestors, chain, o, entries[i].1);
      var counted := budget.VisitKey();
      if !counted || !entries[i].0.Text? {
        budget.LeaveContainer(o);
        return None;
      }
      var v := PyToJson(h, entries[i].1, depth, budget, chain + [o]);
      if v == None {
        budget.LeaveContainer(o);
        return None;
      }
      output := Insert(output, entries[i].0.s, v.value);
    }
    EntriesEnd(h, entries, d, spent, output);
    budget.LeaveContainer(o);
    r := Some(Map(output));
  }

  ghost predicate EntriesInv(h: Heap, entries: seq<(Key, Id)>, d: nat, spent: nat, i: nat, vs: seq<Member>) {
    && i <= |entries| && UnfoldEntries(h, entries, d) == Join(vs, UnfoldEntries(h, entries[i..], d))
    && |vs| == i && forall k | 0 <= k < i :: entries[k].0 == Text(vs[k].key)
  }

  /** `Map::insert`. */
  function Insert(m: seq<Member>, key: string, v: Json): seq<Member> {
    if m == [] then [Member(key, v)]
    else if m[0].key == key then [Member(key, v)] + m[1..]
    else [m[0]] + Insert(m[1..], key, v)
  }

  lemma {:induction false} InsertNew(m: seq<Member>, key: string, v: Json)
    requires forall k | 0 <= k < |m| :: m[k].key != key
    ensures Insert(m, key, v) == m + [Member(key, v)]
  {
    if m != [] { InsertNew(m[1..], key, v); }
  }

  lemma KeyIsNew(h: Heap, o: Id, entries: seq<(Key, Id)>, d: nat, spent: nat, i: nat, vs: seq<Member>)
    requires Closed(h) && o < |h| && h[o] == DictObject(entries) && i < |entries|
    requires EntriesInv(h, entries, d, spent, i, vs)
    ensures entries[i].0.Text? ==> forall v :: Insert(vs, entries[i].0.s, v) == vs + [Member(entries[i].0.s, v)]
  {
    if entries[i].0.Text? {
      var key := entries[i].0.s;
      assert Sound(h[o], |h|);
      forall v ensures Insert(vs, key, v) == vs + [Member(key, v)] {
        InsertNew(vs, key, v);
      }
    }
  }

  lemma DictRefused(h: Heap, ancestors: set<Id>, chain: seq<Id>, o: Id, d: nat, spent: nat)
    requires Below(h, ancestors, chain, o) && o in ancestors && o < |h| && h[o].DictObject?
    ensures OfEntries(ChargedEntries(UnfoldEntries(h, h[o].entries, d), spent)) == None
  {
    AncestorsNeverUnfold(h, ancestors, chain, o, d + 1);
  }

  lemma EntriesStart(h: Heap, entries: seq<(Key, Id)>, d: nat, spent: nat)
    ensures EntriesInv(h, entries, d, spent, 0, []) && NodesEntries([]) == 0
  {
    var u := UnfoldEntries(h, entries, d);
    assert entries[0..] == entries;
    if u.Some? { assert [] + u.value == u.value; }
  }

  lemma EntriesStep(h: Heap, entries: seq<(Key, Id)>, d: nat, spent: nat, i: nat, vs: seq<Member>)
    requires i < |entries| && EntriesInv(h, entries, d, spent, i, vs) && spent + NodesEntries(vs) <= MAX_NODES
    ensures var key, v := entries[i].0, Charged(Unfold(h, entries[i].1, d), spent + NodesEntries(vs) + 1);
      if v == None || !key.Text? then ChargedEntries(UnfoldEntries(h, entries, d), spent) == None
      else
        && EntriesInv(h, entries, d, spent, i + 1, vs + [Member(key.s, v.value)])
        && NodesEntries(vs + [Member(key.s, v.value)]) == NodesEntries(vs) + 1 + Nodes(v.value)
        && spent + NodesEntries(vs + [Member(key.s, v.value)]) <= MAX_NODES
  {
    hide Unfold;
    var rest := UnfoldEntries(h, entries[i + 1..], d);
    assert entries[i..][0] == entries[i] && entries[i..][1..] == entries[i + 1..];
    var u, key := Unfold(h, entries[i].1, d), entries[i].0;
    if u.Some? && key.Text? {
      var more := [Member(key.s, u.value)];
      JoinMore(vs, more, rest);
      EntryNodesAppend(vs, more);
      if rest.Some? {
        EntryNodesAppend(vs + more, rest.value);
      }
    }
  }

  lemma EntriesEnd(h: Heap, entries: seq<(Key, Id)>, d: nat, spent: nat, vs: seq<Member>)
    requires EntriesInv(h, entries, d, spent, |entries|, vs) && spent + NodesEntries(vs) <= MAX_NODES
    ensures ChargedEntries(UnfoldEntries(h, entries, d), spent) == Some(vs)
    ensures Nodes(Map(vs)) == 1 + NodesEntries(vs)
  {
    assert entries[|entries|..] == [];
    assert vs + [] == vs;
  }

  lemma {:induction false} EntryNodesAppend(a: seq<Member>, b: seq<Member>)
    ensures NodesEntries(a + b) == NodesEntries(a) + NodesEntries(b)
  {
    if a == [] {
      assert a + b == b;
    } else {
      assert (a + b)[1..] == a[1..] + b;
      EntryNodesAppend(a[1..], b);
    }
  }

  // ---------- the encoded length ----------

  function Digits(n: nat): (d: seq<Byte>)
    ensures d != []
  {
    (if n < 10 then [] else Digits(n / 10)) + [0x30 + n % 10]
  }

  /** The compact encoding that serde_json writes; how it writes a real is a parameter. */
  function Encoded(v: Json, realText: nat -> seq<Byte>): seq<Byte> {
    match v
    case Null => CapturedOutput.Encode("null")
    case Bool(b) => CapturedOutput.BoolText(b)
    case Integer(i) => if i < 0 then [0x2D] + Digits(-i) else Digits(i)
    case Real(bits) => realText(bits)
    case String(s) => CapturedOutput.Quoted(CapturedOutput.Encode(s))
    case Array(items) => [0x5B] + EncodedItems(items, realText) + [0x5D]
    case Map(entries) => [0x7B] + EncodedEntries(entries, realText) + [0x7D]
  }

  function EncodedItems(items: seq<Json>, realText: nat -> seq<Byte>): seq<Byte> {
    if items == [] then []
    else Encoded(items[0], realText) + (if |items| == 1 then [] else [0x2C] + EncodedItems(items[1..], realText))
  }

  function EncodedEntries(entries: seq<Member>, realText: nat -> seq<Byte>): seq<Byte> {
    if entries == [] then []
    else
      var m := entries[0];
      assert m.value < m;
      CapturedOutput.Quoted(CapturedOutput.Encode(m.key)) + [0x3A] + Encoded(m.value, realText)
      + (if |entries| == 1 then [] else [0x2C] + EncodedEntries(entries[1..], realText))
  }

  /** Everything a value needs to be converted. */
  ghost predicate WithinLimits(v: Json, realText: nat -> seq<Byte>) {
    Depth(v) <= MAX_DEPTH && Nodes(v) <= MAX_NODES && |Encoded(v, realText)| <= CapturedOutput.RESULT_BYTES
  }

  function Zeros(n: nat): (s: string)
    ensures |s| == n && forall i | 0 <= i < n :: s[i] == '\0'
  {
    if n == 0 then "" else ['\0'] + Zeros(n - 1)
  }

  lemma {:induction false} ZerosEscape(n: nat)
    ensures |CapturedOutput.Encode(Zeros(n))| == n && |CapturedOutput.Escaped(CapturedOutput.Encode(Zeros(n)))| == 6 * n
  {
    if n > 0 {
      ZerosEscape(n - 1);
      assert Zeros(n)[1..] == Zeros(n - 1);
      assert CapturedOutput.Encode(Zeros(n))[1..] == CapturedOutput.Encode(Zeros(n - 1));
    }
  }

  /** Escapes can outgrow the bound on the encoding while the value has one level and one node. */
  lemma EscapesOutgrow(n: nat, realText: nat -> seq<Byte>)
    ensures Depth(String(Zeros(n))) == Nodes(String(Zeros(n))) == 1
    ensures |Encoded(String(Zeros(n)), realText)| == 6 * n + 2
  {
    ZerosEscape(n);
  }

  /** `py_to_safe_json`: on any heap, shared or cyclic, it returns v exactly when v is the unfolding
      of the object and within the limits on levels, nodes and encoded length. */
  method PyToSafeJson(h: Heap, o: Id, realText: nat -> seq<Byte>) returns (r: Option<Json>)
    requires Closed(h) && o < |h|
    ensures r.Some? ==> Represents(h, o, r.value) && WithinLimits(r.value, realText)
    ensures forall v | Represents(h, o, v) && WithinLimits(v, realText) :: r == Some(v)
  {
    hide Encoded;
    var budget := new Budget();
    assert Below(h, {}, [], o) by { assert [] + [o] == [o]; }
    r := PyToJson(h, o, 1, budget, []);
    if r.Some? { UnfoldExact(h, o, MAX_DEPTH, r.value); }
    forall v | Represents(h, o, v) && WithinLimits(v, realText) ensures r == Some(v) {
      UnfoldExact(h, o, MAX_DEPTH, v);
    }
    if r.Some? && |Encoded(r.value, realText)| > CapturedOutput.RESULT_BYTES {
      r := None;
    }
  }

  // ---------- back to Python ----------

  /** Integers that JSON carries safely, and maps with each key once. */
  ghost predicate Legal(v: Json) {
    match v
    case Integer(i) => SafeInteger(i)
    case Array(items) => forall x <- items :: Legal(x)
    case Map(entries) => Distinct(entries) && forall m <- entries :: Legal(m.value)
    case _ => true
  }

  ghost predicate Distinct(entries: seq<Member>) {
    forall i, j | 0 <= i < j < |entries| :: entries[i].key != entries[j].key
  }

  /** `safe_json_to_py`: fresh objects, children before their container. */
  function JsonToPy(h: Heap, v: Json): (Heap, Id)
    decreases v
  {
    match v
    case Null => New(h, NoneObject)
    case Bool(b) => New(h, BoolObject(b))
    case Integer(i) => New(h, IntObject(i))
    case Real(bits) => New(h, FloatObject(Finite(bits)))
    case String(s) => New(h, StrObject(Some(s)))
    case Array(items) => var (h', ids) := ItemsToPy(h, items); New(h', ListObject(ids))
    case Map(entries) => var (h', pairs) := EntriesToPy(h, entries); New(h', DictObject(pairs))
  }

  function New(h: Heap, obj: Object): (Heap, Id) {
    (h + [obj], |h|)
  }

  function ItemsToPy(h: Heap, items: seq<Json>): (Heap, seq<Id>)
    decreases items
  {
    if items == [] then (h, [])
    else
      var (h1, o) := JsonToPy(h, items[0]);
      var (h2, ids) := ItemsToPy(h1, items[1..]);
      (h2, [o] + ids)
  }

  function EntriesToPy(h: Heap, entries: seq<Member>): (Heap, seq<(Key, Id)>)
    decreases entries
  {
    if entries == [] then (h, [])
    else
      var (h1, o) := JsonToPy(h, entries[0].value);
      var (h2, pairs) := EntriesToPy(h1, entries[1..]);
      (h2, [(Text(entries[0].key), o)] + pairs)
  }

  lemma {:induction false} StillRepresents(h: Heap, h': Heap, o: Id, v: Json)
    requires h <= h' && Represents(h, o, v)
    ensures Represents(h', o, v)
    decreases v
  {
    assert h'[o] == h[o];
    match h[o]
    case ListObject(items) => StillAll(h, h', items, v.items);
    case TupleObject(items) => StillAll(h, h', items, v.items);
    case DictObject(entries) => StillEntries(h, h', entries, v.entries);
    case _ =>
  }

  lemma {:induction false} StillAll(h: Heap, h': Heap, ids: seq<Id>, vs: seq<Json>)
    requires h <= h' && RepresentsAll(h, ids, vs)
    ensures RepresentsAll(h', ids, vs)
    decreases vs
  {
    if vs != [] {
      StillRepresents(h, h', ids[0], vs[0]);
      StillAll(h, h', ids[1..], vs[1..]);
    }
  }

  lemma {:induction false} StillEntries(h: Heap, h': Heap, entries: seq<(Key, Id)>, vs: seq<Member>)
    requires h <= h' && RepresentsEntries(h, entries, vs)
    ensures RepresentsEntries(h', entries, vs)
    decreases vs
  {
    if vs != [] {
      StillRepresents(h, h', entries[0].1, vs[0].value);
      StillEntries(h, h', entries[1..], vs[1..]);
    }
  }

  /** The objects built from a value unfold to it, and nothing that existed changes. */
  lemma {:induction false} BuiltRepresents(h: Heap, v: Json)
    requires Closed(h) && Legal(v)
    ensures var (h', o) := JsonToPy(h, v); h <= h' && Closed(h') && Represents(h', o, v)
    decreases v
  {
    hide Closed;
    match v
    case Array(items) =>
      BuiltItems(h, items);
      var (h1, ids) := ItemsToPy(h, items);
      AddObject(h1, ListObject(ids));
      StillAll(h1, h1 + [ListObject(ids)], ids, items);
    case Map(entries) =>
      BuiltEntries(h, entries);
      var (h1, pairs) := EntriesToPy(h, entries);
      PairsOnce(h1, pairs, entries);
      AddObject(h1, DictObject(pairs));
      StillEntries(h1, h1 + [DictObject(pairs)], pairs, entries);
    case Null => AddObject(h, NoneObject);
    case Bool(b) => AddObject(h, BoolObject(b));
    case Integer(i) => AddObject(h, IntObject(i));
    case Real(bits) => AddObject(h, FloatObject(Finite(bits)));
    case String(s) => AddObject(h, StrObject(Some(s)));
  }

  lemma AddObject(h: Heap, obj: Object)
    requires Closed(h) && Sound(obj, |h|)
    ensures Closed(h + [obj]) && h <= h + [obj] && (h + [obj])[|h|] == obj
  {
    forall o | 0 <= o < |h + [obj]| ensures Sound((h + [obj])[o], |h| + 1) {
      if o < |h| { assert Sound(h[o], |h|); }
    }
  }

  lemma {:induction false} PairsOnce(h: Heap, pairs: seq<(Key, Id)>, vs: seq<Member>)
    requires RepresentsEntries(h, pairs, vs)
    ensures |pairs| == |vs| && forall i | 0 <= i < |vs| :: pairs[i].0 == Text(vs[i].key) && pairs[i].1 < |h|
    ensures Distinct(vs) ==> OnceEach(pairs)
  {
    if vs != [] {
      PairsOnce(h, pairs[1..], vs[1..]);
      forall i | 0 <= i < |vs| ensures pairs[i].0 == Text(vs[i].key) && pairs[i].1 < |h| {
        if i > 0 { assert pairs[i] == pairs[1..][i - 1] && vs[i] == vs[1..][i - 1]; }
      }
    }
  }

  lemma {:induction false} BuiltItems(h: Heap, items: seq<Json>)
    requires Closed(h) && forall x <- items :: Legal(x)
    ensures var (h', ids) := ItemsToPy(h, items);
      h <= h' && Closed(h') && RepresentsAll(h', ids, items) && forall c <- ids :: c < |h'|
    decreases items
  {
    hide Closed, Legal;
    if items != [] {
      BuiltRepresents(h, items[0]);
      var (h1, o) := JsonToPy(h, items[0]);
      BuiltItems(h1, items[1..]);
      var (h2, ids) := ItemsToPy(h1, items[1..]);
      StillRepresents(h1, h2, o, items[0]);
      assert ([o] + ids)[1..] == ids;
    }
  }

  lemma {:induction false} BuiltEntries(h: Heap, entries: seq<Member>)
    requires Closed(h) && forall m <- entries :: Legal(m.value)
    ensures var (h', pairs) := EntriesToPy(h, entries); h <= h' && Closed(h') && RepresentsEntries(h', pairs, entries)
    decreases entries
  {
    hide Closed, Legal;
    if entries != [] {
      assert entries[0] in entries;
      BuiltRepresents(h, entries[0].value);
      var (h1, o) := JsonToPy(h, entries[0].value);
      BuiltEntries(h1, entries[1..]);
      var (h2, pairs) := EntriesToPy(h1, entries[1..]);
      StillRepresents(h1, h2, o, entries[0].value);
      assert ([(Text(entries[0].key), o)] + pairs)[1..] == pairs;
    }
  }

  /** What each kind of value becomes: an array a list and not a tuple, and nothing that is no value. */
  lemma {:induction false} BuiltShape(h: Heap, v: Json)
    ensures var (h', o) := JsonToPy(h, v);
      && h <= h' && |h| <= o == |h'| - 1
      && (v.Null? ==> h'[o] == NoneObject) && (v.Bool? ==> h'[o] == BoolObject(v.b))
      && (v.Integer? ==> h'[o] == IntObject(v.i)) && (v.Real? ==> h'[o] == FloatObject(Finite(v.bits)))
      && (v.String? ==> h'[o] == StrObject(Some(v.s)))
      && (v.Array? ==> h'[o].ListObject? && |h'[o].items| == |v.items|)
      && (v.Map? ==> h'[o].DictObject? && |h'[o].entries| == |v.entries|)
      && forall k | |h| <= k < |h'| :: !h'[k].TupleObject? && !h'[k].OtherObject?
    decreases v, 1
  {
    match v
    case Array(items) => BuiltItemShapes(h, items);
    case Map(entries) => BuiltEntryShapes(h, entries);
    case _ =>
  }

  lemma {:induction false} BuiltItemShapes(h: Heap, items: seq<Json>)
    ensures var (h', ids) := ItemsToPy(h, items);
      && h <= h' && |ids| == |items|
      && forall k | |h| <= k < |h'| :: !h'[k].TupleObject? && !h'[k].OtherObject?
    decreases items, 0
  {
    if items != [] {
      BuiltShape(h, items[0]);
      BuiltItemShapes(JsonToPy(h, items[0]).0, items[1..]);
    }
  }

  lemma {:induction false} BuiltEntryShapes(h: Heap, entries: seq<Member>)
    ensures var (h', pairs) := EntriesToPy(h, entries);
      && h <= h' && |pairs| == |entries|
      && forall k | |h| <= k < |h'| :: !h'[k].TupleObject? && !h'[k].OtherObject?
    decreases entries, 0
  {
    if entries != [] {
      assert entries[0].value < entries[0];
      BuiltShape(h, entries[0].value);
      BuiltEntryShapes(JsonToPy(h, entries[0].value).0, entries[1..]);
    }
  }

  /** Which values an object without references stands for: one, or none. */
  lemma ScalarsRepresent(h: Heap, o: Id, v: Json)
    requires o < |h|
    ensures h[o] == NoneObject ==> (Represents(h, o, v) <==> v == Null)
    ensures h[o].BoolObject? ==> (Represents(h, o, v) <==> v == Bool(h[o].b))
    ensures h[o].IntObject? ==>
      (Represents(h, o, v) <==> v == Integer(h[o].i) && -0x1F_FFFF_FFFF_FFFF <= h[o].i <= 0x1F_FFFF_FFFF_FFFF)
    ensures h[o].FloatObject? ==>
      (Represents(h, o, v) <==> h[o].f != NonFinite && v == Real(h[o].f.bits))
    ensures h[o].StrObject? ==> (Represents(h, o, v) <==> h[o].text != None && v == String(h[o].text.value))
    ensures h[o] == OtherObject ==> !Represents(h, o, v)
  {}

  /** Lists, tuples and dicts stand for arrays and maps, item by item and member by member, in order; a key
      that is no string has no value. */
  lemma ContainersRepresent(h: Heap, o: Id, v: Json)
    requires o < |h|
    ensures h[o].ListObject? || h[o].TupleObject? ==>
      (Represents(h, o, v) <==>
        && v.Array? && |v.items| == |h[o].items|
        && forall i | 0 <= i < |v.items| :: Represents(h, h[o].items[i], v.items[i]))
    ensures h[o].DictObject? ==>
      (Represents(h, o, v) <==>
        && v.Map? && |v.entries| == |h[o].entries|
        && forall i | 0 <= i < |v.entries| ::
          h[o].entries[i].0 == Text(v.entries[i].key) && Represents(h, h[o].entries[i].1, v.entries[i].value))
  {
    if (h[o].ListObject? || h[o].TupleObject?) && v.Array? { EachRepresents(h, h[o].items, v.items); }
    if h[o].DictObject? && v.Map? { EachEntryRepresents(h, h[o].entries, v.entries); }
  }

  lemma {:induction false} EachRepresents(h: Heap, ids: seq<Id>, vs: seq<Json>)
    ensures RepresentsAll(h, ids, vs) <==>
      |ids| == |vs| && forall i | 0 <= i < |vs| :: Represents(h, ids[i], vs[i])
    decreases vs
  {
    hide Represents;
    if vs != [] && |ids| == |vs| {
      EachRepresents(h, ids[1..], vs[1..]);
      assert forall i | 1 <= i < |vs| :: ids[i] == ids[1..][i - 1] && vs[i] == vs[1..][i - 1];
    }
  }

  lemma {:induction false} EachEntryRepresents(h: Heap, entries: seq<(Key, Id)>, ms: seq<Member>)
    ensures RepresentsEntries(h, entries, ms) <==>
      && |entries| == |ms|
      && forall i | 0 <= i < |ms| ::
        entries[i].0 == Text(ms[i].key) && Represents(h, entries[i].1, ms[i].value)
    decreases ms
  {
    hide Represents;
    if ms != [] && |entries| == |ms| {
      EachEntryRepresents(h, entries[1..], ms[1..]);
      assert forall i | 1 <= i < |ms| :: entries[i] == entries[1..][i - 1] && ms[i] == ms[1..][i - 1];
    }
  }

  /** Converting to Python and back returns the value, exactly when it is within the limits. */
  method RoundTrip(h: Heap, v: Json, realText: nat -> seq<Byte>) returns (r: Option<Json>)
    requires Closed(h) && Legal(v)
    ensures r == if WithinLimits(v, realText) then Some(v) else None
  {
    BuiltRepresents(h, v);
    var (h', o) := JsonToPy(h, v);
    r := PyToSafeJson(h', o, realText);
    if r.Some? { RepresentsOne(h', o, v, r.value); }
  }

  /** An object has at most one unfolding. */
  lemma RepresentsOne(h: Heap, o: Id, v: Json, w: Json)
    requires Represents(h, o, v) && Represents(h, o, w)
    ensures v == w
  {
    var d := Max(Depth(v), Depth(w));
    UnfoldExact(h, o, d, v);
    UnfoldExact(h, o, d, w);
  }
}
