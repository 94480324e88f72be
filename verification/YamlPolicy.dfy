/** The two passes over a YAML document (yaml.rs): the event stream is policed before the loaded
    tree is converted, and both count depth and nodes. */
module YamlPolicy {
  import opened ValueConversion
  import opened Wrappers
  import CapturedOutput

  /** A loaded YAML node. A real is the float its text parses to, if it parses. */
  datatype Yaml =
    | YamlNull
    | BadValue
    | YamlBoolean(b: bool)
    | YamlInteger(i: int)
    | YamlReal(f: Option<Float>)
    | YamlString(s: string)
    | YamlArray(items: seq<Yaml>)
    | YamlHash(entries: seq<YamlEntry>)
    | YamlAlias

  datatype YamlEntry = YamlEntry(key: Yaml, value: Yaml)

  /** A parser event; a plain scalar that looks like an integer may be out of range. */
  datatype Event =
    | StreamStart
    | Nothing
    | StreamEnd
    | DocumentStart
    | DocumentEnd
    | AliasEvent
    | Scalar(marked: bool, badInteger: bool)
    | SequenceStart(marked: bool)
    | MappingStart(marked: bool)
    | SequenceEnd
    | MappingEnd

  // ---------- the event pass ----------

  /** `event_policy` from some counters on. */
  function Policy(events: seq<Event>, documents: nat, depth: nat, nodes: nat): bool {
    if events == [] then documents == 1 && depth == 0
    else match events[0]
      case StreamStart => Policy(events[1..], documents, depth, nodes)
      case Nothing => Policy(events[1..], documents, depth, nodes)
      case StreamEnd => documents == 1 && depth == 0
      case DocumentStart => documents == 0 && Policy(events[1..], documents + 1, depth, nodes)
      case DocumentEnd => Policy(events[1..], documents, depth, nodes)
      case AliasEvent => false
      case Scalar(marked, badInteger) =>
        !marked && Visits(nodes, depth + 1) && !badInteger && Policy(events[1..], documents, depth, nodes + 1)
      case SequenceStart(marked) =>
        !marked && Visits(nodes, depth + 1) && Policy(events[1..], documents, depth + 1, nodes + 1)
      case MappingStart(marked) =>
        !marked && Visits(nodes, depth + 1) && Policy(events[1..], documents, depth + 1, nodes + 1)
      case SequenceEnd => depth > 0 && Policy(events[1..], documents, depth - 1, nodes)
      case MappingEnd => depth > 0 && Policy(events[1..], documents, depth - 1, nodes)
  }

  /** `visit_node` accepts one more node at this depth. */
  predicate Visits(nodes: nat, depth: nat) { depth <= MAX_DEPTH && nodes < MAX_NODES }

  method VisitNode(nodes: nat, depth: nat) returns (ok: bool, nodes': nat)
    ensures ok <==> Visits(nodes, depth)
    ensures ok ==> nodes' == nodes + 1
  {
    if depth > MAX_DEPTH {
      return false, nodes;
    }
    nodes' := nodes + 1;
    ok := nodes' <= MAX_NODES;
  }

  method EventPolicy(events: seq<Event>) returns (ok: bool)
    ensures ok <==> Policy(events, 0, 0, 0)
  {
    var documents: nat, depth: nat, nodes: nat := 0, 0, 0;
    var i := 0;
    assert events[0..] == events;
    while i < |events|
      invariant i <= |events|
      invariant Policy(events[i..], documents, depth, nodes) == Policy(events, 0, 0, 0)
    {
      assert events[i..][0] == events[i] && events[i..][1..] == events[i + 1..];
      match events[i] {
        case StreamStart =>
        case Nothing =>
        case StreamEnd => break;
        case DocumentStart =>
          documents := documents + 1;
          if documents > 1 {
            return false;
          }
        case DocumentEnd =>
        case AliasEvent => return false;
        case Scalar(marked, badInteger) =>
          if marked {
            return false;
          }
          var visited;
          visited, nodes := VisitNode(nodes, depth + 1);
          if !visited || badInteger {
            return false;
          }
        case SequenceStart(marked) =>
          if marked {
            return false;
          }
          depth := depth + 1;
          var visited;
          visited, nodes := VisitNode(nodes, depth);
          if !visited {
            return false;
          }
        case MappingStart(marked) =>
          if marked {
            return false;
          }
          depth := depth + 1;
          var visited;
          visited, nodes := VisitNode(nodes, depth);
          if !visited {
            return false;
          }
        case SequenceEnd =>
          if depth == 0 {
            return false;
          }
          depth := depth - 1;
        case MappingEnd =>
          if depth == 0 {
            return false;
          }
          depth := depth - 1;
      }
      i := i + 1;
    }
    ok := documents == 1 && depth == 0;
  }

  // ---------- the tree pass ----------

  /** The value of a tree, whatever its size: every mapping key a distinct string other than the
      merge key, safe integers, finite reals, no alias. */
  ghost function Value(t: Yaml): Option<Json> {
    match t
    case YamlNull => Some(Null)
    case BadValue => Some(Null)
    case YamlBoolean(b) => Some(Bool(b))
    case YamlInteger(i) => if SafeInteger(i) then Some(Integer(i)) else None
    case YamlReal(f) => if f.Some? && f.value.Finite? then Some(Real(f.value.bits)) else None
    case YamlString(s) => Some(String(s))
    case YamlArray(items) => OfItems(ValueItems(items))
    case YamlHash(entries) =>
      var ms := ValueEntries(entries);
      if ms.Some? && Distinct(ms.value) then OfEntries(ms) else None
    case YamlAlias => None
  }

  ghost function ValueItems(items: seq<Yaml>): Option<seq<Json>> {
    if items == [] then Some([])
    else match Value(items[0]) case None => None case Some(v) => Join([v], ValueItems(items[1..]))
  }

  ghost function ValueEntries(entries: seq<YamlEntry>): Option<seq<Member>> {
    if entries == [] then Some([])
    else
      var e := entries[0];
      assert e.value < e;
      match Value(e.value)
      case None => None
      case Some(v) => if KeyOk(e.key) then Join([Member(e.key.s, v)], ValueEntries(entries[1..])) else None
  }

  predicate KeyOk(key: Yaml) { key.YamlString? && key.s != "<<" }

  /** Levels and nodes of a tree; a key is one node. */
  function Height(t: Yaml): (n: nat)
    ensures n >= 1
  {
    match t
    case YamlArray(items) => 1 + HeightItems(items)
    case YamlHash(entries) => 1 + HeightEntries(entries)
    case _ => 1
  }

  function HeightItems(items: seq<Yaml>): nat {
    if items == [] then 0 else Max(Height(items[0]), HeightItems(items[1..]))
  }

  function HeightEntries(entries: seq<YamlEntry>): nat {
    if entries == [] then 0
    else
      var e := entries[0];
      assert e.value < e;
      Max(Height(e.value), HeightEntries(entries[1..]))
  }

  function Size(t: Yaml): (n: nat)
    ensures n >= 1
  {
    match t
    case YamlArray(items) => 1 + SizeItems(items)
    case YamlHash(entries) => 1 + SizeEntries(entries)
    case _ => 1
  }

  function SizeItems(items: seq<Yaml>): nat {
    if items == [] then 0 else Size(items[0]) + SizeItems(items[1..])
  }

  function SizeEntries(entries: seq<YamlEntry>): nat {
    if entries == [] then 0
    else
      var e := entries[0];
      assert e.value < e;
      1 + Size(e.value) + SizeEntries(entries[1..])
  }

  predicate Fits(depth: nat, height: nat, nodes: nat, size: nat)
    requires depth >= 1
  {
    depth - 1 + height <= MAX_DEPTH && nodes + size <= MAX_NODES
  }

  ghost function If<T>(b: bool, o: Option<T>): Option<T> { if b then o else None }

  /** `yaml_to_json`: the value, if the levels and nodes left allow it. */
  method YamlToJson(t: Yaml, depth: nat, nodes: nat) returns (r: Option<Json>, nodes': nat)
    requires depth >= 1 && nodes <= MAX_NODES
    ensures r == If(Fits(depth, Height(t), nodes, Size(t)), Value(t))
    ensures r.Some? ==> nodes' == nodes + Size(t)
    decreases t
  {
    hide ValueItems, ValueEntries, HeightItems, HeightEntries, SizeItems, SizeEntries, Distinct;
    var visited;
    visited, nodes' := VisitNode(nodes, depth);
    if !visited {
      return None, nodes';
    }
    match t {
      case YamlNull => r := Some(Null);
      case BadValue => r := Some(Null);
      case YamlBoolean(b) => r := Some(Bool(b));
      case YamlInteger(i) => r := if SafeInteger(i) then Some(Integer(i)) else None;
      case YamlReal(f) => r := if f.Some? && f.value.Finite? then Some(Real(f.value.bits)) else None;
      case YamlString(s) => r := Some(String(s));
      case YamlArray(items) =>
        var vs;
        vs, nodes' := LoadItems(items, depth + 1, nodes');
        r := OfItems(vs);
      case YamlHash(entries) =>
        var output;
        output, nodes' := LoadEntries(entries, depth + 1, nodes');
        r := OfEntries(output);
      case YamlAlias => r := None;
    }
  }

  method LoadItems(items: seq<Yaml>, depth: nat, nodes: nat) returns (r: Option<seq<Json>>, nodes': nat)
    requires 2 <= depth <= MAX_DEPTH + 1 && nodes <= MAX_NODES
    ensures r == If(Fits(depth, HeightItems(items), nodes, SizeItems(items)), ValueItems(items))
    ensures r.Some? ==> nodes' == nodes + SizeItems(items)
    decreases items
  {
    hide ItemsInv, ValueItems, HeightItems, SizeItems, Value, Height, Size;
    nodes' := nodes;
    var vs: seq<Json> := [];
    ItemsStart(items, depth, nodes);
    for i := 0 to |items|
      invariant ItemsInv(items, depth, nodes, i, nodes', vs) && nodes' <= MAX_NODES
    {
      ItemsStep(items, depth, nodes, i, nodes', vs);
      var v;
      v, nodes' := YamlToJson(items[i], depth, nodes');
      if v == None {
        return None, nodes';
      }
      vs := vs + [v.value];
    }
    ItemsEnd(items, depth, nodes, nodes', vs);
    r := Some(vs);
  }

  /** The first i items are loaded, and the rest decides. */
  ghost predicate ItemsInv(items: seq<Yaml>, depth: nat, start: nat, i: nat, nodes: nat, vs: seq<Json>)
  {
    && i <= |items| && nodes + SizeItems(items[i..]) == start + SizeItems(items)
    && ValueItems(items) == Join(vs, ValueItems(items[i..]))
    && (depth - 1 + HeightItems(items) <= MAX_DEPTH <==> depth - 1 + HeightItems(items[i..]) <= MAX_DEPTH)
  }

  lemma ItemsStart(items: seq<Yaml>, depth: nat, start: nat)
    ensures ItemsInv(items, depth, start, 0, start, [])
  {
    assert items[0..] == items;
    if ValueItems(items).Some? { assert [] + ValueItems(items).value == ValueItems(items).value; }
  }

  lemma ItemsStep(items: seq<Yaml>, depth: nat, start: nat, i: nat, nodes: nat, vs: seq<Json>)
    requires depth >= 1 && i < |items| && ItemsInv(items, depth, start, i, nodes, vs)
    ensures var v := If(Fits(depth, Height(items[i]), nodes, Size(items[i])), Value(items[i]));
      if v == None then If(Fits(depth, HeightItems(items), start, SizeItems(items)), ValueItems(items)) == None
      else ItemsInv(items, depth, start, i + 1, nodes + Size(items[i]), vs + [v.value])
  {
    hide Value, Height, Size;
    assert items[i..][0] == items[i] && items[i..][1..] == items[i + 1..];
    if Value(items[i]).Some? {
      JoinMore(vs, [Value(items[i]).value], ValueItems(items[i + 1..]));
    }
  }

  lemma ItemsEnd(items: seq<Yaml>, depth: nat, start: nat, nodes: nat, vs: seq<Json>)
    requires 1 <= depth <= MAX_DEPTH + 1 && ItemsInv(items, depth, start, |items|, nodes, vs) && nodes <= MAX_NODES
    ensures If(Fits(depth, HeightItems(items), start, SizeItems(items)), ValueItems(items)) == Some(vs)
    ensures nodes == start + SizeItems(items)
  {
    assert items[|items|..] == [];
    assert vs + [] == vs;
  }

  method LoadEntries(entries: seq<YamlEntry>, depth: nat, nodes: nat) returns (r: Option<seq<Member>>, nodes': nat)
    requires 2 <= depth <= MAX_DEPTH + 1 && nodes <= MAX_NODES
    ensures r == EntriesResult(entries, depth, nodes)
    ensures r.Some? ==> nodes' == nodes + SizeEntries(entries)
    decreases entries
  {
    hide EntriesInv, EntriesResult, ValueEntries, HeightEntries, SizeEntries, Value, Height, Size, Distinct, Insert;
    nodes' := nodes;
    var output: seq<Member> := [];
    EntriesStart(entries, depth, nodes);
    for i := 0 to |entries|
      invariant EntriesInv(entries, depth, nodes, i, nodes', output) && nodes' <= MAX_NODES
    {
      EntriesStep(entries, depth, nodes, i, nodes', output);
      nodes' := nodes' + 1;
      if nodes' > MAX_NODES || !KeyOk(entries[i].key) {
        return None, nodes';
      }
      var v;
      assert entries[i].value < entries[i];
      v, nodes' := YamlToJson(entries[i].value, depth, nodes');
      if v == None || exists m <- output :: m.key == entries[i].key.s {
        return None, nodes';
      }
      InsertNew(output, entries[i].key.s, v.value);
      output := Insert(output, entries[i].key.s, v.value);
    }
    EntriesEnd(entries, depth, nodes, nodes', output);
    r := Some(output);
  }

  ghost function EntriesResult(entries: seq<YamlEntry>, depth: nat, nodes: nat): Option<seq<Member>>
    requires depth >= 1
  {
    var ms := ValueEntries(entries);
    If(ms.Some? && Distinct(ms.value) && Fits(depth, HeightEntries(entries), nodes, SizeEntries(entries)), ms)
  }

  ghost predicate EntriesInv(entries: seq<YamlEntry>, depth: nat, start: nat, i: nat, nodes: nat, vs: seq<Member>) {
    && i <= |entries| && nodes + SizeEntries(entries[i..]) == start + SizeEntries(entries)
    && ValueEntries(entries) == Join(vs, ValueEntries(entries[i..]))
    && (depth - 1 + HeightEntries(entries) <= MAX_DEPTH <==> depth - 1 + HeightEntries(entries[i..]) <= MAX_DEPTH)
    && Distinct(vs)
  }

  lemma EntriesStart(entries: seq<YamlEntry>, depth: nat, start: nat)
    ensures EntriesInv(entries, depth, start, 0, start, [])
  {
    assert entries[0..] == entries;
    if ValueEntries(entries).Some? { assert [] + ValueEntries(entries).value == ValueEntries(entries).value; }
  }

  lemma EntriesStep(entries: seq<YamlEntry>, depth: nat, start: nat, i: nat, nodes: nat, vs: seq<Member>)
    requires depth >= 1 && i < |entries| && EntriesInv(entries, depth, start, i, nodes, vs)
    ensures var key, t := entries[i].key, entries[i].value;
      var v := If(Fits(depth, Height(t), nodes + 1, Size(t)), Value(t));
      if !KeyOk(key) || v == None || (exists m <- vs :: m.key == key.s)
      then EntriesResult(entries, depth, start) == None
      else EntriesInv(entries, depth, start, i + 1, nodes + 1 + Size(t), vs + [Member(key.s, v.value)])
  {
    hide Value, Height, Size;
    assert entries[i..][0] == entries[i] && entries[i..][1..] == entries[i + 1..];
    var key, u := entries[i].key, Value(entries[i].value);
    if u.Some? && KeyOk(key) {
      var more, rest := [Member(key.s, u.value)], ValueEntries(entries[i + 1..]);
      JoinMore(vs, more, rest);
      DistinctMore(vs, more[0], if rest.Some? then rest.value else []);
    }
  }

  lemma DistinctMore(vs: seq<Member>, m: Member, rest: seq<Member>)
    requires Distinct(vs)
    ensures Distinct(vs + [m]) <==> forall x <- vs :: x.key != m.key
    ensures Distinct(vs + [m] + rest) ==> Distinct(vs + [m])
  {
    var all := vs + [m] + rest;
    assert forall i | 0 <= i < |vs| :: all[i] == (vs + [m])[i] == vs[i];
    assert all[|vs|] == (vs + [m])[|vs|] == m;
  }

  lemma EntriesEnd(entries: seq<YamlEntry>, depth: nat, start: nat, nodes: nat, vs: seq<Member>)
    requires 1 <= depth <= MAX_DEPTH + 1 && nodes <= MAX_NODES
    requires EntriesInv(entries, depth, start, |entries|, nodes, vs)
    ensures EntriesResult(entries, depth, start) == Some(vs) && nodes == start + SizeEntries(entries)
  {
    assert entries[|entries|..] == [];
    assert vs + [] == vs;
  }

  // ---------- the passes agree ----------

  /** The events of a tree without anchors and tags: `bad` says which scalars the event pass takes
      for integers out of range. */
  function Events(t: Yaml, bad: Yaml -> bool): seq<Event> {
    match t
    case YamlArray(items) => [SequenceStart(false)] + ItemEvents(items, bad) + [SequenceEnd]
    case YamlHash(entries) => [MappingStart(false)] + EntryEvents(entries, bad) + [MappingEnd]
    case YamlAlias => [AliasEvent]
    case _ => [Scalar(false, bad(t))]
  }

  function ItemEvents(items: seq<Yaml>, bad: Yaml -> bool): seq<Event> {
    if items == [] then [] else Events(items[0], bad) + ItemEvents(items[1..], bad)
  }

  function EntryEvents(entries: seq<YamlEntry>, bad: Yaml -> bool): seq<Event> {
    if entries == [] then []
    else
      var e := entries[0];
      assert e.key < e && e.value < e;
      Events(e.key, bad) + Events(e.value, bad) + EntryEvents(entries[1..], bad)
  }

  /** String keys, no alias, and no scalar out of range. */
  predicate Plain(t: Yaml, bad: Yaml -> bool) {
    match t
    case YamlArray(items) => forall x <- items :: Plain(x, bad)
    case YamlHash(entries) => forall e <- entries :: StringKeyed(e, bad)
    case YamlAlias => false
    case _ => !bad(t)
  }

  predicate StringKeyed(e: YamlEntry, bad: Yaml -> bool) {
    e.key.YamlString? && !bad(e.key) && Plain(e.value, bad)
  }

  /** Inside some document, the event pass accepts a plain tree exactly when it fits, and leaves
      the depth as it was. */
  lemma {:induction false} PolicyOfTree(t: Yaml, bad: Yaml -> bool, rest: seq<Event>,
                                        documents: nat, depth: nat, nodes: nat)
    requires Plain(t, bad)
    ensures Policy(Events(t, bad) + rest, documents, depth, nodes) <==>
      Fits(depth + 1, Height(t), nodes, Size(t)) && Policy(rest, documents, depth, nodes + Size(t))
    decreases t
  {
    hide Policy, Visits;
    match t
    case YamlArray(items) =>
      var close := [SequenceEnd] + rest;
      Bracket(SequenceStart(false), ItemEvents(items, bad), SequenceEnd, rest, documents, depth, nodes);
      if Visits(nodes, depth + 1) {
        OneMore(nodes, depth + 1);
        PolicyOfItems(items, bad, close, documents, depth + 1, nodes + 1);
      } else {
        TooMuch(nodes, depth + 1);
      }
      CloseStep(SequenceEnd, rest, documents, depth, nodes + Size(t));
    case YamlHash(entries) =>
      var close := [MappingEnd] + rest;
      Bracket(MappingStart(false), EntryEvents(entries, bad), MappingEnd, rest, documents, depth, nodes);
      if Visits(nodes, depth + 1) {
        OneMore(nodes, depth + 1);
        PolicyOfEntries(entries, bad, close, documents, depth + 1, nodes + 1);
      } else {
        TooMuch(nodes, depth + 1);
      }
      CloseStep(MappingEnd, rest, documents, depth, nodes + Size(t));
    case YamlAlias =>
    case _ =>
      ScalarStep(bad(t), rest, documents, depth, nodes);
      if Visits(nodes, depth + 1) { OneMore(nodes, depth + 1); } else { TooMuch(nodes, depth + 1); }
  }

  lemma OneMore(nodes: nat, depth: nat)
    requires Visits(nodes, depth)
    ensures depth <= MAX_DEPTH && nodes + 1 <= MAX_NODES
  {}

  lemma TooMuch(nodes: nat, depth: nat)
    requires !Visits(nodes, depth)
    ensures depth > MAX_DEPTH || nodes + 1 > MAX_NODES
  {}

  lemma Bracket(open: Event, inner: seq<Event>, close: Event, rest: seq<Event>, documents: nat, depth: nat, nodes: nat)
    requires open == SequenceStart(false) || open == MappingStart(false)
    ensures Policy([open] + inner + [close] + rest, documents, depth, nodes) <==>
      Visits(nodes, depth + 1) && Policy(inner + ([close] + rest), documents, depth + 1, nodes + 1)
  {
    hide Visits;
    var s := [open] + inner + [close] + rest;
    assert s[0] == open && s[1..] == inner + ([close] + rest);
  }

  lemma CloseStep(close: Event, rest: seq<Event>, documents: nat, depth: nat, nodes: nat)
    requires close == SequenceEnd || close == MappingEnd
    ensures Policy([close] + rest, documents, depth + 1, nodes) == Policy(rest, documents, depth, nodes)
  {
    assert ([close] + rest)[1..] == rest;
  }

  lemma ScalarStep(badInteger: bool, rest: seq<Event>, documents: nat, depth: nat, nodes: nat)
    ensures Policy([Scalar(false, badInteger)] + rest, documents, depth, nodes) <==>
      !badInteger && Visits(nodes, depth + 1) && Policy(rest, documents, depth, nodes + 1)
  {
    assert ([Scalar(false, badInteger)] + rest)[1..] == rest;
  }

  lemma {:induction false} PolicyOfItems(items: seq<Yaml>, bad: Yaml -> bool, rest: seq<Event>,
                                         documents: nat, depth: nat, nodes: nat)
    requires (forall x <- items :: Plain(x, bad)) && depth <= MAX_DEPTH && nodes <= MAX_NODES
    ensures Policy(ItemEvents(items, bad) + rest, documents, depth, nodes) <==>
      && Fits(depth + 1, HeightItems(items), nodes, SizeItems(items))
      && Policy(rest, documents, depth, nodes + SizeItems(items))
    decreases items
  {
    hide Policy;
    if items == [] {
      assert [] + rest == rest;
    } else {
      var more := ItemEvents(items[1..], bad) + rest;
      assert ItemEvents(items, bad) + rest == Events(items[0], bad) + more;
      PolicyOfTree(items[0], bad, more, documents, depth, nodes);
      if Fits(depth + 1, Height(items[0]), nodes, Size(items[0])) {
        PolicyOfItems(items[1..], bad, rest, documents, depth, nodes + Size(items[0]));
      }
    }
  }

  lemma {:induction false} PolicyOfEntries(entries: seq<YamlEntry>, bad: Yaml -> bool, rest: seq<Event>,
                                           documents: nat, depth: nat, nodes: nat)
    requires (forall e <- entries :: StringKeyed(e, bad)) && depth <= MAX_DEPTH && nodes <= MAX_NODES
    ensures Policy(EntryEvents(entries, bad) + rest, documents, depth, nodes) <==>
      && Fits(depth + 1, HeightEntries(entries), nodes, SizeEntries(entries))
      && Policy(rest, documents, depth, nodes + SizeEntries(entries))
    decreases entries
  {
    hide Policy, Events, EntryEvents, Visits, Fits, HeightEntries, SizeEntries;
    if entries == [] {
      NoEntries(entries, bad, rest, depth, nodes);
    } else {
      var e := entries[0];
      assert StringKeyed(e, bad) && e.value < e;
      var more := EntryEvents(entries[1..], bad) + rest;
      EntriesCons(entries, bad, rest);
      PolicyOfKey(e, bad, Events(e.value, bad) + more, documents, depth, nodes);
      FitsCons(depth, Height(e.value), HeightEntries(entries[1..]), nodes, Size(e.value), SizeEntries(entries[1..]));
      if Visits(nodes, depth + 1) {
        PolicyOfTree(e.value, bad, more, documents, depth, nodes + 1);
        if Fits(depth + 1, Height(e.value), nodes + 1, Size(e.value)) {
          FitsBounds(depth + 1, Height(e.value), nodes + 1, Size(e.value));
          PolicyOfEntries(entries[1..], bad, rest, documents, depth, nodes + 1 + Size(e.value));
        }
      }
    }
  }

  lemma NoEntries(entries: seq<YamlEntry>, bad: Yaml -> bool, rest: seq<Event>, depth: nat, nodes: nat)
    requires entries == [] && depth <= MAX_DEPTH && nodes <= MAX_NODES
    ensures EntryEvents(entries, bad) + rest == rest && SizeEntries(entries) == 0
    ensures Fits(depth + 1, HeightEntries(entries), nodes, 0)
  {
    assert [] + rest == rest;
  }

  lemma EntriesCons(entries: seq<YamlEntry>, bad: Yaml -> bool, rest: seq<Event>)
    requires entries != []
    ensures EntryEvents(entries, bad) + rest
         == Events(entries[0].key, bad) + (Events(entries[0].value, bad) + (EntryEvents(entries[1..], bad) + rest))
    ensures HeightEntries(entries) == Max(Height(entries[0].value), HeightEntries(entries[1..]))
    ensures SizeEntries(entries) == 1 + Size(entries[0].value) + SizeEntries(entries[1..])
  {
    hide Events;
  }

  lemma PolicyOfKey(e: YamlEntry, bad: Yaml -> bool, rest: seq<Event>, documents: nat, depth: nat, nodes: nat)
    requires StringKeyed(e, bad)
    ensures Policy(Events(e.key, bad) + rest, documents, depth, nodes) <==>
      Visits(nodes, depth + 1) && Policy(rest, documents, depth, nodes + 1)
  {
    ScalarStep(false, rest, documents, depth, nodes);
  }

  /** An entry fits when its key, its value and the entries after it fit in turn. */
  lemma FitsCons(depth: nat, first: nat, others: nat, nodes: nat, size: nat, more: nat)
    requires first >= 1
    ensures Fits(depth + 1, Max(first, others), nodes, 1 + size + more) <==>
      && Visits(nodes, depth + 1) && Fits(depth + 1, first, nodes + 1, size)
      && Fits(depth + 1, others, nodes + 1 + size, more)
  {}

  lemma FitsBounds(depth: nat, height: nat, nodes: nat, size: nat)
    requires depth >= 1 && Fits(depth, height, nodes, size)
    ensures nodes + size <= MAX_NODES
  {}

  function Document(t: Yaml, bad: Yaml -> bool): seq<Event> {
    [StreamStart, DocumentStart] + (Events(t, bad) + [DocumentEnd, StreamEnd])
  }

  /** The event pass accepts a document exactly when its tree has at most 32 levels and 10000 nodes. */
  lemma EventPassExact(t: Yaml, bad: Yaml -> bool)
    requires Plain(t, bad)
    ensures Policy(Document(t, bad), 0, 0, 0) <==> Height(t) <= MAX_DEPTH && Size(t) <= MAX_NODES
  {
    var tail := [DocumentEnd, StreamEnd];
    var s := Document(t, bad);
    assert s[1..][1..] == Events(t, bad) + tail;
    assert s[0] == StreamStart && s[1..][0] == DocumentStart;
    PolicyOfTree(t, bad, tail, 1, 0, 0);
    assert tail[1..] == [StreamEnd];
  }

  /** A value has the levels and nodes of its tree, and is legal. */
  lemma {:induction false} ValueMeasures(t: Yaml)
    requires Value(t).Some?
    ensures var v := Value(t).value; Depth(v) == Height(t) && Nodes(v) == Size(t) && Legal(v)
    decreases t
  {
    match t
    case YamlArray(items) => ValueItemsMeasures(items);
    case YamlHash(entries) => ValueEntriesMeasures(entries);
    case _ =>
  }

  lemma {:induction false} ValueItemsMeasures(items: seq<Yaml>)
    requires ValueItems(items).Some?
    ensures var vs := ValueItems(items).value;
      DepthAll(vs) == HeightItems(items) && NodesAll(vs) == SizeItems(items) && forall v <- vs :: Legal(v)
    decreases items
  {
    if items != [] {
      ValueMeasures(items[0]);
      ValueItemsMeasures(items[1..]);
      var v, vs := Value(items[0]).value, ValueItems(items[1..]).value;
      assert ([v] + vs)[1..] == vs;
    }
  }

  lemma {:induction false} ValueEntriesMeasures(entries: seq<YamlEntry>)
    requires ValueEntries(entries).Some?
    ensures var ms := ValueEntries(entries).value;
      && DepthEntries(ms) == HeightEntries(entries) && NodesEntries(ms) == SizeEntries(entries)
      && forall m <- ms :: Legal(m.value)
    decreases entries
  {
    if entries != [] {
      var e := entries[0];
      assert e.value < e;
      ValueMeasures(e.value);
      ValueEntriesMeasures(entries[1..]);
      var m, ms := Member(entries[0].key.s, Value(entries[0].value).value), ValueEntries(entries[1..]).value;
      assert ([m] + ms)[1..] == ms;
    }
  }

  /** The passes agree: of a tree that has a value, the event pass accepts exactly what the tree
      pass loads; and what is loaded survives `safe_json_to_py` and `py_to_safe_json` unchanged,
      exactly when its encoding is short enough. */
  method LoadAgrees(t: Yaml, bad: Yaml -> bool, h: Heap, realText: nat -> seq<Byte>)
    returns (policed: bool, loaded: Option<Json>, again: Option<Json>)
    requires Plain(t, bad) && Closed(h)
    ensures policed <==> Height(t) <= MAX_DEPTH && Size(t) <= MAX_NODES
    ensures loaded == if policed then Value(t) else None
    ensures loaded.Some? ==> Legal(loaded.value) && Depth(loaded.value) <= MAX_DEPTH && Nodes(loaded.value) <= MAX_NODES
    ensures again ==
      if loaded.Some? && |Encoded(loaded.value, realText)| <= CapturedOutput.RESULT_BYTES then loaded else None
  {
    hide Encoded;
    EventPassExact(t, bad);
    policed := EventPolicy(Document(t, bad));
    var nodes;
    loaded, nodes := YamlToJson(t, 1, 0);
    again := None;
    if loaded.Some? {
      ValueMeasures(t);
      again := RoundTrip(h, loaded.value, realText);
    }
  }

  // ---------- what the event pass accepts ----------

  predicate IsOpening(e: Event) { e.SequenceStart? || e.MappingStart? }

  predicate IsClosing(e: Event) { e.SequenceEnd? || e.MappingEnd? }

  /** An event that counts as a node. */
  predicate IsNode(e: Event) { e.Scalar? || IsOpening(e) }

  predicate IsDocument(e: Event) { e.DocumentStart? }

  /** No alias, no anchor or tag, and no integer out of range. */
  predicate IsPermitted(e: Event) {
    match e
    case AliasEvent => false
    case Scalar(marked, badInteger) => !marked && !badInteger
    case SequenceStart(marked) => !marked
    case MappingStart(marked) => !marked
    case _ => true
  }

  function CountIf(events: seq<Event>, p: Event -> bool): nat {
    if events == [] then 0 else (if p(events[0]) then 1 else 0) + CountIf(events[1..], p)
  }

  /** The events in front of the end of the stream. */
  function Length(events: seq<Event>): (n: nat)
    ensures n <= |events| && (n < |events| ==> events[n] == StreamEnd)
    ensures forall i | 0 <= i < n :: events[i] != StreamEnd
  {
    if events == [] || events[0] == StreamEnd then 0 else 1 + Length(events[1..])
  }

  /** How many collections are open before event i. */
  ghost function DepthAt(events: seq<Event>, i: nat, depth: nat): int
    requires i <= |events|
  {
    depth + CountIf(events[..i], IsOpening) - CountIf(events[..i], IsClosing)
  }

  /** What the event at position i has to meet. */
  ghost predicate AllowedAt(events: seq<Event>, i: nat, depth: nat, nodes: nat)
    requires i < |events|
  {
    && IsPermitted(events[i])
    && (IsClosing(events[i]) ==> DepthAt(events, i, depth) > 0)
    && (IsNode(events[i]) ==>
          DepthAt(events, i, depth) < MAX_DEPTH && nodes + CountIf(events[..i], IsNode) < MAX_NODES)
  }

  /** One document in all, nothing forbidden, every collection closed that was opened, and every node
      within the limits. */
  ghost predicate Allowed(events: seq<Event>, documents: nat, depth: nat, nodes: nat) {
    var n := Length(events);
    && documents + CountIf(events[..n], IsDocument) == 1
    && DepthAt(events, n, depth) == 0
    && forall i | 0 <= i < n :: AllowedAt(events, i, depth, nodes)
  }

  lemma CountShifts(events: seq<Event>, i: nat, p: Event -> bool)
    requires i < |events|
    ensures CountIf(events[..i + 1], p) == (if p(events[0]) then 1 else 0) + CountIf(events[1..][..i], p)
  {
    assert events[..i + 1][1..] == events[1..][..i];
  }

  /** The counters after one event. */
  function DepthAfter(e: Event, depth: nat): nat
    requires IsClosing(e) ==> depth > 0
  {
    if IsOpening(e) then depth + 1 else if IsClosing(e) then depth - 1 else depth
  }

  function NodesAfter(e: Event, nodes: nat): nat { if IsNode(e) then nodes + 1 else nodes }

  function DocumentsAfter(e: Event, documents: nat): nat { if IsDocument(e) then documents + 1 else documents }

  lemma DepthShifts(events: seq<Event>, i: nat, depth: nat)
    requires i < |events| && (IsClosing(events[0]) ==> depth > 0)
    ensures DepthAt(events, i + 1, depth) == DepthAt(events[1..], i, DepthAfter(events[0], depth))
    ensures DepthAt(events, 0, depth) == depth
  {
    CountShifts(events, i, IsOpening);
    CountShifts(events, i, IsClosing);
  }

  lemma AllowedShifts(events: seq<Event>, i: nat, depth: nat, nodes: nat)
    requires i + 1 < |events| && (IsClosing(events[0]) ==> depth > 0)
    ensures AllowedAt(events, i + 1, depth, nodes) <==>
      AllowedAt(events[1..], i, DepthAfter(events[0], depth), NodesAfter(events[0], nodes))
  {
    DepthShifts(events, i, depth);
    CountShifts(events, i, IsNode);
  }

  lemma AllowedStep(events: seq<Event>, documents: nat, depth: nat, nodes: nat)
    requires events != [] && events[0] != StreamEnd
    ensures AllowedAt(events, 0, depth, nodes) ==>
      (Allowed(events, documents, depth, nodes) <==>
        Allowed(events[1..], DocumentsAfter(events[0], documents), DepthAfter(events[0], depth),
                NodesAfter(events[0], nodes)))
    ensures Allowed(events, documents, depth, nodes) ==> AllowedAt(events, 0, depth, nodes)
  {
    hide AllowedAt, CountIf, DepthAt;
    assert Length(events) > 0;
    if AllowedAt(events, 0, depth, nodes) {
      FirstAllowed(events, depth, nodes);
      var e, n := events[0], Length(events[1..]);
      CountShifts(events, n, IsDocument);
      DepthShifts(events, n, depth);
      forall i | 0 <= i < n
        ensures AllowedAt(events, i + 1, depth, nodes) <==>
          AllowedAt(events[1..], i, DepthAfter(e, depth), NodesAfter(e, nodes))
      {
        AllowedShifts(events, i, depth, nodes);
      }
      if forall i | 0 <= i < n :: AllowedAt(events[1..], i, DepthAfter(e, depth), NodesAfter(e, nodes)) {
        forall i | 0 <= i < n + 1 ensures AllowedAt(events, i, depth, nodes) {
          if i > 0 { AllowedShifts(events, i - 1, depth, nodes); }
        }
      }
    }
  }

  lemma FirstAllowed(events: seq<Event>, depth: nat, nodes: nat)
    requires events != []
    ensures AllowedAt(events, 0, depth, nodes) <==>
      && IsPermitted(events[0]) && (IsClosing(events[0]) ==> depth > 0)
      && (IsNode(events[0]) ==> depth < MAX_DEPTH && nodes < MAX_NODES)
  {
    assert events[..0] == [];
  }

  /** The event pass accepts exactly the streams that are allowed, as a whole, by these counts. */
  lemma {:induction false} PolicyExactly(events: seq<Event>, documents: nat, depth: nat, nodes: nat)
    ensures Policy(events, documents, depth, nodes) <==> Allowed(events, documents, depth, nodes)
    decreases |events|
  {
    if events == [] || events[0] == StreamEnd {
      assert events[..0] == [];
    } else {
      hide Allowed, AllowedAt;
      FirstAllowed(events, depth, nodes);
      AllowedStep(events, documents, depth, nodes);
      if AllowedAt(events, 0, depth, nodes) {
        var e := events[0];
        PolicyExactly(events[1..], DocumentsAfter(e, documents), DepthAfter(e, depth), NodesAfter(e, nodes));
        if IsDocument(e) && documents > 0 { TooManyDocuments(events[1..], documents + 1, depth, nodes); }
      }
    }
  }

  lemma TooManyDocuments(events: seq<Event>, documents: nat, depth: nat, nodes: nat)
    requires documents > 1
    ensures !Allowed(events, documents, depth, nodes)
  {}

  // ---------- values as trees ----------

  /** The tree spells the value: it has the same scalars, items and members in the same order. */
  ghost predicate Spells(t: Yaml, v: Json)
    decreases v
  {
    match v
    case Null => t.YamlNull? || t.BadValue?
    case Bool(b) => t == YamlBoolean(b)
    case Integer(i) => t == YamlInteger(i)
    case Real(bits) => t == YamlReal(Some(Finite(bits)))
    case String(s) => t == YamlString(s)
    case Array(items) => t.YamlArray? && SpellsItems(t.items, items)
    case Map(entries) => t.YamlHash? && SpellsEntries(t.entries, entries)
  }

  ghost predicate SpellsItems(ts: seq<Yaml>, vs: seq<Json>)
    decreases vs
  {
    |ts| == |vs| && (vs != [] ==> Spells(ts[0], vs[0]) && SpellsItems(ts[1..], vs[1..]))
  }

  ghost predicate SpellsEntries(es: seq<YamlEntry>, ms: seq<Member>)
    decreases ms
  {
    && |es| == |ms|
    && (ms != [] ==>
          assert ms[0].value < ms[0];
          es[0].key == YamlString(ms[0].key) && Spells(es[0].value, ms[0].value) && SpellsEntries(es[1..], ms[1..]))
  }

  /** No member is named like the merge key. */
  ghost predicate NoMergeKey(v: Json) {
    match v
    case Array(items) => forall x <- items :: NoMergeKey(x)
    case Map(entries) => forall m <- entries :: m.key != "<<" && NoMergeKey(m.value)
    case _ => true
  }

  ghost predicate Loadable(v: Json) { Legal(v) && NoMergeKey(v) }

  /** A tree has a value exactly when it spells one that is legal and has no merge key. */
  lemma {:induction false} ValueExactly(t: Yaml, v: Json)
    ensures Value(t) == Some(v) <==> Spells(t, v) && Legal(v) && NoMergeKey(v)
    decreases t, 1
  {
    match t
    case YamlArray(items) =>
      if v.Array? { ValueItemsExactly(items, v.items); }
    case YamlHash(entries) =>
      if v.Map? {
        ValueEntriesExactly(entries, v.entries);
        MapLoadable(v.entries);
      }
    case _ =>
  }

  lemma MapLoadable(ms: seq<Member>)
    ensures Legal(Map(ms)) && NoMergeKey(Map(ms)) <==>
      Distinct(ms) && forall m <- ms :: m.key != "<<" && Loadable(m.value)
  {}

  lemma {:induction false} ValueItemsExactly(items: seq<Yaml>, vs: seq<Json>)
    ensures ValueItems(items) == Some(vs) <==> SpellsItems(items, vs) && forall v <- vs :: Loadable(v)
    decreases items, 0
  {
    hide Value, Spells, Loadable;
    if items != [] {
      ItemsSplit(items, vs);
      if vs != [] {
        assert vs == [vs[0]] + vs[1..];
        ValueExactly(items[0], vs[0]);
        LoadableIs(vs[0]);
        ValueItemsExactly(items[1..], vs[1..]);
      }
    }
  }

  lemma LoadableIs(v: Json)
    ensures Loadable(v) <==> Legal(v) && NoMergeKey(v)
  {}

  lemma ItemsSplit(items: seq<Yaml>, vs: seq<Json>)
    requires items != []
    ensures ValueItems(items) == Some(vs) <==>
      vs != [] && Value(items[0]) == Some(vs[0]) && ValueItems(items[1..]) == Some(vs[1..])
  {
    hide Value;
    if Value(items[0]).Some? && ValueItems(items[1..]).Some? {
      var v, rest := Value(items[0]).value, ValueItems(items[1..]).value;
      assert [v] + rest == vs <==> vs != [] && v == vs[0] && rest == vs[1..] by {
        assert ([v] + rest)[1..] == rest;
        if vs != [] { assert [vs[0]] + vs[1..] == vs; }
      }
    }
  }

  lemma {:induction false} ValueEntriesExactly(entries: seq<YamlEntry>, ms: seq<Member>)
    ensures ValueEntries(entries) == Some(ms) <==>
      SpellsEntries(entries, ms) && forall m <- ms :: m.key != "<<" && Loadable(m.value)
    decreases entries, 0
  {
    hide Value, Spells, Loadable;
    if entries != [] {
      assert entries[0].value < entries[0];
      EntriesSplit(entries, ms);
      if ms != [] {
        assert ms == [ms[0]] + ms[1..];
        ValueExactly(entries[0].value, ms[0].value);
        LoadableIs(ms[0].value);
        ValueEntriesExactly(entries[1..], ms[1..]);
      }
    }
  }

  lemma EntriesSplit(entries: seq<YamlEntry>, ms: seq<Member>)
    requires entries != []
    ensures ValueEntries(entries) == Some(ms) <==>
      && ms != [] && KeyOk(entries[0].key) && entries[0].key == YamlString(ms[0].key)
      && Value(entries[0].value) == Some(ms[0].value) && ValueEntries(entries[1..]) == Some(ms[1..])
  {
    hide Value;
    var e := entries[0];
    assert e.value < e;
    if Value(e.value).Some? && KeyOk(e.key) && ValueEntries(entries[1..]).Some? {
      var m, rest := Member(e.key.s, Value(e.value).value), ValueEntries(entries[1..]).value;
      assert [m] + rest == ms <==> ms != [] && m == ms[0] && rest == ms[1..] by {
        assert ([m] + rest)[1..] == rest;
        if ms != [] { assert [ms[0]] + ms[1..] == ms; }
      }
    }
  }

  // ---------- dumping ----------

  /** `safe_json_to_yaml`; the text of a real reads back as that real. */
  function JsonToYaml(v: Json): Yaml
    decreases v
  {
    match v
    case Null => YamlNull
    case Bool(b) => YamlBoolean(b)
    case Integer(i) => YamlInteger(i)
    case Real(bits) => YamlReal(Some(Finite(bits)))
    case String(s) => YamlString(s)
    case Array(items) => YamlArray(ItemsToYaml(items))
    case Map(entries) => YamlHash(EntriesToYaml(entries))
  }

  function ItemsToYaml(items: seq<Json>): seq<Yaml>
    decreases items
  {
    if items == [] then [] else [JsonToYaml(items[0])] + ItemsToYaml(items[1..])
  }

  function EntriesToYaml(entries: seq<Member>): seq<YamlEntry>
    decreases entries
  {
    if entries == [] then []
    else
      var m := entries[0];
      assert m.value < m;
      [YamlEntry(YamlString(m.key), JsonToYaml(m.value))] + EntriesToYaml(entries[1..])
  }

  lemma {:induction false} DumpSpells(v: Json)
    ensures Spells(JsonToYaml(v), v)
    decreases v, 1
  {
    match v
    case Array(items) => DumpSpellsItems(items);
    case Map(entries) => DumpSpellsEntries(entries);
    case _ =>
  }

  lemma {:induction false} DumpSpellsItems(items: seq<Json>)
    ensures SpellsItems(ItemsToYaml(items), items)
    decreases items, 0
  {
    if items != [] {
      DumpSpells(items[0]);
      DumpSpellsItems(items[1..]);
    }
  }

  lemma {:induction false} DumpSpellsEntries(entries: seq<Member>)
    ensures SpellsEntries(EntriesToYaml(entries), entries)
    decreases entries, 0
  {
    if entries != [] {
      assert entries[0].value < entries[0];
      DumpSpells(entries[0].value);
      DumpSpellsEntries(entries[1..]);
    }
  }

  /** What is dumped loads as itself exactly when it is legal and has no merge key. */
  lemma DumpedLoads(v: Json)
    ensures Value(JsonToYaml(v)) == Some(v) <==> Legal(v) && NoMergeKey(v)
  {
    DumpSpells(v);
    ValueExactly(JsonToYaml(v), v);
  }
}
