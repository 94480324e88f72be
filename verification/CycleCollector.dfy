/** The graph algorithm of `collect_inner` in gc_state.rs: gather, subtract internal references, mark,
    and close over resurrected objects. Hash sets are visited in arbitrary order. */
module CycleCollector {
  import opened Wrappers
  import GcLists

  type Obj = GcLists.Obj

  /** Strong counts, and the referents of an object as its traversal reports them (with repeats). */
  type Counts = Obj -> nat
  type Edges = Obj -> seq<Obj>

  // ---------- counting references ----------

  function Occurrences(s: seq<Obj>, o: Obj): (n: nat)
    ensures n == multiset(s)[o]
  {
    if s == [] then 0
    else
      assert s == s[..|s| - 1] + [s[|s| - 1]];
      Occurrences(s[..|s| - 1], o) + if s[|s| - 1] == o then 1 else 0
  }

  /** The number of references to o from members of a set. */
  ghost function InEdges(from: set<Obj>, edges: Edges, o: Obj): nat {
    if from == {} then 0 else
      var p := Least(from);
      Occurrences(edges(p), o) + InEdges(from - {p}, edges, o)
  }

  ghost function Least(s: set<Obj>): (p: Obj)
    requires s != {}
    ensures p in s && forall q | q in s :: p <= q
  {
    assert exists p :: p in s && forall q | q in s :: p <= q by { var _ := LeastOf(s); }
    var p :| p in s && forall q | q in s :: p <= q;
    p
  }

  lemma {:induction false} LeastOf(s: set<Obj>) returns (p: Obj)
    requires s != {}
    ensures p in s && forall q | q in s :: p <= q
  {
    p :| p in s;
    if s != {p} {
      var q := LeastOf(s - {p});
      assert forall r | r in s :: r == p || r in s - {p};
      if q < p { p := q; }
    }
  }

  /** The count may be taken in any order. */
  lemma {:induction false} InEdgesAny(from: set<Obj>, edges: Edges, o: Obj, p: Obj)
    requires p in from
    ensures InEdges(from, edges, o) == Occurrences(edges(p), o) + InEdges(from - {p}, edges, o)
    decreases from
  {
    var q := Least(from);
    if q != p {
      InEdgesAny(from - {q}, edges, o, p);
      InEdgesAny(from - {p}, edges, o, q);
      assert from - {q} - {p} == from - {p} - {q};
    }
  }

  lemma {:induction false} InEdgesMonotone(small: set<Obj>, big: set<Obj>, edges: Edges, o: Obj)
    requires small <= big
    ensures InEdges(small, edges, o) <= InEdges(big, edges, o)
    decreases small
  {
    if small != {} {
      var p := Least(small);
      InEdgesAny(big, edges, o, p);
      InEdgesMonotone(small - {p}, big - {p}, edges, o);
    }
  }

  lemma {:induction false} OccursIfIn(s: seq<Obj>, o: Obj)
    ensures Occurrences(s, o) > 0 <==> o in s
  {
    if s != [] {
      OccursIfIn(s[..|s| - 1], o);
      assert s == s[..|s| - 1] + [s[|s| - 1]];
    }
  }

  /** A member with an edge to o adds to the count of any set it joins. */
  lemma EdgeCounts(small: set<Obj>, big: set<Obj>, edges: Edges, p: Obj, o: Obj)
    requires small <= big && p in big && p !in small && o in edges(p)
    ensures InEdges(small, edges, o) < InEdges(big, edges, o)
  {
    InEdgesAny(big, edges, o, p);
    OccursIfIn(edges(p), o);
    InEdgesMonotone(small, big - {p}, edges, o);
  }

  /** Edges that all come from inside a subset are counted by the subset alone. */
  lemma {:induction false} NoEdgesOutside(small: set<Obj>, big: set<Obj>, edges: Edges, o: Obj)
    requires small <= big
    requires forall p | p in big && p !in small :: o !in edges(p)
    ensures InEdges(small, edges, o) == InEdges(big, edges, o)
    decreases big
  {
    if big == small {
    } else {
      var p :| p in big && p !in small;
      InEdgesAny(big, edges, o, p);
      OccursIfIn(edges(p), o);
      NoEdgesOutside(small, big - {p}, edges, o);
    }
  }

  // ---------- reachability ----------

  /** A path inside a set that starts at a seed. */
  ghost predicate IsPath(path: seq<Obj>, within: set<Obj>, edges: Edges, seeds: set<Obj>) {
    && path != []
    && path[0] in seeds
    && (forall i | 0 <= i < |path| :: path[i] in within)
    && forall i | 0 <= i < |path| - 1 :: path[i + 1] in edges(path[i])
  }

  ghost predicate Reachable(o: Obj, within: set<Obj>, edges: Edges, seeds: set<Obj>) {
    exists path :: IsPath(path, within, edges, seeds) && path[|path| - 1] == o
  }

  lemma SeedReachable(o: Obj, within: set<Obj>, edges: Edges, seeds: set<Obj>)
    requires o in seeds && o in within
    ensures Reachable(o, within, edges, seeds)
  {
    assert IsPath([o], within, edges, seeds);
  }

  lemma StepReachable(p: Obj, o: Obj, within: set<Obj>, edges: Edges, seeds: set<Obj>)
    requires Reachable(p, within, edges, seeds) && o in edges(p) && o in within
    ensures Reachable(o, within, edges, seeds)
  {
    var path :| IsPath(path, within, edges, seeds) && path[|path| - 1] == p;
    var longer := path + [o];
    assert IsPath(longer, within, edges, seeds);
    assert longer[|longer| - 1] == o;
  }

  /** A set that holds the seeds and is closed under edges holds everything reachable. */
  lemma {:induction false} ClosedHolds(path: seq<Obj>, within: set<Obj>, edges: Edges, seeds: set<Obj>, s: set<Obj>)
    requires IsPath(path, within, edges, seeds) && seeds <= s
    requires forall p, o | p in s && o in edges(p) && o in within :: o in s
    ensures path[|path| - 1] in s
  {
    if |path| > 1 {
      ClosedHolds(path[..|path| - 1], within, edges, seeds, s);
    }
  }

  lemma ClosedIsAll(o: Obj, within: set<Obj>, edges: Edges, seeds: set<Obj>, s: set<Obj>)
    requires Reachable(o, within, edges, seeds) && seeds <= s
    requires forall p, q | p in s && q in edges(p) && q in within :: q in s
    ensures o in s
  {
    var path :| IsPath(path, within, edges, seeds) && path[|path| - 1] == o;
    ClosedHolds(path, within, edges, seeds, s);
  }

  // ---------- the closure by worklist ----------

  /** Every member off the worklist has all its neighbours in the set. */
  ghost predicate Expanded(within: set<Obj>, edges: Edges, found: set<Obj>, work: seq<Obj>) {
    forall p, o | p in found && p !in work && o in edges(p) && o in within :: o in found
  }

  /** The body of the marking loop: new referents join the set and the worklist. */
  method VisitReferents(within: set<Obj>, referents: seq<Obj>, found0: set<Obj>, worklist0: seq<Obj>)
      returns (found: set<Obj>, worklist: seq<Obj>)
    requires found0 <= within
    ensures found == found0 + (set o | o in referents && o in within)
    ensures forall o :: o in worklist <==> o in worklist0 || (o in found && o !in found0)
    ensures found == found0 ==> worklist == worklist0
  {
    found, worklist := found0, worklist0;
    for i := 0 to |referents|
      invariant found == found0 + (set o | o in referents[..i] && o in within)
      invariant forall o :: o in worklist <==> o in worklist0 || (o in found && o !in found0)
      invariant found == found0 ==> worklist == worklist0
    {
      var child := referents[i];
      assert referents[..i + 1] == referents[..i] + [child];
      if child in within && child !in found {
        found := found + {child};
        worklist := worklist + [child];
      }
    }
    assert referents[..|referents|] == referents;
  }

  /** The referents that marking follows: those of objects whose tracked flag is set. */
  function Followed(edges: Edges, tracked: Obj -> bool): Edges {
    o => if tracked(o) then edges(o) else []
  }

  lemma FollowedReachable(o: Obj, within: set<Obj>, edges: Edges, tracked: Obj -> bool, seeds: set<Obj>)
    ensures Reachable(o, within, Followed(edges, tracked), seeds) ==> Reachable(o, within, edges, seeds)
    ensures (forall p | p in within :: tracked(p)) && Reachable(o, within, edges, seeds) ==>
      Reachable(o, within, Followed(edges, tracked), seeds)
  {
    if Reachable(o, within, Followed(edges, tracked), seeds) {
      var path :| IsPath(path, within, Followed(edges, tracked), seeds) && path[|path| - 1] == o;
      assert IsPath(path, within, edges, seeds);
    }
    if (forall p | p in within :: tracked(p)) && Reachable(o, within, edges, seeds) {
      var path :| IsPath(path, within, edges, seeds) && path[|path| - 1] == o;
      assert IsPath(path, within, Followed(edges, tracked), seeds);
    }
  }

  /** The marking loop, which serves step 4 and the transitive resurrection alike. */
  method Close(within: set<Obj>, edges: Edges, tracked: Obj -> bool, seeds: set<Obj>) returns (found: set<Obj>)
    requires seeds <= within
    ensures seeds <= found <= within
    ensures forall o | o in within :: o in found <==> Reachable(o, within, Followed(edges, tracked), seeds)
  {
    hide Reachable;
    ghost var followed := Followed(edges, tracked);
    found := seeds;
    var worklist := SetToSeq(seeds);
    forall o | o in found ensures Reachable(o, within, followed, seeds) { SeedReachable(o, within, followed, seeds); }
    while worklist != []
      invariant seeds <= found <= within
      invariant forall p | p in worklist :: p in found
      invariant forall o | o in found :: Reachable(o, within, followed, seeds)
      invariant Expanded(within, followed, found, worklist)
      decreases |within - found|, |worklist|
    {
      var ptr := worklist[|worklist| - 1];
      ghost var work, before := worklist, found;
      worklist := worklist[..|worklist| - 1];
      if tracked(ptr) {
        found, worklist := VisitReferents(within, edges(ptr), found, worklist);
      }
      OneVisit(within, followed, seeds, ptr, before, work, found, worklist);
    }
    forall o | o in within && Reachable(o, within, followed, seeds) ensures o in found {
      ClosedIsAll(o, within, followed, seeds, found);
    }
  }

  lemma OneVisit(within: set<Obj>, edges: Edges, seeds: set<Obj>, ptr: Obj,
                 before: set<Obj>, work: seq<Obj>, found: set<Obj>, worklist: seq<Obj>)
    requires before <= within && ptr in before && work != [] && work[|work| - 1] == ptr
    requires forall o | o in before :: Reachable(o, within, edges, seeds)
    requires Expanded(within, edges, before, work)
    requires found == before + (set o | o in edges(ptr) && o in within)
    requires forall o :: o in worklist <==> o in work[..|work| - 1] || (o in found && o !in before)
    ensures forall o | o in found :: Reachable(o, within, edges, seeds)
    ensures Expanded(within, edges, found, worklist)
    ensures found != before ==> |within - found| < |within - before|
  {
    forall o | o in found ensures Reachable(o, within, edges, seeds) {
      if o !in before { StepReachable(ptr, o, within, edges, seeds); }
    }
    forall p, o | p in found && p !in worklist && o in edges(p) && o in within ensures o in found {
      assert p in before;
      if p != ptr { assert work == work[..|work| - 1] + [ptr]; assert p !in work; }
    }
    if found != before { Shrinks(within, before, found); }
  }

  lemma Shrinks(within: set<Obj>, a: set<Obj>, b: set<Obj>)
    requires a <= b <= within && a != b
    ensures |within - b| < |within - a|
  {
    SubsetSize(within - b, within - a);
  }

  lemma {:induction false} SubsetSize(a: set<Obj>, b: set<Obj>)
    requires a <= b
    ensures |a| <= |b| && (a != b ==> |a| < |b|)
    decreases a
  {
    if a == {} {
    } else {
      var x :| x in a;
      SubsetSize(a - {x}, b - {x});
    }
  }

  method SetToSeq(s: set<Obj>) returns (r: seq<Obj>)
    ensures forall o :: o in r <==> o in s
  {
    r := [];
    var todo := s;
    while todo != {}
      invariant todo <= s
      invariant forall o :: o in r <==> o in s && o !in todo
      decreases todo
    {
      var o :| o in todo;
      todo := todo - {o};
      r := r + [o];
    }
  }

  // ---------- step 1: gather ----------

  method Gather(lists: seq<seq<Obj>>, generation: nat, strong: Counts) returns (collecting: set<Obj>)
    requires |lists| == 3
    ensures forall o :: o in collecting <==>
      strong(o) > 0 && exists i :: 0 <= i <= Min(generation, 2) && o in lists[i]
  {
    var top := Min(generation, 2);
    collecting := {};
    for i := 0 to top + 1
      invariant forall o :: o in collecting <==> strong(o) > 0 && exists k :: 0 <= k < i && o in lists[k]
    {
      var list := lists[i];
      ghost var before := collecting;
      for j := 0 to |list|
        invariant forall o :: o in collecting <==> o in before || (strong(o) > 0 && o in list[..j])
      {
        if strong(list[j]) > 0 {
          collecting := collecting + {list[j]};
        }
        assert list[..j + 1] == list[..j] + [list[j]];
      }
      assert list[..|list|] == list;
    }
  }

  // ---------- steps 2 and 3: subtract internal references ----------

  function Saturating(a: nat, b: nat): nat {
    if a < b then 0 else a - b
  }

  /** One object's referents are subtracted. */
  method DropReferents(gcRefs0: map<Obj, nat>, referents: seq<Obj>) returns (gcRefs: map<Obj, nat>)
    ensures gcRefs.Keys == gcRefs0.Keys
    ensures forall o | o in gcRefs :: gcRefs[o] == Saturating(gcRefs0[o], Occurrences(referents, o))
  {
    gcRefs := gcRefs0;
    assert referents[..0] == [];
    hide Occurrences;
    for i := 0 to |referents|
      invariant gcRefs.Keys == gcRefs0.Keys
      invariant forall o | o in gcRefs :: gcRefs[o] == Saturating(gcRefs0[o], Occurrences(referents[..i], o))
    {
      var child := referents[i];
      forall o
        ensures Occurrences(referents[..i + 1], o) == Occurrences(referents[..i], o) + if child == o then 1 else 0
      {
        OccurrencesMore(referents, i, o);
      }
      if child in gcRefs {
        gcRefs := gcRefs[child := Saturating(gcRefs[child], 1)];
      }
    }
    assert referents[..|referents|] == referents;
  }

  lemma OccurrencesMore(s: seq<Obj>, i: nat, o: Obj)
    requires i < |s|
    ensures Occurrences(s[..i + 1], o) == Occurrences(s[..i], o) + if s[i] == o then 1 else 0
  {
    assert s[..i + 1][..i] == s[..i];
  }

  lemma NoInEdges(edges: Edges)
    ensures forall o :: InEdges({}, edges, o) == 0
  {}

  lemma InEdgesMore(from: set<Obj>, edges: Edges, o: Obj, p: Obj)
    requires p !in from
    ensures InEdges(from + {p}, edges, o) == InEdges(from, edges, o) + Occurrences(edges(p), o)
  {
    InEdgesAny(from + {p}, edges, o, p);
    assert from + {p} - {p} == from;
  }

  /** Whatever order the set is visited in, each count loses exactly its internal references. */
  method SubtractInternal(collecting: set<Obj>, strong: Counts, edges: Edges) returns (gcRefs: map<Obj, nat>)
    ensures gcRefs.Keys == collecting
    ensures forall o | o in collecting :: gcRefs[o] == Saturating(strong(o), InEdges(collecting, edges, o))
  {
    hide InEdges, Occurrences;
    gcRefs := map o | o in collecting :: strong(o);
    NoInEdges(edges);
    var todo := collecting;
    ghost var done := {};
    while todo != {}
      invariant gcRefs.Keys == collecting
      invariant done !! todo && done + todo == collecting
      invariant forall o | o in collecting :: gcRefs[o] == Saturating(strong(o), InEdges(done, edges, o))
      decreases todo
    {
      var ptr :| ptr in todo;
      todo := todo - {ptr};
      gcRefs := DropReferents(gcRefs, edges(ptr));
      forall o | o in collecting
        ensures InEdges(done + {ptr}, edges, o) == InEdges(done, edges, o) + Occurrences(edges(ptr), o)
      {
        InEdgesMore(done, edges, o, ptr);
      }
      done := done + {ptr};
    }
  }

  // ---------- steps 4 and 5: mark, and what is left ----------

  /** The gathered objects with more references than the gathered graph accounts for. */
  ghost function Surplus(collecting: set<Obj>, strong: Counts, edges: Edges): set<Obj> {
    set o | o in collecting && strong(o) > InEdges(collecting, edges, o)
  }

  method FindUnreachable(collecting: set<Obj>, strong: Counts, edges: Edges, tracked: Obj -> bool)
      returns (reachable: set<Obj>, unreachable: set<Obj>)
    ensures reachable + unreachable == collecting && reachable !! unreachable
    ensures forall o | o in collecting ::
      o in unreachable <==> !Reachable(o, collecting, Followed(edges, tracked), Surplus(collecting, strong, edges))
    ensures (forall o | o in collecting :: tracked(o)) ==> IsUnreachable(unreachable, collecting, strong, edges)
  {
    var gcRefs := SubtractInternal(collecting, strong, edges);
    var seeds := set o | o in gcRefs && gcRefs[o] > 0;
    assert seeds == Surplus(collecting, strong, edges);
    reachable := Close(collecting, edges, tracked, seeds);
    unreachable := collecting - reachable;
    forall o
      ensures Reachable(o, collecting, Followed(edges, tracked), seeds) ==> Reachable(o, collecting, edges, seeds)
      ensures (forall p | p in collecting :: tracked(p)) && Reachable(o, collecting, edges, seeds) ==>
        Reachable(o, collecting, Followed(edges, tracked), seeds)
    {
      FollowedReachable(o, collecting, edges, tracked, seeds);
    }
  }

  // ---------- steps 1 to 5 under the read locks ----------

  /** The list holds the members of list l as they were at some state from i to j. */
  ghost predicate ReadWithin(run: seq<GcLists.State>, i: nat, j: nat, l: nat, list: seq<Obj>) {
    exists k: nat :: i <= k <= j < |run| && ReadAt(run[k], l, list)
  }

  ghost predicate ReadAt(s: GcLists.State, l: nat, list: seq<Obj>) {
    l < |s.lists| && forall o: Obj :: o in list <==> o in s.lists[l]
  }

  /** The flag is that of the object at some state from i to j. */
  ghost predicate FlagWithin(run: seq<GcLists.State>, i: nat, j: nat, o: Obj, flag: bool) {
    exists k: nat :: i <= k <= j < |run| && (flag <==> o in run[k].tracked)
  }

  /** Whatever is gathered while the locks are held has its flag whenever the flag is read. */
  lemma GatheredIsTracked(run: seq<GcLists.State>, i: nat, j: nat, t: GcLists.Thread, gen: nat, l: nat,
                          list: seq<Obj>, o: Obj, flag: bool)
    requires GcLists.Execution(run) && GcLists.Scanning(run, i, j, t, gen) && l <= gen
    requires ReadWithin(run, i, j, l, list) && o in list && FlagWithin(run, i, j, o, flag)
    ensures flag && l < |run[i].lists| && o in run[i].lists[l]
  {
    hide GcLists.Execution;
    var k: nat :| i <= k <= j < |run| && ReadAt(run[k], l, list);
    var m: nat :| i <= m <= j < |run| && (flag <==> o in run[m].tracked);
    GcLists.ScanSeesOneState(run, i, k, t, gen, l);
    GcLists.ScanSeesOneState(run, i, m, t, gen, l);
  }

  /** The scan of a collector thread t, from state i to state j of any interleaving: each list is read
      and each flag is looked at at some moment of the scan, with other threads at work in between. */
  method Scan(ghost run: seq<GcLists.State>, ghost i: nat, ghost j: nat, ghost t: GcLists.Thread,
              generation: nat, lists: seq<seq<Obj>>, strong: Counts, edges: Edges, tracked: Obj -> bool)
      returns (collecting: set<Obj>, unreachable: set<Obj>)
    requires GcLists.Execution(run) && GcLists.Scanning(run, i, j, t, Min(generation, 2)) && |lists| == 3
    requires forall l | 0 <= l <= Min(generation, 2) :: ReadWithin(run, i, j, l, lists[l])
    requires forall o :: FlagWithin(run, i, j, o, tracked(o))
    ensures |run[i].lists| == 4
    ensures forall o :: o in collecting <==>
      strong(o) > 0 && exists l :: 0 <= l <= Min(generation, 2) && o in run[i].lists[l]
    ensures IsUnreachable(unreachable, collecting, strong, edges)
  {
    hide GcLists.Execution, IsUnreachable;
    collecting := Gather(lists, generation, strong);
    ListsRead(run, i, j, t, Min(generation, 2), lists);
    forall o | o in collecting ensures tracked(o) {
      var l :| 0 <= l <= Min(generation, 2) && o in lists[l];
      GatheredIsTracked(run, i, j, t, Min(generation, 2), l, lists[l], o, tracked(o));
    }
    var _, rest := FindUnreachable(collecting, strong, edges, tracked);
    unreachable := rest;
  }

  lemma ListsRead(run: seq<GcLists.State>, i: nat, j: nat, t: GcLists.Thread, gen: nat, lists: seq<seq<Obj>>)
    requires GcLists.Execution(run) && GcLists.Scanning(run, i, j, t, gen) && gen < |lists|
    requires forall l | 0 <= l <= gen :: ReadWithin(run, i, j, l, lists[l])
    ensures gen <= 2 && |run[i].lists| == 4
    ensures forall l, o | 0 <= l <= gen :: o in lists[l] <==> o in run[i].lists[l]
  {
    hide GcLists.Execution;
    GcLists.ScanSeesOneState(run, i, i, t, gen, 0);
    forall l, o | 0 <= l <= gen ensures o in lists[l] <==> o in run[i].lists[l] {
      var k: nat :| i <= k <= j < |run| && ReadAt(run[k], l, lists[l]);
      GcLists.ScanSeesOneState(run, i, k, t, gen, l);
    }
  }

  // ---------- what the result means ----------

  /** Strong counts account at least for the references from gathered objects. */
  ghost predicate Accounted(collecting: set<Obj>, strong: Counts, edges: Edges) {
    forall o | o in collecting :: strong(o) >= InEdges(collecting, edges, o)
  }

  /** All references to members come from members. */
  ghost predicate Isolated(s: set<Obj>, strong: Counts, edges: Edges) {
    forall o | o in s :: strong(o) == InEdges(s, edges, o)
  }

  ghost predicate IsUnreachable(u: set<Obj>, collecting: set<Obj>, strong: Counts, edges: Edges) {
    && u <= collecting
    && forall o | o in collecting :: o in u <==> !Reachable(o, collecting, edges, Surplus(collecting, strong, edges))
  }

  /** What marking with the flags leaves is the unreachable part exactly when no object without the
      flag that was reached refers to something left. */
  lemma FlagsMatterExactly(u: set<Obj>, collecting: set<Obj>, strong: Counts, edges: Edges, tracked: Obj -> bool)
    requires u <= collecting
    requires forall o | o in collecting ::
      o in u <==> !Reachable(o, collecting, Followed(edges, tracked), Surplus(collecting, strong, edges))
    ensures IsUnreachable(u, collecting, strong, edges) <==>
      forall p, o | p in collecting - u && !tracked(p) && o in edges(p) :: o !in u
  {
    hide Reachable;
    var seeds := Surplus(collecting, strong, edges);
    if forall p, o | p in collecting - u && !tracked(p) && o in edges(p) :: o !in u {
      forall o | o in collecting ensures o in u <==> !Reachable(o, collecting, edges, seeds) {
        FollowedReachable(o, collecting, edges, tracked, seeds);
        if Reachable(o, collecting, edges, seeds) {
          ReachedAnyway(o, collecting, edges, tracked, seeds, collecting - u);
        }
      }
    }
    if IsUnreachable(u, collecting, strong, edges) {
      forall p, o | p in collecting - u && !tracked(p) && o in edges(p) ensures o !in u {
        if o in u { StepReachable(p, o, collecting, edges, seeds); }
      }
    }
  }

  /** If what the flags skip is reached otherwise, marking reaches everything. */
  lemma ReachedAnyway(o: Obj, collecting: set<Obj>, edges: Edges, tracked: Obj -> bool, seeds: set<Obj>,
                      reached: set<Obj>)
    requires seeds <= collecting && reached <= collecting
    requires forall p | p in collecting :: p in reached <==> Reachable(p, collecting, Followed(edges, tracked), seeds)
    requires forall p, q | p in reached && !tracked(p) && q in edges(p) && q in collecting :: q in reached
    requires Reachable(o, collecting, edges, seeds)
    ensures o in reached
  {
    hide Reachable;
    var followed := Followed(edges, tracked);
    forall p | p in seeds ensures p in reached { SeedReachable(p, collecting, followed, seeds); }
    forall p, q | p in reached && q in edges(p) && q in collecting ensures q in reached {
      if tracked(p) { StepReachable(p, q, collecting, followed, seeds); }
    }
    ClosedIsAll(o, collecting, edges, seeds, reached);
  }

  /** What is found unreachable is referenced only from within itself: clearing it breaks nothing. */
  lemma UnreachableIsIsolated(u: set<Obj>, collecting: set<Obj>, strong: Counts, edges: Edges)
    requires Accounted(collecting, strong, edges) && IsUnreachable(u, collecting, strong, edges)
    ensures Isolated(u, strong, edges)
  {
    var seeds := Surplus(collecting, strong, edges);
    forall o | o in u ensures strong(o) == InEdges(u, edges, o) {
      if o in seeds { SeedReachable(o, collecting, edges, seeds); }
      forall p | p in collecting && p !in u ensures o !in edges(p) {
        if o in edges(p) { StepReachable(p, o, collecting, edges, seeds); }
      }
      NoEdgesOutside(u, collecting, edges, o);
    }
  }

  /** Every isolated set of gathered objects is found: no garbage cycle is missed. */
  lemma IsolatedIsUnreachable(s: set<Obj>, u: set<Obj>, collecting: set<Obj>, strong: Counts, edges: Edges)
    requires Accounted(collecting, strong, edges) && IsUnreachable(u, collecting, strong, edges)
    requires s <= collecting && Isolated(s, strong, edges)
    ensures s <= u
  {
    var seeds := Surplus(collecting, strong, edges);
    var outside := collecting - s;
    forall o | o in seeds ensures o in outside {
      if o in s { InEdgesMonotone(s, collecting, edges, o); }
    }
    forall p, o | p in outside && o in edges(p) && o in collecting ensures o in outside {
      if o in s { EdgeCounts(s, collecting, edges, p, o); }
    }
    forall o | o in s ensures o in u {
      if Reachable(o, collecting, edges, seeds) {
        var path :| IsPath(path, collecting, edges, seeds) && path[|path| - 1] == o;
        ClosedHolds(path, collecting, edges, seeds, outside);
      }
    }
  }

  /** The unreachable objects are exactly the union of all isolated sets of gathered objects. */
  lemma UnreachableExactly(u: set<Obj>, collecting: set<Obj>, strong: Counts, edges: Edges, o: Obj)
    requires Accounted(collecting, strong, edges) && IsUnreachable(u, collecting, strong, edges)
    ensures o in u <==> exists s :: s <= collecting && o in s && Isolated(s, strong, edges)
  {
    if o in u {
      UnreachableIsIsolated(u, collecting, strong, edges);
    }
    forall s | s <= collecting && o in s && Isolated(s, strong, edges) ensures o in u {
      IsolatedIsUnreachable(s, u, collecting, strong, edges);
    }
  }

  // ---------- step 6: resurrection ----------

  /** After the finalizers: objects whose count rose, and all they reach among the unreachable, are
      resurrected; the rest is dead. `refs` are the objects that could still be owned. */
  method Partition(unreachable: set<Obj>, refs: set<Obj>, initial: Counts, now: Counts, edges: Edges)
      returns (closure: set<Obj>, resurrected: set<Obj>, dead: set<Obj>)
    requires refs <= unreachable
    ensures resurrected + dead == refs && resurrected !! dead && resurrected <= closure <= unreachable
    ensures forall o | o in refs ::
      o in dead <==> !Reachable(o, unreachable, edges, set r | r in refs && now(r) > initial(r))
    ensures forall p, o | p in closure && o in dead :: o !in edges(p)
    ensures forall o | o in dead :: now(o) <= initial(o)
  {
    var seeds := set r | r in refs && now(r) > initial(r);
    closure := Close(unreachable, edges, _ => true, seeds);
    forall o
      ensures Reachable(o, unreachable, Followed(edges, _ => true), seeds) <==> Reachable(o, unreachable, edges, seeds)
    {
      FollowedReachable(o, unreachable, edges, _ => true, seeds);
    }
    resurrected := refs * closure;
    dead := refs - closure;
    forall p, o | p in closure && o in dead ensures o !in edges(p) {
      if o in edges(p) { StepReachable(p, o, unreachable, edges, seeds); }
    }
  }

  /** The count of an object held once by the collector, given its outside references. */
  ghost predicate CountsAre(count: Counts, unreachable: set<Obj>, edges: Edges, outside: Counts) {
    forall o | o in unreachable :: count(o) == 1 + outside(o) + InEdges(unreachable, edges, o)
  }

  /** An object that a finalizer made visible from outside is noticed by its count exactly when
      it gained more references from outside than it lost from inside. */
  lemma DirectlyNoticed(unreachable: set<Obj>, before: Edges, after: Edges, initial: Counts, now: Counts,
                        outside: Counts, o: Obj)
    requires CountsAre(initial, unreachable, before, _ => 0) && CountsAre(now, unreachable, after, outside)
    requires o in unreachable
    ensures now(o) > initial(o) <==>
      outside(o) + InEdges(unreachable, after, o) > InEdges(unreachable, before, o)
  {}

  /** The objects that something outside refers to. */
  ghost function Visible(unreachable: set<Obj>, outside: Counts): set<Obj> {
    set o | o in unreachable && outside(o) > 0
  }

  /** The objects that gained more references from outside than they lost from inside. */
  ghost function Gained(unreachable: set<Obj>, before: Edges, after: Edges, outside: Counts): set<Obj> {
    set o | o in unreachable && outside(o) + InEdges(unreachable, after, o) > InEdges(unreachable, before, o)
  }

  ghost predicate IsDead(dead: set<Obj>, unreachable: set<Obj>, after: Edges, initial: Counts, now: Counts) {
    && dead <= unreachable
    && forall o | o in unreachable ::
         o in dead <==> !Reachable(o, unreachable, after, set r | r in unreachable && now(r) > initial(r))
  }

  /** Nothing declared dead is visible from outside, directly or through others, exactly when every
      object with a reference from outside is reachable from one that gained more such references
      than it lost inside ones. */
  lemma DeadInvisibleExactly(unreachable: set<Obj>, before: Edges, after: Edges, initial: Counts, now: Counts,
                             outside: Counts, dead: set<Obj>)
    requires CountsAre(initial, unreachable, before, _ => 0) && CountsAre(now, unreachable, after, outside)
    requires IsDead(dead, unreachable, after, initial, now)
    ensures (forall o | o in dead :: !Reachable(o, unreachable, after, Visible(unreachable, outside))) <==>
      (forall r | r in Visible(unreachable, outside) ::
        Reachable(r, unreachable, after, Gained(unreachable, before, after, outside)))
  {
    hide Reachable;
    var visible, gained := Visible(unreachable, outside), Gained(unreachable, before, after, outside);
    assert gained == set r | r in unreachable && now(r) > initial(r);
    if forall r | r in visible :: Reachable(r, unreachable, after, gained) {
      var alive := unreachable - dead;
      forall p, o | p in alive && o in after(p) && o in unreachable ensures o in alive {
        StepReachable(p, o, unreachable, after, gained);
      }
      forall o | o in dead ensures !Reachable(o, unreachable, after, visible) {
        if Reachable(o, unreachable, after, visible) { ClosedIsAll(o, unreachable, after, visible, alive); }
      }
    }
    if forall o | o in dead :: !Reachable(o, unreachable, after, visible) {
      forall r | r in visible ensures Reachable(r, unreachable, after, gained) {
        SeedReachable(r, unreachable, after, visible);
      }
    }
  }

  /** In particular when no object lost a reference from inside. */
  lemma DeadIsInvisible(unreachable: set<Obj>, before: Edges, after: Edges, initial: Counts, now: Counts,
                        outside: Counts, dead: set<Obj>, o: Obj)
    requires CountsAre(initial, unreachable, before, _ => 0) && CountsAre(now, unreachable, after, outside)
    requires forall p | p in unreachable :: InEdges(unreachable, after, p) >= InEdges(unreachable, before, p)
    requires IsDead(dead, unreachable, after, initial, now) && o in dead
    ensures !Reachable(o, unreachable, after, Visible(unreachable, outside))
  {
    forall r | r in Visible(unreachable, outside)
      ensures Reachable(r, unreachable, after, Gained(unreachable, before, after, outside))
    {
      SeedReachable(r, unreachable, after, Gained(unreachable, before, after, outside));
    }
    DeadInvisibleExactly(unreachable, before, after, initial, now, outside, dead);
  }

  /** Without that condition it can be: two objects refer to each other, and a finalizer moves the
      reference to object 1 from object 0 to the outside. Its count is unchanged, so it is dead. */
  lemma ResurrectionMissed() returns (before: Edges, after: Edges, initial: Counts, now: Counts, outside: Counts)
    ensures CountsAre(initial, {0, 1}, before, _ => 0) && CountsAre(now, {0, 1}, after, outside)
    ensures outside(1) > 0 && !Reachable(1, {0, 1}, after, set r | r in {0, 1} && now(r) > initial(r))
  {
    before := o => if o == 0 then [1] else if o == 1 then [0] else [];
    after := o => if o == 1 then [0] else [];
    initial := _ => 2;
    now := _ => 2;
    outside := o => if o == 1 then 1 else 0;
    TwoEdges(before, 0);
    TwoEdges(before, 1);
    TwoEdges(after, 0);
    TwoEdges(after, 1);
  }

  lemma TwoEdges(edges: Edges, o: Obj)
    ensures InEdges({0, 1}, edges, o) == Occurrences(edges(0), o) + Occurrences(edges(1), o)
  {
    InEdgesAny({0, 1}, edges, o, 0);
    assert {0, 1} - {0} == {1};
    InEdgesAny({1}, edges, o, 1);
    assert {1} - {1} == {};
  }
}
