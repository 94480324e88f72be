/** Exception groups: `split` and `subgroup` of exception_group.rs, and the except* machinery at the
    end of exceptions.rs (PEP 654). */
module ExceptionGroups {
  import opened ExceptionClasses
  import opened Wrappers

  /** An exception object. `cls` is its class, `plain` says that it is an instance of Exception and
      not only of BaseException, and `meta` stands for what `derive` hands from a group to the one it
      makes, the message. */
  datatype Exc =
    | Leaf(id: nat, cls: nat, plain: bool)
    | Group(id: nat, cls: nat, plain: bool, meta: nat, excs: seq<Exc>)

  /** What `slot_new` enforces: a group is not empty, and a group that is an Exception holds only
      Exceptions. */
  ghost predicate WellFormed(e: Exc) {
    match e
    case Leaf(_, _, _) => true
    case Group(_, _, plain, _, excs) =>
      && excs != []
      && forall i | 0 <= i < |excs| :: WellFormed(excs[i]) && (plain ==> excs[i].plain)
  }

  predicate AllPlain(s: seq<Exc>) {
    forall i | 0 <= i < |s| :: s[i].plain
  }

  /** The default `derive`: a new object with the same message, of the class that the members allow.
      A new object has no identity that could be compared with an older one; its id is 0. */
  function Derive(g: Exc, excs: seq<Exc>): Exc
    requires g.Group?
  {
    Group(0, if AllPlain(excs) then EXCEPTION_GROUP else BASE_EXCEPTION_GROUP, AllPlain(excs), g.meta, excs)
  }

  // ---------- leaves with their position in the tree ----------

  /** A leaf under the messages of its enclosing groups, outermost first. */
  type Placed = (seq<nat>, Exc)

  /** All leaves in order with the groups around them. With messages that name their groups this
      determines a tree without empty groups. */
  function Trace(e: Exc, above: seq<nat>): seq<Placed>
    decreases e, 1
  {
    match e
    case Leaf(_, _, _) => [(above, e)]
    case Group(_, _, _, meta, excs) => TraceAll(excs, above + [meta])
  }

  function TraceAll(s: seq<Exc>, above: seq<nat>): seq<Placed>
    decreases s, 0
  {
    if s == [] then [] else TraceAll(s[..|s| - 1], above) + Trace(s[|s| - 1], above)
  }

  function TraceOption(o: Option<Exc>, above: seq<nat>): seq<Placed> {
    match o case None => [] case Some(e) => Trace(e, above)
  }

  /** The leaves that a condition selects: those it holds for, or holds for a group around. */
  function Selected(e: Exc, cond: Exc -> bool, inside: bool, wanted: bool, above: seq<nat>): seq<Placed>
    decreases e, 1
  {
    var chosen := inside || cond(e);
    match e
    case Leaf(_, _, _) => if chosen == wanted then [(above, e)] else []
    case Group(_, _, _, meta, excs) => SelectedAll(excs, cond, chosen, wanted, above + [meta])
  }

  function SelectedAll(s: seq<Exc>, cond: Exc -> bool, inside: bool, wanted: bool, above: seq<nat>): seq<Placed>
    decreases s, 0
  {
    if s == [] then []
    else SelectedAll(s[..|s| - 1], cond, inside, wanted, above) + Selected(s[|s| - 1], cond, inside, wanted, above)
  }

  // ---------- split ----------

  datatype Parts = Parts(matching: Option<Exc>, rest: Option<Exc>)

  function OptionSeq<T>(o: Option<T>): seq<T> {
    match o case None => [] case Some(x) => [x]
  }

  function GroupOf(g: Exc, excs: seq<Exc>): Option<Exc>
    requires g.Group?
  {
    if excs == [] then None else Some(Derive(g, excs))
  }

  function SplitParts(e: Exc, cond: Exc -> bool): Parts
    decreases e, 1
  {
    if cond(e) then Parts(Some(e), None)
    else match e
      case Leaf(_, _, _) => Parts(None, Some(e))
      case Group(_, _, _, _, excs) =>
        var (matching, rest) := SplitMembers(excs, cond);
        Parts(GroupOf(e, matching), GroupOf(e, rest))
  }

  function SplitMembers(s: seq<Exc>, cond: Exc -> bool): (seq<Exc>, seq<Exc>)
    decreases s, 0
  {
    if s == [] then ([], [])
    else
      var (matching, rest) := SplitMembers(s[..|s| - 1], cond);
      var p := SplitParts(s[|s| - 1], cond);
      (matching + OptionSeq(p.matching), rest + OptionSeq(p.rest))
  }

  /** `BaseExceptionGroup.split`. */
  method Split(g: Exc, cond: Exc -> bool) returns (p: Parts)
    requires g.Group?
    ensures p == SplitParts(g, cond)
    decreases g
  {
    if cond(g) {
      return Parts(Some(g), None);
    }
    var matching: seq<Exc>, rest: seq<Exc> := [], [];
    for i := 0 to |g.excs|
      invariant (matching, rest) == SplitMembers(g.excs[..i], cond)
    {
      var exc := g.excs[i];
      assert g.excs[..i + 1][..i] == g.excs[..i];
      assert matching + [] == matching && rest + [] == rest;
      if exc.Group? {
        var result := Split(exc, cond);
        matching := matching + OptionSeq(result.matching);
        rest := rest + OptionSeq(result.rest);
      } else if cond(exc) {
        matching := matching + [exc];
      } else {
        rest := rest + [exc];
      }
    }
    assert g.excs[..|g.excs|] == g.excs;
    p := Parts(if matching == [] then None else Some(Derive(g, matching)),
               if rest == [] then None else Some(Derive(g, rest)));
  }

  /** Everything a condition holds for is selected as it stands. */
  lemma {:induction false} SelectedInside(e: Exc, cond: Exc -> bool, above: seq<nat>)
    ensures Selected(e, cond, true, true, above) == Trace(e, above)
    ensures Selected(e, cond, true, false, above) == []
    decreases e, 1
  {
    if e.Group? { SelectedAllInside(e.excs, cond, above + [e.meta]); }
  }

  lemma {:induction false} SelectedAllInside(s: seq<Exc>, cond: Exc -> bool, above: seq<nat>)
    ensures SelectedAll(s, cond, true, true, above) == TraceAll(s, above)
    ensures SelectedAll(s, cond, true, false, above) == []
    decreases s, 0
  {
    if s != [] {
      SelectedAllInside(s[..|s| - 1], cond, above);
      SelectedInside(s[|s| - 1], cond, above);
    }
  }

  lemma TraceAllAppend(s: seq<Exc>, o: Option<Exc>, above: seq<nat>)
    ensures TraceAll(s + OptionSeq(o), above) == TraceAll(s, above) + TraceOption(o, above)
  {
    match o
    case None => assert s + [] == s;
    case Some(e) => assert (s + [e])[..|s|] == s;
  }

  /** Both parts hold exactly the leaves that the condition selects and does not select, in order and
      under the same groups. */
  lemma {:induction false} SplitSelects(e: Exc, cond: Exc -> bool, above: seq<nat>)
    ensures TraceOption(SplitParts(e, cond).matching, above) == Selected(e, cond, false, true, above)
    ensures TraceOption(SplitParts(e, cond).rest, above) == Selected(e, cond, false, false, above)
    decreases e, 1
  {
    if cond(e) {
      SelectedInside(e, cond, above);
      match e
      case Leaf(_, _, _) =>
      case Group(_, _, _, meta, excs) => SelectedAllInside(excs, cond, above + [meta]);
    } else if e.Group? {
      SplitMembersSelects(e.excs, cond, above + [e.meta]);
    }
  }

  lemma {:induction false} SplitMembersSelects(s: seq<Exc>, cond: Exc -> bool, above: seq<nat>)
    ensures TraceAll(SplitMembers(s, cond).0, above) == SelectedAll(s, cond, false, true, above)
    ensures TraceAll(SplitMembers(s, cond).1, above) == SelectedAll(s, cond, false, false, above)
    decreases s, 0
  {
    if s != [] {
      var n := |s| - 1;
      var p, before := SplitParts(s[n], cond), SplitMembers(s[..n], cond);
      SplitMembersSelects(s[..n], cond, above);
      SplitSelects(s[n], cond, above);
      TraceAllAppend(before.0, p.matching, above);
      TraceAllAppend(before.1, p.rest, above);
    }
  }

  /** No leaf is lost or duplicated: the two parts partition the leaves. */
  lemma {:induction false} SelectedPartitions(e: Exc, cond: Exc -> bool, inside: bool, above: seq<nat>)
    ensures multiset(Selected(e, cond, inside, true, above)) + multiset(Selected(e, cond, inside, false, above))
         == multiset(Trace(e, above))
    decreases e, 1
  {
    if e.Group? { SelectedAllPartitions(e.excs, cond, inside || cond(e), above + [e.meta]); }
  }

  lemma {:induction false} SelectedAllPartitions(s: seq<Exc>, cond: Exc -> bool, inside: bool, above: seq<nat>)
    ensures multiset(SelectedAll(s, cond, inside, true, above)) + multiset(SelectedAll(s, cond, inside, false, above))
         == multiset(TraceAll(s, above))
    decreases s, 0
  {
    if s != [] {
      SelectedAllPartitions(s[..|s| - 1], cond, inside, above);
      SelectedPartitions(s[|s| - 1], cond, inside, above);
    }
  }

  // ---------- what selects a leaf ----------

  /** For each leaf, in order, itself and the groups around it. */
  function Lineages(e: Exc, around: seq<Exc>): seq<seq<Exc>>
    decreases e, 1
  {
    match e
    case Leaf(_, _, _) => [around + [e]]
    case Group(_, _, _, _, excs) => LineagesAll(excs, around + [e])
  }

  function LineagesAll(s: seq<Exc>, around: seq<Exc>): seq<seq<Exc>>
    decreases s, 0
  {
    if s == [] then [] else LineagesAll(s[..|s| - 1], around) + Lineages(s[|s| - 1], around)
  }

  ghost predicate AnyHolds(s: seq<Exc>, cond: Exc -> bool) {
    exists x :: x in s && cond(x)
  }

  /** The elements at which the predicate decides as wanted. */
  ghost function Sift(t: seq<Placed>, ls: seq<seq<Exc>>, cond: Exc -> bool, wanted: bool): seq<Placed>
    requires |t| == |ls|
  {
    if t == [] then []
    else
      var n := |t| - 1;
      Sift(t[..n], ls[..n], cond, wanted) + if AnyHolds(ls[n], cond) == wanted then [t[n]] else []
  }

  lemma {:induction false} SiftConcat(a: seq<Placed>, b: seq<Placed>, la: seq<seq<Exc>>, lb: seq<seq<Exc>>,
                                      cond: Exc -> bool, wanted: bool)
    requires |a| == |la| && |b| == |lb|
    ensures Sift(a + b, la + lb, cond, wanted) == Sift(a, la, cond, wanted) + Sift(b, lb, cond, wanted)
  {
    if b == [] {
      assert a + b == a && la + lb == la;
    } else {
      var n := |b| - 1;
      assert (a + b)[..|a| + n] == a + b[..n] && (la + lb)[..|a| + n] == la + lb[..n];
      SiftConcat(a, b[..n], la, lb[..n], cond, wanted);
    }
  }

  /** A leaf is selected exactly when the condition holds of the leaf or of some group around it. */
  lemma {:induction false} SelectedExactly(e: Exc, cond: Exc -> bool, inside: bool, wanted: bool,
                                           above: seq<nat>, around: seq<Exc>)
    requires inside <==> AnyHolds(around, cond)
    ensures |Lineages(e, around)| == |Trace(e, above)|
    ensures Selected(e, cond, inside, wanted, above) == Sift(Trace(e, above), Lineages(e, around), cond, wanted)
    decreases e, 1
  {
    OneMoreAround(around, e, cond);
    match e
    case Leaf(_, _, _) =>
      var t, ls := Trace(e, above), Lineages(e, around);
      assert t[..0] == [] && ls[..0] == [];
    case Group(_, _, _, meta, excs) =>
      SelectedAllExactly(excs, cond, inside || cond(e), wanted, above + [meta], around + [e]);
  }

  lemma OneMoreAround(around: seq<Exc>, e: Exc, cond: Exc -> bool)
    ensures AnyHolds(around + [e], cond) <==> AnyHolds(around, cond) || cond(e)
  {
    if AnyHolds(around, cond) {
      var x :| x in around && cond(x);
      assert x in around + [e];
    }
    if cond(e) { assert e in around + [e]; }
  }

  lemma {:induction false} SelectedAllExactly(s: seq<Exc>, cond: Exc -> bool, inside: bool, wanted: bool,
                                              above: seq<nat>, around: seq<Exc>)
    requires inside <==> AnyHolds(around, cond)
    ensures |LineagesAll(s, around)| == |TraceAll(s, above)|
    ensures SelectedAll(s, cond, inside, wanted, above) ==
      Sift(TraceAll(s, above), LineagesAll(s, around), cond, wanted)
    decreases s, 0
  {
    if s != [] {
      var n := |s| - 1;
      SelectedAllExactly(s[..n], cond, inside, wanted, above, around);
      SelectedExactly(s[n], cond, inside, wanted, above, around);
      SiftConcat(TraceAll(s[..n], above), Trace(s[n], above), LineagesAll(s[..n], around), Lineages(s[n], around),
                 cond, wanted);
    }
  }

  ghost predicate WellFormedOption(o: Option<Exc>) {
    o.Some? ==> WellFormed(o.value)
  }

  /** Neither part contains an empty group. */
  lemma {:induction false} SplitWellFormed(e: Exc, cond: Exc -> bool)
    requires WellFormed(e)
    ensures WellFormedOption(SplitParts(e, cond).matching) && WellFormedOption(SplitParts(e, cond).rest)
    decreases e, 1
  {
    if !cond(e) && e.Group? { SplitMembersWellFormed(e.excs, cond); }
  }

  lemma {:induction false} SplitMembersWellFormed(s: seq<Exc>, cond: Exc -> bool)
    requires forall i | 0 <= i < |s| :: WellFormed(s[i])
    ensures forall i | 0 <= i < |SplitMembers(s, cond).0| :: WellFormed(SplitMembers(s, cond).0[i])
    ensures forall i | 0 <= i < |SplitMembers(s, cond).1| :: WellFormed(SplitMembers(s, cond).1[i])
    decreases s, 0
  {
    if s != [] {
      SplitMembersWellFormed(s[..|s| - 1], cond);
      SplitWellFormed(s[|s| - 1], cond);
    }
  }

  /** The partition that `split` promises, for every group and every condition. */
  lemma SplitPartitions(g: Exc, cond: Exc -> bool)
    requires WellFormed(g)
    ensures var p := SplitParts(g, cond);
      && WellFormedOption(p.matching) && WellFormedOption(p.rest)
      && TraceOption(p.matching, []) == Selected(g, cond, false, true, [])
      && TraceOption(p.rest, []) == Selected(g, cond, false, false, [])
      && multiset(TraceOption(p.matching, [])) + multiset(TraceOption(p.rest, [])) == multiset(Trace(g, []))
  {
    SplitWellFormed(g, cond);
    SplitSelects(g, cond, []);
    SelectedPartitions(g, cond, false, []);
  }

  // ---------- subgroup ----------

  /** The result of `subgroup`: nothing, the very same object, or a new one. */
  datatype Sub = Nothing | Same | New(group: Exc)

  function SubExc(e: Exc, s: Sub): Option<Exc> {
    match s case Nothing => None case Same => Some(e) case New(g) => Some(g)
  }

  function SubgroupOf(e: Exc, cond: Exc -> bool): Sub
    decreases e, 1
  {
    if cond(e) then Same
    else match e
      case Leaf(_, _, _) => Nothing
      case Group(_, _, _, _, excs) =>
        var (matching, modified) := SubgroupMembers(excs, cond);
        if !modified then Same else if matching == [] then Nothing else New(Derive(e, matching))
  }

  function SubgroupMembers(s: seq<Exc>, cond: Exc -> bool): (seq<Exc>, bool)
    decreases s, 0
  {
    if s == [] then ([], false)
    else
      var (matching, modified) := SubgroupMembers(s[..|s| - 1], cond);
      var sub := SubgroupOf(s[|s| - 1], cond);
      (matching + OptionSeq(SubExc(s[|s| - 1], sub)), modified || sub != Same)
  }

  /** `BaseExceptionGroup.subgroup`. */
  method Subgroup(g: Exc, cond: Exc -> bool) returns (r: Sub)
    requires g.Group?
    ensures r == SubgroupOf(g, cond)
    decreases g
  {
    if cond(g) {
      return Same;
    }
    var matching: seq<Exc>, modified := [], false;
    for i := 0 to |g.excs|
      invariant (matching, modified) == SubgroupMembers(g.excs[..i], cond)
    {
      var exc := g.excs[i];
      assert g.excs[..i + 1][..i] == g.excs[..i];
      assert matching + [] == matching;
      if exc.Group? {
        var result := Subgroup(exc, cond);
        match result {
          case Nothing => modified := true;
          case Same => matching := matching + [exc];
          case New(sub) => matching := matching + [sub]; modified := true;
        }
      } else if cond(exc) {
        matching := matching + [exc];
      } else {
        modified := true;
      }
    }
    assert g.excs[..|g.excs|] == g.excs;
    if !modified {
      return Same;
    }
    if matching == [] {
      return Nothing;
    }
    r := New(Derive(g, matching));
  }

  /** The tree without what distinguishes a derived group from its original. */
  datatype Shape = ShapeLeaf(leaf: Exc) | ShapeGroup(meta: nat, members: seq<Shape>)

  function ShapeOf(e: Exc): Shape
    decreases e, 1
  {
    match e
    case Leaf(_, _, _) => ShapeLeaf(e)
    case Group(_, _, _, meta, excs) => ShapeGroup(meta, ShapesOf(excs))
  }

  function ShapesOf(s: seq<Exc>): seq<Shape>
    decreases s, 0
  {
    if s == [] then [] else ShapesOf(s[..|s| - 1]) + [ShapeOf(s[|s| - 1])]
  }

  function ShapeOption(o: Option<Exc>): Option<Shape> {
    match o case None => None case Some(e) => Some(ShapeOf(e))
  }

  lemma ShapesAppend(s: seq<Exc>, o: Option<Exc>)
    ensures ShapesOf(s + OptionSeq(o)) == ShapesOf(s) + OptionSeq(ShapeOption(o))
  {
    match o
    case None => assert s + [] == s;
    case Some(e) => assert (s + [e])[..|s|] == s;
  }

  /** `subgroup` yields the same tree as the first part of `split`, although it keeps unmodified
      groups where `split` derives new ones. */
  lemma {:induction false} SubgroupIsSplit(e: Exc, cond: Exc -> bool)
    requires WellFormed(e)
    ensures ShapeOption(SubExc(e, SubgroupOf(e, cond))) == ShapeOption(SplitParts(e, cond).matching)
    decreases e, 1
  {
    if !cond(e) && e.Group? {
      SubgroupMembersIsSplit(e.excs, cond);
      UnmodifiedKeepsMembers(e.excs, cond);
      var (ms, modified) := SubgroupMembers(e.excs, cond);
      var mp := SplitMembers(e.excs, cond).0;
      ShapesLength(ms);
      ShapesLength(mp);
    }
  }

  lemma {:induction false} ShapesLength(s: seq<Exc>)
    ensures |ShapesOf(s)| == |s|
  {
    if s != [] { ShapesLength(s[..|s| - 1]); }
  }

  lemma {:induction false} SubgroupMembersIsSplit(s: seq<Exc>, cond: Exc -> bool)
    requires forall i | 0 <= i < |s| :: WellFormed(s[i])
    ensures ShapesOf(SubgroupMembers(s, cond).0) == ShapesOf(SplitMembers(s, cond).0)
    decreases s, 0
  {
    if s != [] {
      var n := |s| - 1;
      SubgroupMembersIsSplit(s[..n], cond);
      SubgroupIsSplit(s[n], cond);
      var before, after := SubgroupMembers(s[..n], cond).0, SubExc(s[n], SubgroupOf(s[n], cond));
      var before', after' := SplitMembers(s[..n], cond).0, SplitParts(s[n], cond).matching;
      ShapesAppend(before, after);
      ShapesAppend(before', after');
      assert SubgroupMembers(s, cond).0 == before + OptionSeq(after);
      assert SplitMembers(s, cond).0 == before' + OptionSeq(after');
    }
  }

  lemma {:induction false} UnmodifiedKeepsMembers(s: seq<Exc>, cond: Exc -> bool)
    ensures !SubgroupMembers(s, cond).1 ==> SubgroupMembers(s, cond).0 == s
  {
    if s != [] && !SubgroupMembers(s, cond).1 {
      var n := |s| - 1;
      UnmodifiedKeepsMembers(s[..n], cond);
      assert s == s[..n] + [s[n]];
    }
  }

  /** The same object comes back exactly when every leaf is selected. */
  lemma {:induction false} SameIffAllSelected(e: Exc, cond: Exc -> bool, above: seq<nat>)
    requires WellFormed(e)
    ensures SubgroupOf(e, cond) == Same <==> Selected(e, cond, false, false, above) == []
    decreases e, 1
  {
    if cond(e) {
      SelectedInside(e, cond, above);
      if e.Group? { SelectedAllInside(e.excs, cond, above + [e.meta]); }
    } else if e.Group? {
      UnmodifiedIffAllSelected(e.excs, cond, above + [e.meta]);
    }
  }

  lemma {:induction false} UnmodifiedIffAllSelected(s: seq<Exc>, cond: Exc -> bool, above: seq<nat>)
    requires forall i | 0 <= i < |s| :: WellFormed(s[i])
    ensures !SubgroupMembers(s, cond).1 <==> SelectedAll(s, cond, false, false, above) == []
    decreases s, 0
  {
    if s != [] {
      UnmodifiedIffAllSelected(s[..|s| - 1], cond, above);
      SameIffAllSelected(s[|s| - 1], cond, above);
    }
  }

  // ---------- the groups of the results ----------

  /** A new group with the message of g and these members. */
  ghost predicate IsDerived(d: Exc, g: Exc, members: seq<Exc>) {
    && d.Group? && g.Group? && d.excs == members && d.meta == g.meta && d.id == 0
    && (d.plain <==> forall x | x in members :: x.plain)
    && d.cls == if d.plain then EXCEPTION_GROUP else BASE_EXCEPTION_GROUP
  }

  lemma DeriveIs(g: Exc, members: seq<Exc>)
    requires g.Group?
    ensures IsDerived(Derive(g, members), g, members)
  {
    if AllPlain(members) {
      forall x | x in members ensures x.plain {}
    } else {
      var i :| 0 <= i < |members| && !members[i].plain;
      assert members[i] in members;
    }
  }

  /** One of the two parts. */
  ghost function PartIn(e: Exc, cond: Exc -> bool, wanted: bool): Option<Exc> {
    if wanted then SplitParts(e, cond).matching else SplitParts(e, cond).rest
  }

  ghost function MembersIn(s: seq<Exc>, cond: Exc -> bool, wanted: bool): seq<Exc> {
    if wanted then SplitMembers(s, cond).0 else SplitMembers(s, cond).1
  }

  ghost function MatchingAt(s: seq<Exc>, cond: Exc -> bool, wanted: bool): nat -> bool {
    (i: nat) => i < |s| && PartIn(s[i], cond, wanted).Some?
  }

  /** The objects that `split` returns: the condition holds, and it is the object itself; a leaf goes to
      one part or the other; and otherwise each part is a new group of what its members have there. */
  lemma SplitObjects(e: Exc, cond: Exc -> bool, wanted: bool) returns (idx: seq<nat>, members: seq<Exc>)
    ensures var p := SplitParts(e, cond);
      && (cond(e) ==> p == Parts(Some(e), None))
      && (e.Leaf? && !cond(e) ==> p == Parts(None, Some(e)))
      && (e.Group? && !cond(e) ==>
            var part := if wanted then p.matching else p.rest;
            && Positions(idx, |e.excs|, MatchingAt(e.excs, cond, wanted)) && |members| == |idx|
            && (forall k | 0 <= k < |idx| :: Some(members[k]) == PartIn(e.excs[idx[k]], cond, wanted))
            && (part == None <==> members == [])
            && (part.Some? ==> IsDerived(part.value, e, members)))
  {
    idx, members := [], [];
    if e.Group? && !cond(e) {
      hide SplitParts;
      idx := SplitPositions(e.excs, cond, wanted);
      members := MembersIn(e.excs, cond, wanted);
      SplitGroup(e, cond);
      DeriveIs(e, members);
    }
  }

  lemma SplitGroup(e: Exc, cond: Exc -> bool)
    requires e.Group? && !cond(e)
    ensures var (m, r) := SplitMembers(e.excs, cond);
      && SplitParts(e, cond).matching == (if m == [] then None else Some(Derive(e, m)))
      && SplitParts(e, cond).rest == if r == [] then None else Some(Derive(e, r))
  {}

  lemma SplitPositions(s: seq<Exc>, cond: Exc -> bool, wanted: bool) returns (idx: seq<nat>)
    ensures Positions(idx, |s|, MatchingAt(s, cond, wanted)) && |MembersIn(s, cond, wanted)| == |idx|
    ensures forall k | 0 <= k < |idx| :: Some(MembersIn(s, cond, wanted)[k]) == PartIn(s[idx[k]], cond, wanted)
  {
    hide PartIn, MembersIn;
    var os := EachPart(s, cond, wanted);
    idx := SomePositions(os);
    MembersAreSomes(s, cond, wanted);
    PositionsAgree(idx, |s|, IsSomeAt(os), MatchingAt(s, cond, wanted));
  }

  ghost function EachPart(s: seq<Exc>, cond: Exc -> bool, wanted: bool): (os: seq<Option<Exc>>)
    ensures |os| == |s| && forall i | 0 <= i < |s| :: os[i] == PartIn(s[i], cond, wanted)
  {
    seq(|s|, i requires 0 <= i < |s| => PartIn(s[i], cond, wanted))
  }

  lemma {:induction false} MembersAreSomes(s: seq<Exc>, cond: Exc -> bool, wanted: bool)
    ensures MembersIn(s, cond, wanted) == Somes(EachPart(s, cond, wanted))
  {
    if s != [] {
      hide PartIn, MembersIn;
      var n := |s| - 1;
      MembersAreSomes(s[..n], cond, wanted);
      LastPart(s, cond, wanted);
      assert EachPart(s, cond, wanted)[..n] == EachPart(s[..n], cond, wanted);
    }
  }

  lemma LastPart(s: seq<Exc>, cond: Exc -> bool, wanted: bool)
    requires s != []
    ensures var n := |s| - 1;
      MembersIn(s, cond, wanted) == MembersIn(s[..n], cond, wanted) + OptionSeq(PartIn(s[n], cond, wanted))
  {
    hide SplitParts;
  }

  ghost function SomeLeft(s: seq<Exc>, cond: Exc -> bool): nat -> bool {
    (i: nat) => i < |s| && SubgroupOf(s[i], cond) != Nothing
  }

  /** The objects that `subgroup` returns: a new group only where something was left out, with each member
      that is not left out, as it is or as its own subgroup. */
  lemma SubgroupObjects(e: Exc, cond: Exc -> bool) returns (idx: seq<nat>, members: seq<Exc>)
    ensures var r := SubgroupOf(e, cond);
      && (cond(e) ==> r == Same)
      && (e.Leaf? && !cond(e) ==> r == Nothing)
      && (e.Group? && !cond(e) ==>
            && Positions(idx, |e.excs|, SomeLeft(e.excs, cond)) && |members| == |idx|
            && (forall k | 0 <= k < |idx| ::
                  Some(members[k]) == SubExc(e.excs[idx[k]], SubgroupOf(e.excs[idx[k]], cond)))
            && (r == Same <==> forall i | 0 <= i < |e.excs| :: SubgroupOf(e.excs[i], cond) == Same)
            && (r != Same ==>
                  (r == Nothing <==> members == []) && (r.New? ==> IsDerived(r.group, e, members))))
  {
    idx, members := [], [];
    if e.Group? && !cond(e) {
      hide SubgroupOf;
      idx := SubgroupPositions(e.excs, cond);
      members := MembersLeft(e.excs, cond);
      UnmodifiedIs(e.excs, cond);
      SubgroupGroup(e, cond);
      DeriveIs(e, members);
    }
  }

  lemma SubgroupGroup(e: Exc, cond: Exc -> bool)
    requires e.Group? && !cond(e)
    ensures var (m, modified) := SubgroupMembers(e.excs, cond);
      SubgroupOf(e, cond) == if !modified then Same else if m == [] then Nothing else New(Derive(e, m))
  {}

  /** The members that `subgroup` keeps of a sequence, and whether they are the sequence itself. */
  ghost function MembersLeft(s: seq<Exc>, cond: Exc -> bool): seq<Exc> { SubgroupMembers(s, cond).0 }

  ghost function LeftOf(e: Exc, cond: Exc -> bool): Option<Exc> { SubExc(e, SubgroupOf(e, cond)) }

  lemma SubgroupPositions(s: seq<Exc>, cond: Exc -> bool) returns (idx: seq<nat>)
    ensures Positions(idx, |s|, SomeLeft(s, cond)) && |MembersLeft(s, cond)| == |idx|
    ensures forall k | 0 <= k < |idx| :: Some(MembersLeft(s, cond)[k]) == LeftOf(s[idx[k]], cond)
  {
    hide MembersLeft, SubgroupOf;
    var os := EachLeft(s, cond);
    idx := SomePositions(os);
    LeftAreSomes(s, cond);
    PositionsAgree(idx, |s|, IsSomeAt(os), SomeLeft(s, cond));
  }

  ghost function EachLeft(s: seq<Exc>, cond: Exc -> bool): (os: seq<Option<Exc>>)
    ensures |os| == |s| && forall i | 0 <= i < |s| :: os[i] == LeftOf(s[i], cond)
  {
    seq(|s|, i requires 0 <= i < |s| => LeftOf(s[i], cond))
  }

  lemma {:induction false} LeftAreSomes(s: seq<Exc>, cond: Exc -> bool)
    ensures MembersLeft(s, cond) == Somes(EachLeft(s, cond))
  {
    if s != [] {
      hide LeftOf, MembersLeft;
      var n := |s| - 1;
      LeftAreSomes(s[..n], cond);
      LastLeft(s, cond);
      assert EachLeft(s, cond)[..n] == EachLeft(s[..n], cond);
    }
  }

  lemma LastLeft(s: seq<Exc>, cond: Exc -> bool)
    requires s != []
    ensures var n := |s| - 1;
      MembersLeft(s, cond) == MembersLeft(s[..n], cond) + OptionSeq(LeftOf(s[n], cond))
  {
    hide SubgroupOf;
  }

  lemma {:induction false} UnmodifiedIs(s: seq<Exc>, cond: Exc -> bool)
    ensures !SubgroupMembers(s, cond).1 <==> forall i | 0 <= i < |s| :: SubgroupOf(s[i], cond) == Same
  {
    if s != [] {
      hide SubgroupOf;
      UnmodifiedIs(s[..|s| - 1], cond);
    }
  }
}
