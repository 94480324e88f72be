/** Re-raising at the end of except* blocks: the tail of exceptions.rs (PEP 654). */
module ExceptReraise {
  import opened ExceptionClasses
  import opened ExceptionGroups
  import opened ExceptStar
  import opened ExceptClauses
  import opened Wrappers

  // ---------- leaf identities ----------

  function LeafIds(e: Exc): set<nat>
    decreases e, 1
  {
    match e
    case Leaf(id, _, _) => {id}
    case Group(_, _, _, _, excs) => LeafIdsAll(excs)
  }

  function LeafIdsAll(s: seq<Exc>): set<nat>
    decreases s, 0
  {
    if s == [] then {} else LeafIdsAll(s[..|s| - 1]) + LeafIds(s[|s| - 1])
  }

  function LeafIdsOption(o: Option<Exc>): set<nat> {
    match o case None => {} case Some(e) => LeafIds(e)
  }

  /** `collect_exception_group_leaf_ids`. */
  method CollectLeafIds(e: Exc, ids0: set<nat>) returns (ids: set<nat>)
    ensures ids == ids0 + LeafIds(e)
    decreases e
  {
    match e {
      case Leaf(id, _, _) => ids := ids0 + {id};
      case Group(_, _, _, _, excs) =>
        ids := ids0;
        for i := 0 to |excs|
          invariant ids == ids0 + LeafIdsAll(excs[..i])
        {
          assert excs[..i + 1][..i] == excs[..i];
          ids := CollectLeafIds(excs[i], ids);
        }
        assert excs[..|excs|] == excs;
    }
  }

  lemma LeafIdsAppend(s: seq<Exc>, o: Option<Exc>)
    ensures LeafIdsAll(s + OptionSeq(o)) == LeafIdsAll(s) + LeafIdsOption(o)
  {
    match o
    case None => assert s + [] == s;
    case Some(e) => assert (s + [e])[..|s|] == s;
  }

  lemma {:induction false} WellFormedHasLeaf(e: Exc)
    requires WellFormed(e)
    ensures LeafIds(e) != {}
  {
    if e.Group? { WellFormedHasLeaf(e.excs[|e.excs| - 1]); }
  }

  // ---------- projection ----------

  /** `split_by_leaf_ids` is the first part of a split by leaf identity. */
  function Kept(keep: set<nat>): Exc -> bool {
    (e: Exc) => e.Leaf? && e.id in keep
  }

  method SplitByLeafIds(e: Exc, keep: set<nat>) returns (r: Option<Exc>)
    ensures r == SplitParts(e, Kept(keep)).matching
    decreases e
  {
    if e.Leaf? {
      return if e.id in keep then Some(e) else None;
    }
    var matched: seq<Exc> := [];
    for i := 0 to |e.excs|
      invariant matched == SplitMembers(e.excs[..i], Kept(keep)).0
    {
      assert e.excs[..i + 1][..i] == e.excs[..i];
      var m := SplitByLeafIds(e.excs[i], keep);
      matched := matched + OptionSeq(m);
    }
    assert e.excs[..|e.excs|] == e.excs;
    r := if matched == [] then None else Some(Derive(e, matched));
  }

  function Projection(orig: Exc, keep: seq<Exc>): Option<Exc> {
    if keep == [] then None else SplitParts(orig, Kept(LeafIdsAll(keep))).matching
  }

  method ExceptionGroupProjection(orig: Exc, keep: seq<Exc>) returns (r: Option<Exc>)
    ensures r == Projection(orig, keep)
  {
    if keep == [] {
      return None;
    }
    var ids := {};
    for i := 0 to |keep|
      invariant ids == LeafIdsAll(keep[..i])
    {
      assert keep[..i + 1][..i] == keep[..i];
      ids := CollectLeafIds(keep[i], ids);
    }
    assert keep[..|keep|] == keep;
    r := SplitByLeafIds(orig, ids);
  }

  function KeepPlaced(t: seq<Placed>, keep: set<nat>): seq<Placed> {
    if t == [] then []
    else KeepPlaced(t[..|t| - 1], keep) + if Kept(keep)(t[|t| - 1].1) then [t[|t| - 1]] else []
  }

  lemma {:induction false} KeepPlacedConcat(a: seq<Placed>, b: seq<Placed>, keep: set<nat>)
    ensures KeepPlaced(a + b, keep) == KeepPlaced(a, keep) + KeepPlaced(b, keep)
  {
    if b == [] {
      assert a + b == a;
    } else {
      assert (a + b)[..|a + b| - 1] == a + b[..|b| - 1];
      KeepPlacedConcat(a, b[..|b| - 1], keep);
    }
  }

  /** The projection is the original with the unkept leaves, and then the emptied groups, deleted:
      the kept leaves in order, each under its own groups, and no empty group. */
  lemma ProjectionIsPruning(orig: Exc, keep: set<nat>)
    requires WellFormed(orig)
    ensures var p := SplitParts(orig, Kept(keep)).matching;
      TraceOption(p, []) == KeepPlaced(Trace(orig, []), keep) && WellFormedOption(p)
  {
    SplitSelects(orig, Kept(keep), []);
    SplitWellFormed(orig, Kept(keep));
    SelectedKept(orig, keep, []);
  }

  lemma {:induction false} SelectedKept(e: Exc, keep: set<nat>, above: seq<nat>)
    ensures Selected(e, Kept(keep), false, true, above) == KeepPlaced(Trace(e, above), keep)
    decreases e, 1
  {
    match e
    case Leaf(_, _, _) => assert Trace(e, above)[..0] == [];
    case Group(_, _, _, meta, excs) => SelectedAllKept(excs, keep, above + [meta]);
  }

  lemma {:induction false} SelectedAllKept(s: seq<Exc>, keep: set<nat>, above: seq<nat>)
    ensures SelectedAll(s, Kept(keep), false, true, above) == KeepPlaced(TraceAll(s, above), keep)
    decreases s, 0
  {
    if s != [] {
      var n := |s| - 1;
      SelectedAllKept(s[..n], keep, above);
      SelectedKept(s[n], keep, above);
      KeepPlacedConcat(TraceAll(s[..n], above), Trace(s[n], above), keep);
    }
  }

  /** Its leaf identities are those of the original that are kept. */
  lemma {:induction false} ProjectionIds(e: Exc, keep: set<nat>)
    ensures LeafIdsOption(SplitParts(e, Kept(keep)).matching) == LeafIds(e) * keep
    decreases e, 1
  {
    if e.Group? { ProjectionIdsAll(e.excs, keep); }
  }

  lemma {:induction false} ProjectionIdsAll(s: seq<Exc>, keep: set<nat>)
    ensures LeafIdsAll(SplitMembers(s, Kept(keep)).0) == LeafIdsAll(s) * keep
    decreases s, 0
  {
    if s != [] {
      var n := |s| - 1;
      ProjectionIdsAll(s[..n], keep);
      ProjectionIds(s[n], keep);
      LeafIdsAppend(SplitMembers(s[..n], Kept(keep)).0, SplitParts(s[n], Kept(keep)).matching);
    }
  }

  // ---------- prep_reraise_star ----------

  predicate FromOrig(e: Exc, orig: Exc) {
    LeafIds(e) != {} && LeafIds(e) <= LeafIds(orig)
  }

  /** The exceptions that were newly raised (or else re-raised) by the clauses. */
  function Pick(excs: seq<Option<Exc>>, orig: Exc, reraised: bool): seq<Exc> {
    if excs == [] then []
    else
      var last := excs[|excs| - 1];
      var picked := if last.Some? && FromOrig(last.value, orig) == reraised then [last.value] else [];
      Pick(excs[..|excs| - 1], orig, reraised) + picked
  }

  function FirstSome(excs: seq<Option<Exc>>): Option<Exc> {
    if excs == [] then None else if excs[0].Some? then excs[0] else FirstSome(excs[1..])
  }

  datatype Reraise = Value(exc: Option<Exc>) | GroupTypeError

  function Combined(raised: seq<Exc>, projected: Option<Exc>): Reraise {
    var all := raised + OptionSeq(projected);
    if |all| == 0 then Value(None)
    else if |all| == 1 then Value(Some(all[0]))
    else match Wrapped(all) case Some(g) => Value(Some(g)) case None => GroupTypeError
  }

  function ReraiseOf(orig: Option<Exc>, excs: seq<Option<Exc>>): Reraise {
    if orig == None || orig.value.Leaf? then Value(FirstSome(excs))
    else Combined(Pick(excs, orig.value, false), Projection(orig.value, Pick(excs, orig.value, true)))
  }

  method PrepReraiseStar(orig: Option<Exc>, excs: seq<Option<Exc>>) returns (r: Reraise)
    ensures r == ReraiseOf(orig, excs)
  {
    if excs == [] {
      EmptyReraise(orig);
      return Value(None);
    }
    if orig == None || orig.value.Leaf? {
      var i := 0;
      while i < |excs| && excs[i] == None
        invariant i <= |excs| && FirstSome(excs) == FirstSome(excs[i..])
      {
        i := i + 1;
      }
      return Value(if i < |excs| then excs[i] else None);
    }
    var raised: seq<Exc>, reraised: seq<Exc> := [], [];
    for i := 0 to |excs|
      invariant raised == Pick(excs[..i], orig.value, false) && reraised == Pick(excs[..i], orig.value, true)
    {
      assert excs[..i + 1][..i] == excs[..i];
      match excs[i] {
        case None =>
        case Some(exc) =>
          var ids := CollectLeafIds(exc, {});
          var origIds := CollectLeafIds(orig.value, {});
          if ids != {} && ids <= origIds {
            reraised := reraised + [exc];
          } else {
            raised := raised + [exc];
          }
      }
    }
    assert excs[..|excs|] == excs;
    if raised == [] && reraised == [] {
      return Value(None);
    }
    var projected := ExceptionGroupProjection(orig.value, reraised);
    if raised == [] {
      assert raised + OptionSeq(projected) == OptionSeq(projected);
      return Value(projected);
    }
    assert raised + [] == raised;
    if projected.Some? {
      raised := raised + [projected.value];
    }
    if |raised| == 1 {
      return Value(Some(raised[0]));
    }
    r := match Wrapped(raised) case Some(g) => Value(Some(g)) case None => GroupTypeError;
  }

  lemma EmptyReraise(orig: Option<Exc>)
    ensures ReraiseOf(orig, []) == Value(None)
  {}

  function UnionIds(excs: seq<Option<Exc>>): set<nat> {
    if excs == [] then {} else UnionIds(excs[..|excs| - 1]) + LeafIdsOption(excs[|excs| - 1])
  }

  lemma PickLast(excs: seq<Option<Exc>>, orig: Exc, reraised: bool)
    requires excs != []
    ensures var last := excs[|excs| - 1];
      LeafIdsAll(Pick(excs, orig, reraised)) == LeafIdsAll(Pick(excs[..|excs| - 1], orig, reraised))
        + if last.Some? && FromOrig(last.value, orig) == reraised then LeafIds(last.value) else {}
  {
    var last := excs[|excs| - 1];
    var before := Pick(excs[..|excs| - 1], orig, reraised);
    if last.Some? && FromOrig(last.value, orig) == reraised {
      LeafIdsAppend(before, last);
    } else {
      assert before + [] == before;
    }
  }

  lemma {:induction false} PickIds(excs: seq<Option<Exc>>, orig: Exc)
    ensures LeafIdsAll(Pick(excs, orig, false)) + LeafIdsAll(Pick(excs, orig, true)) == UnionIds(excs)
  {
    if excs != [] {
      hide LeafIds, LeafIdsAll, Pick, FromOrig;
      PickIds(excs[..|excs| - 1], orig);
      PickLast(excs, orig, false);
      PickLast(excs, orig, true);
    }
  }

  lemma {:induction false} ReraisedIds(excs: seq<Option<Exc>>, orig: Exc)
    ensures LeafIdsAll(Pick(excs, orig, true)) <= LeafIds(orig)
    ensures Pick(excs, orig, true) != [] ==> LeafIdsAll(Pick(excs, orig, true)) != {}
  {
    if excs != [] {
      ReraisedIds(excs[..|excs| - 1], orig);
      PickLast(excs, orig, true);
    }
  }

  /** Re-raising conserves: the result carries exactly the leaves of all the exceptions that the
      clauses left, raised anew or from the original. */
  lemma ReraiseConserves(orig: Exc, excs: seq<Option<Exc>>)
    requires orig.Group? && ReraiseOf(Some(orig), excs).Value?
    ensures LeafIdsOption(ReraiseOf(Some(orig), excs).exc) == UnionIds(excs)
  {
    var raised, reraised := Pick(excs, orig, false), Pick(excs, orig, true);
    var projected := Projection(orig, reraised);
    PickIds(excs, orig);
    ReraisedIds(excs, orig);
    ProjectionIds(orig, LeafIdsAll(reraised));
    CombinedIds(raised, projected);
  }

  lemma CombinedIds(raised: seq<Exc>, projected: Option<Exc>)
    requires Combined(raised, projected).Value?
    ensures LeafIdsOption(Combined(raised, projected).exc) == LeafIdsAll(raised) + LeafIdsOption(projected)
  {
    LeafIdsAppend(raised, projected);
    var all := raised + OptionSeq(projected);
    if |all| == 1 {
      assert all == [all[0]];
      assert [all[0]][..0] == [];
    }
  }

  /** For a naked exception at most one clause can have run, and what it left is the result. */
  lemma NakedReraise(orig: Option<Exc>, excs: seq<Option<Exc>>)
    requires orig == None || orig.value.Leaf?
    requires forall i, j | 0 <= i < j < |excs| && excs[i].Some? :: excs[j] == None
    ensures ReraiseOf(orig, excs).Value? && LeafIdsOption(ReraiseOf(orig, excs).exc) == UnionIds(excs)
  {
    FirstIsUnion(excs);
  }

  /** Of several the first is the result, and without any there is none. */
  lemma {:induction false} NakedFirst(orig: Option<Exc>, excs: seq<Option<Exc>>, i: nat)
    requires orig == None || orig.value.Leaf?
    requires i <= |excs| && (i < |excs| ==> excs[i].Some?) && forall j | 0 <= j < i :: excs[j] == None
    ensures ReraiseOf(orig, excs) == Value(if i < |excs| then excs[i] else None)
    decreases i
  {
    if i > 0 { NakedFirst(orig, excs[1..], i - 1); }
  }

  lemma {:induction false} FirstIsUnion(excs: seq<Option<Exc>>)
    requires forall i, j | 0 <= i < j < |excs| && excs[i].Some? :: excs[j] == None
    ensures LeafIdsOption(FirstSome(excs)) == UnionIds(excs)
  {
    if excs != [] {
      UnionConsFirst(excs);
      FirstIsUnion(excs[1..]);
      if excs[0].Some? { NoneFirst(excs[1..]); }
    }
  }

  lemma {:induction false} NoneFirst(excs: seq<Option<Exc>>)
    requires forall i | 0 <= i < |excs| :: excs[i] == None
    ensures FirstSome(excs) == None
  {
    if excs != [] { NoneFirst(excs[1..]); }
  }

  lemma {:induction false} UnionConsFirst(excs: seq<Option<Exc>>)
    requires excs != []
    ensures UnionIds(excs) == LeafIdsOption(excs[0]) + UnionIds(excs[1..])
  {
    var n := |excs| - 1;
    if n > 0 {
      UnionConsFirst(excs[..n]);
      assert excs[..n][1..] == excs[1..][..n - 1];
    }
  }

  /** It fails exactly when at least two exceptions must be combined and one of them is not an
      Exception, since the group is always made as an ExceptionGroup. */
  lemma ReraiseFailsExactly(orig: Exc, excs: seq<Option<Exc>>)
    requires orig.Group?
    ensures var raised, reraised := Pick(excs, orig, false), Pick(excs, orig, true);
      ReraiseOf(Some(orig), excs) == GroupTypeError <==>
        && |raised| + (if reraised == [] then 0 else 1) >= 2
        && (!AllPlain(raised) || exists x :: x in Leaves(orig) && x.id in LeafIdsAll(reraised) && !x.plain)
  {
    var raised, reraised := Pick(excs, orig, false), Pick(excs, orig, true);
    var projected := Projection(orig, reraised);
    PickIds(excs, orig);
    ReraisedIds(excs, orig);
    ProjectionIds(orig, LeafIdsAll(reraised));
    assert projected.Some? <==> reraised != [];
    AllPlainAppend(raised, projected);
    if projected.Some? {
      ProjectionPlain(orig, LeafIdsAll(reraised));
    } else {
      assert LeafIdsAll(reraised) == {};
    }
  }

  /** Two clauses of `except*` raise a KeyboardInterrupt and a ValueError, say, for a well-formed group:
      that is such a failure. */
  lemma CombiningFails() returns (orig: Exc, excs: seq<Option<Exc>>)
    ensures WellFormed(orig) && orig.Group? && ReraiseOf(Some(orig), excs) == GroupTypeError
  {
    hide Leaves, LeafIds, LeafIdsAll, FromOrig;
    orig := Group(1, EXCEPTION_GROUP, true, 1, [Leaf(2, 5, true), Leaf(3, 6, true)]);
    var raised := [Leaf(9, 7, false), Leaf(8, 5, true)];
    excs := [Some(raised[0]), Some(raised[1])];
    NewLeaf(orig, raised[0]);
    NewLeaf(orig, raised[1]);
    TwoPicked(excs, orig);
    assert !raised[0].plain;
    ReraiseFailsExactly(orig, excs);
  }

  /** A leaf with an identity of its own does not come from the group. */
  lemma NewLeaf(orig: Exc, x: Exc)
    requires x.Leaf? && orig.Group? && |orig.excs| == 2 && orig.excs[0].Leaf? && orig.excs[1].Leaf?
    requires x.id != orig.excs[0].id && x.id != orig.excs[1].id
    ensures !FromOrig(x, orig)
  {
    var s := orig.excs;
    assert s[..1] == [s[0]] && [s[0]][..0] == [];
    assert LeafIdsAll(s[..1]) == LeafIdsAll([]) + LeafIds(s[0]);
    assert LeafIdsAll(s) == LeafIdsAll(s[..1]) + LeafIds(s[1]);
    assert LeafIds(orig) == {s[0].id, s[1].id};
    assert x.id in LeafIds(x);
  }

  lemma TwoPicked(excs: seq<Option<Exc>>, orig: Exc)
    requires |excs| == 2 && excs[0].Some? && excs[1].Some?
    requires !FromOrig(excs[0].value, orig) && !FromOrig(excs[1].value, orig)
    ensures Pick(excs, orig, false) == [excs[0].value, excs[1].value] && Pick(excs, orig, true) == []
  {
    hide FromOrig;
    forall again ensures Pick(excs, orig, again) == if again then [] else [excs[0].value, excs[1].value] {
      assert excs[..1][..0] == [] && Pick([], orig, again) == [];
      assert Pick(excs[..1], orig, again) == if again then [] else [excs[0].value];
    }
  }

  lemma AllPlainAppend(s: seq<Exc>, o: Option<Exc>)
    ensures AllPlain(s + OptionSeq(o)) <==> AllPlain(s) && (o.Some? ==> o.value.plain)
    ensures |s + OptionSeq(o)| == |s| + if o.Some? then 1 else 0
  {
    var all := s + OptionSeq(o);
    assert forall i | 0 <= i < |s| :: all[i] == s[i];
    if o.Some? { assert all[|s|] == o.value; }
  }

  /** A projection is an Exception exactly when all the leaves it keeps are. */
  lemma {:induction false} ProjectionPlain(e: Exc, keep: set<nat>)
    requires SplitParts(e, Kept(keep)).matching.Some?
    ensures SplitParts(e, Kept(keep)).matching.value.plain <==>
      forall x | x in Leaves(e) && x.id in keep :: x.plain
    decreases e, 1
  {
    if e.Group? { ProjectionPlainAll(e.excs, keep); }
  }

  lemma {:induction false} ProjectionPlainAll(s: seq<Exc>, keep: set<nat>)
    ensures AllPlain(SplitMembers(s, Kept(keep)).0) <==> forall x | x in LeavesAll(s) && x.id in keep :: x.plain
    decreases s, 0
  {
    if s != [] {
      var n := |s| - 1;
      var p, before := SplitParts(s[n], Kept(keep)).matching, SplitMembers(s[..n], Kept(keep)).0;
      ProjectionPlainAll(s[..n], keep);
      var all := before + OptionSeq(p);
      assert forall i | 0 <= i < |before| :: all[i] == before[i];
      if p.Some? {
        ProjectionPlain(s[n], keep);
        assert all[|before|] == p.value;
      } else {
        NothingKept(s[n], keep);
      }
    }
  }

  lemma {:induction false} NothingKept(e: Exc, keep: set<nat>)
    requires SplitParts(e, Kept(keep)).matching == None
    ensures forall x | x in Leaves(e) :: x.id !in keep
    decreases e, 1
  {
    if e.Group? { NothingKeptAll(e.excs, keep); }
  }

  lemma {:induction false} NothingKeptAll(s: seq<Exc>, keep: set<nat>)
    requires SplitMembers(s, Kept(keep)).0 == []
    ensures forall x | x in LeavesAll(s) :: x.id !in keep
    decreases s, 0
  {
    if s != [] {
      NothingKeptAll(s[..|s| - 1], keep);
      NothingKept(s[|s| - 1], keep);
    }
  }

  // ---------- what is re-raised, in order ----------

  /** All its leaves are leaves of the original, and there is one. */
  ghost predicate ComesFrom(e: Exc, orig: Exc) {
    Leaves(e) != [] && forall x | x in Leaves(e) :: exists y :: y in Leaves(orig) && y.id == x.id
  }

  /** The exception at position i was newly raised. */
  ghost predicate IsNew(excs: seq<Option<Exc>>, orig: Exc, i: nat) {
    i < |excs| && excs[i].Some? && !ComesFrom(excs[i].value, orig)
  }

  /** The exception at position i is one of the original's that is raised again. */
  ghost predicate IsAgain(excs: seq<Option<Exc>>, orig: Exc, i: nat) {
    i < |excs| && excs[i].Some? && ComesFrom(excs[i].value, orig)
  }

  ghost predicate HasId(s: seq<Exc>, id: nat) {
    exists x :: x in s && x.id == id
  }

  /** Leaf i of the original is in an exception that is raised again. */
  ghost predicate IsKept(excs: seq<Option<Exc>>, orig: Exc, i: nat) {
    i < |Leaves(orig)| && exists j: nat :: IsAgain(excs, orig, j) && HasId(Leaves(excs[j].value), Leaves(orig)[i].id)
  }

  lemma {:induction false} IdsOfLeaves(e: Exc)
    ensures forall id :: id in LeafIds(e) <==> HasId(Leaves(e), id)
    decreases e, 1
  {
    if e.Group? { IdsOfLeavesAll(e.excs); } else { assert e in Leaves(e); }
  }

  lemma {:induction false} IdsOfLeavesAll(s: seq<Exc>)
    ensures forall id :: id in LeafIdsAll(s) <==> HasId(LeavesAll(s), id)
    decreases s, 0
  {
    if s != [] {
      var n := |s| - 1;
      IdsOfLeavesAll(s[..n]);
      IdsOfLeaves(s[n]);
      forall id ensures id in LeafIdsAll(s) <==> HasId(LeavesAll(s), id) {
        HasIdConcat(LeavesAll(s[..n]), Leaves(s[n]), id);
      }
    }
  }

  lemma HasIdConcat(a: seq<Exc>, b: seq<Exc>, id: nat)
    ensures HasId(a + b, id) <==> HasId(a, id) || HasId(b, id)
  {
    if HasId(a, id) {
      var x :| x in a && x.id == id;
      assert x in a + b;
    }
    if HasId(b, id) {
      var x :| x in b && x.id == id;
      assert x in a + b;
    }
  }

  lemma FromOrigMeans(e: Exc, orig: Exc)
    ensures FromOrig(e, orig) <==> ComesFrom(e, orig)
  {
    IdsOfLeaves(e);
    IdsOfLeaves(orig);
    if Leaves(e) != [] { assert HasId(Leaves(e), Leaves(e)[0].id); }
    if ComesFrom(e, orig) {
      forall id | id in LeafIds(e) ensures id in LeafIds(orig) {
        var x :| x in Leaves(e) && x.id == id;
        assert HasId(Leaves(orig), id);
      }
    }
    if FromOrig(e, orig) {
      forall x | x in Leaves(e) ensures exists y :: y in Leaves(orig) && y.id == x.id {
        assert HasId(Leaves(e), x.id);
        assert HasId(Leaves(orig), x.id);
      }
    }
  }

  /** Position i holds an exception that is new, or raised again. */
  ghost predicate IsPicked(excs: seq<Option<Exc>>, orig: Exc, again: bool, i: nat) {
    if again then IsAgain(excs, orig, i) else IsNew(excs, orig, i)
  }

  ghost function Picking(excs: seq<Option<Exc>>, orig: Exc, again: bool): nat -> bool {
    (i: nat) => IsPicked(excs, orig, again, i)
  }

  lemma PickPositions(excs: seq<Option<Exc>>, orig: Exc, again: bool) returns (idx: seq<nat>)
    ensures Positions(idx, |excs|, Picking(excs, orig, again))
    ensures |Pick(excs, orig, again)| == |idx|
    ensures forall k | 0 <= k < |idx| :: Some(Pick(excs, orig, again)[k]) == excs[idx[k]]
  {
    hide FromOrig, ComesFrom, Pick;
    var os := EachPicked(excs, orig, again);
    idx := SomePositions(os);
    PickIsSomes(excs, orig, again);
    forall i: nat | i < |excs| ensures IsSomeAt(os)(i) == Picking(excs, orig, again)(i) {
      if excs[i].Some? { FromOrigMeans(excs[i].value, orig); }
    }
    PositionsAgree(idx, |excs|, IsSomeAt(os), Picking(excs, orig, again));
  }

  ghost function EachPicked(excs: seq<Option<Exc>>, orig: Exc, again: bool): (os: seq<Option<Exc>>)
    ensures |os| == |excs|
    ensures forall i | 0 <= i < |excs| ::
      os[i] == if excs[i].Some? && FromOrig(excs[i].value, orig) == again then excs[i] else None
  {
    seq(|excs|, i requires 0 <= i < |excs| =>
      if excs[i].Some? && FromOrig(excs[i].value, orig) == again then excs[i] else None)
  }

  lemma {:induction false} PickIsSomes(excs: seq<Option<Exc>>, orig: Exc, again: bool)
    ensures Pick(excs, orig, again) == Somes(EachPicked(excs, orig, again))
  {
    if excs != [] {
      hide FromOrig;
      var n := |excs| - 1;
      PickIsSomes(excs[..n], orig, again);
      assert EachPicked(excs, orig, again)[..n] == EachPicked(excs[..n], orig, again);
    }
  }

  lemma KeepPositions(t: seq<Placed>, keep: set<nat>) returns (idx: seq<nat>)
    ensures Positions(idx, |t|, Keeping(t, keep)) && KeepPlaced(t, keep) == At(t, idx)
  {
    var os := EachKept(t, keep);
    idx := SomePositions(os);
    KeepIsSomes(t, keep);
    PositionsAgree(idx, |t|, IsSomeAt(os), Keeping(t, keep));
    assert KeepPlaced(t, keep) == At(t, idx);
  }

  ghost function Keeping(t: seq<Placed>, keep: set<nat>): nat -> bool {
    (i: nat) => i < |t| && t[i].1.Leaf? && t[i].1.id in keep
  }

  ghost function EachKept(t: seq<Placed>, keep: set<nat>): (os: seq<Option<Placed>>)
    ensures |os| == |t|
    ensures forall i | 0 <= i < |t| :: os[i] == if t[i].1.Leaf? && t[i].1.id in keep then Some(t[i]) else None
  {
    seq(|t|, i requires 0 <= i < |t| => if t[i].1.Leaf? && t[i].1.id in keep then Some(t[i]) else None)
  }

  lemma {:induction false} KeepIsSomes(t: seq<Placed>, keep: set<nat>)
    ensures KeepPlaced(t, keep) == Somes(EachKept(t, keep))
  {
    if t != [] {
      var n := |t| - 1;
      KeepIsSomes(t[..n], keep);
      assert EachKept(t, keep)[..n] == EachKept(t[..n], keep);
    }
  }

  lemma {:induction false} BareAt(t: seq<Placed>, i: nat)
    requires i < |t|
    ensures |Bare(t)| == |t| && Bare(t)[i] == t[i].1
  {
    var n := |t| - 1;
    if n > 0 { BareAt(t[..n], if i < n then i else 0); }
  }

  /** The leaves of a tree are those of its trace, in order. */
  lemma TracedLeaves(e: Exc, above: seq<nat>)
    ensures |Trace(e, above)| == |Leaves(e)|
    ensures forall i | 0 <= i < |Leaves(e)| :: Trace(e, above)[i].1 == Leaves(e)[i]
  {
    BareTrace(e, above);
    var t := Trace(e, above);
    if t != [] { BareAt(t, 0); }
    forall i | 0 <= i < |t| ensures t[i].1 == Leaves(e)[i] { BareAt(t, i); }
  }

  lemma {:induction false} LeavesAreLeaves(e: Exc)
    ensures forall x | x in Leaves(e) :: x.Leaf?
    decreases e, 1
  {
    if e.Group? { LeavesAreLeavesAll(e.excs); }
  }

  lemma {:induction false} LeavesAreLeavesAll(s: seq<Exc>)
    ensures forall x | x in LeavesAll(s) :: x.Leaf?
    decreases s, 0
  {
    if s != [] {
      LeavesAreLeavesAll(s[..|s| - 1]);
      LeavesAreLeaves(s[|s| - 1]);
    }
  }

  /** The leaf identities of the exceptions at some positions. */
  lemma {:induction false} IdsOfPicked(s: seq<Exc>, id: nat)
    ensures id in LeafIdsAll(s) <==> exists k :: 0 <= k < |s| && HasId(Leaves(s[k]), id)
  {
    if s != [] {
      var n := |s| - 1;
      IdsOfPicked(s[..n], id);
      IdsOfLeaves(s[n]);
      if k :| 0 <= k < n && HasId(Leaves(s[..n][k]), id) { assert HasId(Leaves(s[k]), id); }
      if k :| 0 <= k < |s| && HasId(Leaves(s[k]), id) {
        if k < n { assert HasId(Leaves(s[..n][k]), id); }
      }
    }
  }

  lemma KeptMeans(excs: seq<Option<Exc>>, orig: Exc, i: nat)
    requires i < |Leaves(orig)|
    ensures Leaves(orig)[i].id in LeafIdsAll(Pick(excs, orig, true)) <==> IsKept(excs, orig, i)
  {
    hide Leaves, LeafIdsAll, Pick, ComesFrom, HasId;
    var id, s := Leaves(orig)[i].id, Pick(excs, orig, true);
    var idx := PickPositions(excs, orig, true);
    IdsOfPicked(s, id);
    if k :| 0 <= k < |s| && HasId(Leaves(s[k]), id) {
      assert excs[idx[k]] == Some(s[k]);
      assert IsAgain(excs, orig, idx[k]);
    }
    if IsKept(excs, orig, i) {
      var j: nat :| IsAgain(excs, orig, j) && HasId(Leaves(excs[j].value), id);
      assert j in idx;
      var k :| 0 <= k < |idx| && idx[k] == j;
      assert Some(s[k]) == excs[j];
    }
  }

  /** What re-raising does: the newly raised exceptions in order, and then the original cut down to the
      leaves that are raised again, in their order and under their groups. One of these alone is raised
      as it is; several are the members of a new ExceptionGroup, or a TypeError. */
  lemma ReraiseInOrder(orig: Exc, excs: seq<Option<Exc>>)
      returns (raised: seq<nat>, kept: seq<nat>, news: seq<Exc>, projected: Option<Exc>)
    requires orig.Group?
    ensures Positions(raised, |excs|, (i: nat) => IsNew(excs, orig, i))
    ensures |news| == |raised| && forall k | 0 <= k < |raised| :: excs[raised[k]] == Some(news[k])
    ensures Positions(kept, |Leaves(orig)|, (i: nat) => IsKept(excs, orig, i)) && |Trace(orig, [])| == |Leaves(orig)|
    ensures TraceOption(projected, []) == At(Trace(orig, []), kept) && (projected.Some? <==> kept != [])
    ensures LeavesOption(projected) == At(Leaves(orig), kept)
    ensures WellFormed(orig) ==> WellFormedOption(projected)
    ensures var all := news + if projected.Some? then [projected.value] else [];
      ReraiseOf(Some(orig), excs) ==
        if |all| == 0 then Value(None)
        else if |all| == 1 then Value(Some(all[0]))
        else if exists x :: x in all && !x.plain then GroupTypeError
        else Value(Some(Group(0, EXCEPTION_GROUP, true, WRAPPER, all)))
  {
    hide Leaves, LeafIdsAll, Pick, FromOrig, ComesFrom, IsKept, WellFormed, SplitParts;
    news := Pick(excs, orig, false);
    raised := PickPositions(excs, orig, false);
    projected := Projection(orig, Pick(excs, orig, true));
    kept := ProjectedPositions(orig, excs, projected);
  }

  lemma ProjectedPositions(orig: Exc, excs: seq<Option<Exc>>, projected: Option<Exc>) returns (kept: seq<nat>)
    requires projected == Projection(orig, Pick(excs, orig, true))
    ensures Positions(kept, |Leaves(orig)|, (i: nat) => IsKept(excs, orig, i)) && |Trace(orig, [])| == |Leaves(orig)|
    ensures TraceOption(projected, []) == At(Trace(orig, []), kept) && (projected.Some? <==> kept != [])
    ensures LeavesOption(projected) == At(Leaves(orig), kept)
    ensures WellFormed(orig) ==> WellFormedOption(projected)
  {
    hide Leaves, LeafIdsAll, Pick, IsKept, WellFormed, SplitParts, Trace, KeepPlaced;
    var again := Pick(excs, orig, true);
    var keep := LeafIdsAll(again);
    kept := KeepPositions(Trace(orig, []), keep);
    KeptAreKept(orig, excs, kept);
    ProjectionTrace(orig, again);
    ReraisedIds(excs, orig);
    ProjectionIds(orig, keep);
    if projected.Some? {
      SomeLeaf(projected.value);
      BareTrace(projected.value, []);
      TracedLeaves(projected.value, []);
    }
    assert LeavesOption(projected) == At(Leaves(orig), kept);
  }

  lemma SomeLeaf(e: Exc)
    ensures LeafIds(e) != {} ==> Leaves(e) != []
  {
    IdsOfLeaves(e);
    if id :| id in LeafIds(e) { assert HasId(Leaves(e), id); }
  }

  lemma ProjectionTrace(orig: Exc, again: seq<Exc>)
    ensures TraceOption(Projection(orig, again), []) == KeepPlaced(Trace(orig, []), LeafIdsAll(again))
    ensures WellFormed(orig) ==> WellFormedOption(Projection(orig, again))
  {
    if again == [] {
      NothingKeptOf(Trace(orig, []));
    } else {
      SplitSelects(orig, Kept(LeafIdsAll(again)), []);
      SelectedKept(orig, LeafIdsAll(again), []);
      if WellFormed(orig) { ProjectionIsPruning(orig, LeafIdsAll(again)); }
    }
  }

  lemma {:induction false} NothingKeptOf(t: seq<Placed>)
    ensures KeepPlaced(t, {}) == []
  {
    if t != [] { NothingKeptOf(t[..|t| - 1]); }
  }

  lemma KeptAreKept(orig: Exc, excs: seq<Option<Exc>>, kept: seq<nat>)
    requires var t, keep := Trace(orig, []), LeafIdsAll(Pick(excs, orig, true));
      Positions(kept, |t|, Keeping(t, keep))
    ensures Positions(kept, |Leaves(orig)|, (i: nat) => IsKept(excs, orig, i))
    ensures |Trace(orig, [])| == |Leaves(orig)|
    ensures forall k | 0 <= k < |kept| ::
      kept[k] < |Leaves(orig)| && Trace(orig, [])[kept[k]].1 == Leaves(orig)[kept[k]]
  {
    hide Leaves, LeafIdsAll, Pick, IsKept, Trace;
    TracedLeaves(orig, []);
    LeavesAreLeaves(orig);
    forall i: nat | i < |Leaves(orig)|
      ensures Trace(orig, [])[i].1.id in LeafIdsAll(Pick(excs, orig, true)) <==> IsKept(excs, orig, i)
    {
      KeptMeans(excs, orig, i);
    }
  }
}
