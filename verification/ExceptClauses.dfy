/** Which clause of a list of except* clauses handles which leaf. */
module ExceptClauses {
  import opened ExceptionClasses
  import opened ExceptionGroups
  import opened ExceptStar
  import opened Wrappers

  // ---------- clauses that accept what is in the groups they accept ----------

  function Filter(s: seq<Exc>, f: Exc -> bool): seq<Exc> {
    if s == [] then [] else Filter(s[..|s| - 1], f) + if f(s[|s| - 1]) then [s[|s| - 1]] else []
  }

  lemma {:induction false} FilterConcat(a: seq<Exc>, b: seq<Exc>, f: Exc -> bool)
    ensures Filter(a + b, f) == Filter(a, f) + Filter(b, f)
  {
    if b == [] {
      assert a + b == a;
    } else {
      assert (a + b)[..|a + b| - 1] == a + b[..|b| - 1];
      FilterConcat(a, b[..|b| - 1], f);
    }
  }

  lemma {:induction false} FilterTwice(s: seq<Exc>, f: Exc -> bool, g: Exc -> bool, h: Exc -> bool)
    requires forall x | x in s :: h(x) == (f(x) && g(x))
    ensures Filter(Filter(s, f), g) == Filter(s, h)
  {
    if s != [] {
      var n := |s| - 1;
      FilterTwice(s[..n], f, g, h);
      var last := if f(s[n]) then [s[n]] else [];
      FilterConcat(Filter(s[..n], f), last, g);
      assert s[n] in s;
      if f(s[n]) { assert [s[n]][..0] == []; }
    }
  }

  lemma {:induction false} FilterAll(s: seq<Exc>, f: Exc -> bool)
    ensures (forall x | x in s :: f(x)) ==> Filter(s, f) == s
    ensures (forall x | x in s :: !f(x)) ==> Filter(s, f) == []
    ensures forall x :: x in Filter(s, f) <==> x in s && f(x)
  {
    if s != [] {
      FilterAll(s[..|s| - 1], f);
      assert s == s[..|s| - 1] + [s[|s| - 1]];
    }
  }

  predicate AcceptsClass(h: Handler, cls: nat) {
    exists i | 0 <= i < |h| :: h[i].accepts(cls)
  }

  /** A clause that accepts the class of a group accepts what is in it, as superclasses of the group
      classes do: for every group there is, and for those that splitting may make. */
  ghost predicate Consistent(h: Handler, e: Exc)
    decreases e
  {
    match e
    case Leaf(_, _, _) => true
    case Group(_, cls, _, _, excs) =>
      && (AcceptsClass(h, cls) ==> forall x | x in Leaves(e) :: AcceptsClass(h, x.cls))
      && (AcceptsClass(h, EXCEPTION_GROUP) ==> forall x | x in Leaves(e) && x.plain :: AcceptsClass(h, x.cls))
      && (AcceptsClass(h, BASE_EXCEPTION_GROUP) ==> forall x | x in Leaves(e) :: AcceptsClass(h, x.cls))
      && forall i | 0 <= i < |excs| :: Consistent(h, excs[i])
  }

  ghost predicate ConsistentOption(h: Handler, o: Option<Exc>) {
    o.Some? ==> Consistent(h, o.value)
  }

  lemma {:induction false} LeavesOfMember(s: seq<Exc>, i: nat)
    requires i < |s|
    ensures forall x | x in Leaves(s[i]) :: x in LeavesAll(s)
  {
    if i < |s| - 1 { LeavesOfMember(s[..|s| - 1], i); }
  }

  /** Splitting by a consistent clause divides the leaves by their own class alone. */
  lemma {:induction false} SplitFilters(e: Exc, h: Handler)
    requires Consistent(h, e)
    ensures var p := SplitParts(e, Accepting(h));
      && LeavesOption(p.matching) == Filter(Leaves(e), Accepting(h))
      && LeavesOption(p.rest) == Filter(Leaves(e), Refusing(h))
    decreases e, 1
  {
    if Accepts(h, e) {
      AcceptedWhole(e, h);
    } else if e.Group? {
      SplitMembersFilter(e.excs, h);
    } else {
      FilterAll([e], Accepting(h));
      FilterAll([e], Refusing(h));
    }
  }

  lemma AcceptedWhole(e: Exc, h: Handler)
    requires Consistent(h, e) && Accepts(h, e)
    ensures Filter(Leaves(e), Accepting(h)) == Leaves(e) && Filter(Leaves(e), Refusing(h)) == []
  {
    assert AcceptsClass(h, e.cls);
    forall x | x in Leaves(e) ensures Accepts(h, x) { assert AcceptsClass(h, x.cls); }
    FilterAll(Leaves(e), Accepting(h));
    FilterAll(Leaves(e), Refusing(h));
  }

  lemma {:induction false} SplitMembersFilter(s: seq<Exc>, h: Handler)
    requires forall i | 0 <= i < |s| :: Consistent(h, s[i])
    ensures LeavesAll(SplitMembers(s, Accepting(h)).0) == Filter(LeavesAll(s), Accepting(h))
    ensures LeavesAll(SplitMembers(s, Accepting(h)).1) == Filter(LeavesAll(s), Refusing(h))
    decreases s, 0
  {
    if s != [] {
      hide Consistent, Filter, SplitParts, SplitMembers, Leaves, LeavesAll, LeavesOption, OptionSeq;
      var n, cond := |s| - 1, Accepting(h);
      SplitMembersFilter(s[..n], h);
      SplitFilters(s[n], h);
      var before, p := SplitMembers(s[..n], cond), SplitParts(s[n], cond);
      LeavesAllAppend(before.0, p.matching);
      LeavesAllAppend(before.1, p.rest);
      SplitMembersLast(s, cond);
      FilterConcat(LeavesAll(s[..n]), Leaves(s[n]), cond);
      FilterConcat(LeavesAll(s[..n]), Leaves(s[n]), Refusing(h));
    }
  }

  lemma SplitMembersLast(s: seq<Exc>, cond: Exc -> bool)
    requires s != []
    ensures var before, p := SplitMembers(s[..|s| - 1], cond), SplitParts(s[|s| - 1], cond);
      SplitMembers(s, cond) == (before.0 + OptionSeq(p.matching), before.1 + OptionSeq(p.rest))
    ensures LeavesAll(s) == LeavesAll(s[..|s| - 1]) + Leaves(s[|s| - 1])
  {}

  lemma {:induction false} PlainLeaves(e: Exc)
    requires WellFormed(e) && e.plain
    ensures forall x | x in Leaves(e) :: x.plain
    decreases e, 1
  {
    if e.Group? { PlainLeavesAll(e.excs); }
  }

  lemma {:induction false} PlainLeavesAll(s: seq<Exc>)
    requires AllPlain(s) && forall i | 0 <= i < |s| :: WellFormed(s[i])
    ensures forall x | x in LeavesAll(s) :: x.plain
    decreases s, 0
  {
    if s != [] {
      PlainLeavesAll(s[..|s| - 1]);
      PlainLeaves(s[|s| - 1]);
    }
  }

  ghost predicate PartOf(s: seq<Exc>, leaves: seq<Exc>, h: Handler) {
    && (forall i | 0 <= i < |s| :: WellFormed(s[i]) && Consistent(h, s[i]))
    && forall x | x in LeavesAll(s) :: x in leaves
  }

  /** The parts of a split stay consistent with every clause that the whole was consistent with. */
  lemma {:induction false} PartsConsistent(e: Exc, cond: Exc -> bool, h: Handler)
    requires WellFormed(e) && Consistent(h, e)
    ensures PartOf(OptionSeq(SplitParts(e, cond).matching), Leaves(e), h)
    ensures PartOf(OptionSeq(SplitParts(e, cond).rest), Leaves(e), h)
    decreases e, 1
  {
    LeavesAllAppend([], Some(e));
    assert [] + OptionSeq(Some(e)) == [e];
    if !cond(e) && e.Group? {
      MembersConsistent(e.excs, cond, h);
      var (m, r) := SplitMembers(e.excs, cond);
      DerivedConsistent(e, m, h);
      DerivedConsistent(e, r, h);
    }
  }

  lemma DerivedConsistent(e: Exc, s: seq<Exc>, h: Handler)
    requires e.Group? && Consistent(h, e) && PartOf(s, Leaves(e), h)
    ensures PartOf(OptionSeq(GroupOf(e, s)), Leaves(e), h)
  {
    if s != [] {
      var d := Derive(e, s);
      LeavesAllAppend([], Some(d));
      assert [] + OptionSeq(Some(d)) == [d];
      assert Leaves(d) == LeavesAll(s);
      if AllPlain(s) { PlainLeavesAll(s); }
    }
  }

  lemma {:induction false} MembersConsistent(s: seq<Exc>, cond: Exc -> bool, h: Handler)
    requires forall i | 0 <= i < |s| :: WellFormed(s[i]) && Consistent(h, s[i])
    ensures PartOf(SplitMembers(s, cond).0, LeavesAll(s), h) && PartOf(SplitMembers(s, cond).1, LeavesAll(s), h)
    decreases s, 0
  {
    if s != [] {
      var n := |s| - 1;
      MembersConsistent(s[..n], cond, h);
      PartsConsistent(s[n], cond, h);
      var before, p := SplitMembers(s[..n], cond), SplitParts(s[n], cond);
      PartJoins(before.0, p.matching, LeavesAll(s[..n]), Leaves(s[n]), h);
      PartJoins(before.1, p.rest, LeavesAll(s[..n]), Leaves(s[n]), h);
    }
  }

  lemma LeavesAllOption(o: Option<Exc>)
    ensures LeavesAll(OptionSeq(o)) == LeavesOption(o)
  {
    LeavesAllAppend([], o);
    assert [] + OptionSeq(o) == OptionSeq(o);
  }

  lemma PartJoins(s: seq<Exc>, o: Option<Exc>, a: seq<Exc>, b: seq<Exc>, h: Handler)
    requires PartOf(s, a, h) && PartOf(OptionSeq(o), b, h)
    ensures PartOf(s + OptionSeq(o), a + b, h)
  {
    hide WellFormed, Consistent, Leaves, LeavesAll, LeavesOption, OptionSeq;
    LeavesAllAppend(s, o);
    LeavesAllOption(o);
    var t := s + OptionSeq(o);
    forall i | 0 <= i < |t| ensures WellFormed(t[i]) && Consistent(h, t[i]) {
      if i >= |s| { assert t[i] == OptionSeq(o)[i - |s|]; }
    }
  }

  /** What a clause leaves is well-formed, and consistent with the clauses after it. */
  lemma MatchKeeps(e: Exc, h: Handler, later: Handler)
    requires WellFormed(e) && Consistent(later, e) && ExceptionGroupMatch(Some(e), h).Matched?
    ensures WellFormedOption(ExceptionGroupMatch(Some(e), h).rest)
    ensures ConsistentOption(later, ExceptionGroupMatch(Some(e), h).rest)
  {
    if e.Group? && !Accepts(h, e) {
      var cond := Accepting(h);
      PartsConsistent(e, cond, later);
      var rest := SplitParts(e, cond).rest;
      if rest.Some? { assert OptionSeq(rest)[0] == rest.value; }
    }
  }

  /** A clause takes the leaves whose class it accepts and leaves the others. */
  lemma MatchFilters(e: Exc, h: Handler)
    requires Consistent(h, e) && ExceptionGroupMatch(Some(e), h).Matched?
    ensures var m := ExceptionGroupMatch(Some(e), h);
      && LeavesOption(m.matching) == Filter(Leaves(e), Accepting(h))
      && LeavesOption(m.rest) == Filter(Leaves(e), Refusing(h))
  {
    SplitFilters(e, h);
    if e.Leaf? {
      FilterAll([e], Accepting(h));
      FilterAll([e], Refusing(h));
      if Accepts(h, e) { WrappedLeaves(e); }
    }
  }

  /** The position of the first clause that accepts a leaf, or their number. */
  function FirstAccepting(handlers: seq<Handler>, x: Exc): (i: nat)
    ensures i <= |handlers| && (i < |handlers| ==> Accepts(handlers[i], x))
    ensures forall j | 0 <= j < i :: !Accepts(handlers[j], x)
  {
    if handlers == [] then 0
    else
      var n := |handlers| - 1;
      var i := FirstAccepting(handlers[..n], x);
      if i < n then i else if Accepts(handlers[n], x) then n else n + 1
  }

  function TakenBy(handlers: seq<Handler>, i: nat): Exc -> bool {
    x => FirstAccepting(handlers, x) == i
  }

  ghost predicate FirstWins(exc: Exc, handlers: seq<Handler>, r: Handled)
    requires r.Handled?
  {
    && |r.matches| == |handlers|
    && (forall i | 0 <= i < |handlers| ::
          LeavesOption(r.matches[i]) == Filter(Leaves(exc), TakenBy(handlers, i)))
    && LeavesOption(r.rest) == Filter(Leaves(exc), TakenBy(handlers, |handlers|))
  }

  /** The clause is given something: the clauses before it do not fail and leave something. */
  ghost predicate Reached(exc: Exc, handlers: seq<Handler>, i: nat)
    requires i < |handlers|
  {
    HandleAll(Some(exc), handlers[..i]).Handled? && HandleAll(Some(exc), handlers[..i]).rest.Some?
  }

  /** If the clauses that are given something are consistent, every leaf goes to the first clause that
      accepts its class, in order. */
  lemma {:induction false} ConsistentClauseWins(exc: Exc, handlers: seq<Handler>)
    requires WellFormed(exc)
    requires forall i | 0 <= i < |handlers| && Reached(exc, handlers, i) :: Consistent(handlers[i], exc)
    requires HandleAll(Some(exc), handlers).Handled?
    ensures FirstWins(exc, handlers, HandleAll(Some(exc), handlers))
  {
    if handlers == [] {
      NoClause(exc, handlers);
    } else {
      hide Consistent, WellFormed, FirstWins, Reached;
      var n := |handlers| - 1;
      forall i | 0 <= i < n && Reached(exc, handlers[..n], i) ensures Consistent(handlers[..n][i], exc) {
        ReachedEarlier(exc, handlers, i);
      }
      BeforeLast(exc, handlers);
      ConsistentClauseWins(exc, handlers[..n]);
      var before := HandleAll(Some(exc), handlers[..n]);
      if before.rest.Some? { RestKeeps(exc, handlers[..n], handlers[n]); }
      OneMoreClause(exc, handlers, before);
    }
  }

  lemma ReachedEarlier(exc: Exc, handlers: seq<Handler>, i: nat)
    requires i < |handlers| - 1
    ensures Reached(exc, handlers[..|handlers| - 1], i) <==> Reached(exc, handlers, i)
  {
    hide HandleAll;
    assert handlers[..|handlers| - 1][..i] == handlers[..i];
  }

  lemma BeforeLast(exc: Exc, handlers: seq<Handler>)
    requires handlers != [] && HandleAll(Some(exc), handlers).Handled?
    ensures var before := HandleAll(Some(exc), handlers[..|handlers| - 1]);
      before.Handled? && (before.rest.Some? ==> Reached(exc, handlers, |handlers| - 1))
  {
    hide ExceptionGroupMatch;
  }

  lemma {:induction false} RestKeeps(exc: Exc, handlers: seq<Handler>, later: Handler)
    requires WellFormed(exc) && Consistent(later, exc) && HandleAll(Some(exc), handlers).Handled?
    ensures WellFormedOption(HandleAll(Some(exc), handlers).rest)
    ensures ConsistentOption(later, HandleAll(Some(exc), handlers).rest)
  {
    if handlers != [] {
      var n := |handlers| - 1;
      RestKeeps(exc, handlers[..n], later);
      var rest := HandleAll(Some(exc), handlers[..n]).rest;
      if rest.Some? { MatchKeeps(rest.value, handlers[n], later); }
    }
  }

  lemma NoClause(exc: Exc, handlers: seq<Handler>)
    requires handlers == []
    ensures Filter(Leaves(exc), TakenBy(handlers, 0)) == Leaves(exc)
  {
    FilterAll(Leaves(exc), TakenBy(handlers, 0));
    assert forall x :: TakenBy(handlers, 0)(x);
  }

  lemma OneMoreClause(exc: Exc, handlers: seq<Handler>, before: Handled)
    requires handlers != [] && before == HandleAll(Some(exc), handlers[..|handlers| - 1]) && before.Handled?
    requires FirstWins(exc, handlers[..|handlers| - 1], before)
    requires ConsistentOption(handlers[|handlers| - 1], before.rest)
    requires HandleAll(Some(exc), handlers).Handled?
    ensures FirstWins(exc, handlers, HandleAll(Some(exc), handlers))
  {
    hide Leaves, Filter, TakenBy, FirstAccepting, ExceptionGroupMatch, ConsistentOption, LeavesOption, HandleAll;
    var n := |handlers| - 1;
    OneMoreHandled(exc, handlers, before);
    LastClause(exc, handlers, before.rest);
    var m := ExceptionGroupMatch(before.rest, handlers[n]);
    var r := Handled(before.matches + [m.matching], m.rest);
    forall i | 0 <= i < n + 1 ensures LeavesOption(r.matches[i]) == Filter(Leaves(exc), TakenBy(handlers, i)) {
      if i < n {
        EarlierClause(Leaves(exc), handlers, i);
        assert r.matches[i] == before.matches[i];
      }
    }
  }

  lemma OneMoreHandled(exc: Exc, handlers: seq<Handler>, before: Handled)
    requires handlers != [] && before == HandleAll(Some(exc), handlers[..|handlers| - 1]) && before.Handled?
    requires HandleAll(Some(exc), handlers).Handled?
    ensures ExceptionGroupMatch(before.rest, handlers[|handlers| - 1]).Matched?
    ensures var m := ExceptionGroupMatch(before.rest, handlers[|handlers| - 1]);
      HandleAll(Some(exc), handlers) == Handled(before.matches + [m.matching], m.rest)
  {
    hide ExceptionGroupMatch;
  }

  lemma EarlierClause(s: seq<Exc>, handlers: seq<Handler>, i: nat)
    requires i < |handlers| - 1
    ensures Filter(s, TakenBy(handlers[..|handlers| - 1], i)) == Filter(s, TakenBy(handlers, i))
  {
    FilterAgrees(s, TakenBy(handlers[..|handlers| - 1], i), TakenBy(handlers, i));
  }

  lemma LastClause(exc: Exc, handlers: seq<Handler>, rest: Option<Exc>)
    requires handlers != [] && ConsistentOption(handlers[|handlers| - 1], rest)
    requires ExceptionGroupMatch(rest, handlers[|handlers| - 1]).Matched?
    requires LeavesOption(rest) == Filter(Leaves(exc), TakenBy(handlers[..|handlers| - 1], |handlers| - 1))
    ensures var m := ExceptionGroupMatch(rest, handlers[|handlers| - 1]);
      && LeavesOption(m.matching) == Filter(Leaves(exc), TakenBy(handlers, |handlers| - 1))
      && LeavesOption(m.rest) == Filter(Leaves(exc), TakenBy(handlers, |handlers|))
  {
    var n := |handlers| - 1;
    var h, s := handlers[n], Leaves(exc);
    if rest.Some? { MatchFilters(rest.value, h); }
    FilterTwice(s, TakenBy(handlers[..n], n), Accepting(h), TakenBy(handlers, n));
    FilterTwice(s, TakenBy(handlers[..n], n), Refusing(h), TakenBy(handlers, n + 1));
  }

  lemma {:induction false} FilterAgrees(s: seq<Exc>, f: Exc -> bool, g: Exc -> bool)
    requires forall x | x in s :: f(x) == g(x)
    ensures Filter(s, f) == Filter(s, g)
  {
    if s != [] {
      FilterAgrees(s[..|s| - 1], f, g);
      assert s[|s| - 1] in s;
    }
  }

  // ---------- any clauses ----------

  /** The leaves without their position. */
  function Bare(t: seq<Placed>): seq<Exc> {
    if t == [] then [] else Bare(t[..|t| - 1]) + [t[|t| - 1].1]
  }

  lemma {:induction false} BareConcat(a: seq<Placed>, b: seq<Placed>)
    ensures Bare(a + b) == Bare(a) + Bare(b)
  {
    if b == [] {
      assert a + b == a;
    } else {
      var n := |b| - 1;
      assert (a + b)[..|a + b| - 1] == a + b[..n];
      BareConcat(a, b[..n]);
    }
  }

  lemma {:induction false} BareTrace(e: Exc, above: seq<nat>)
    ensures Bare(Trace(e, above)) == Leaves(e)
    decreases e, 1
  {
    match e
    case Leaf(_, _, _) => assert Bare([(above, e)][..0]) == [];
    case Group(_, _, _, meta, excs) => BareTraceAll(excs, above + [meta]);
  }

  lemma {:induction false} BareTraceAll(s: seq<Exc>, above: seq<nat>)
    ensures Bare(TraceAll(s, above)) == LeavesAll(s)
    decreases s, 0
  {
    if s != [] {
      var n := |s| - 1;
      BareTraceAll(s[..n], above);
      BareTrace(s[n], above);
      BareConcat(TraceAll(s[..n], above), Trace(s[n], above));
    }
  }

  /** The leaves that a clause takes, or leaves: those whose own class it accepts, and all those in a
      group whose class it accepts. */
  function Taken(e: Exc, h: Handler, wanted: bool): seq<Exc> {
    Bare(Selected(e, Accepting(h), false, wanted, []))
  }

  /** What becomes of groups: an accepted one is the match itself; of another one both parts keep their
      leaves under their groups. An accepted naked exception is put in an ExceptionGroup of its own. */
  lemma MatchKeepsGroups(e: Exc, h: Handler)
    requires ExceptionGroupMatch(Some(e), h).Matched?
    ensures var m := ExceptionGroupMatch(Some(e), h);
      if Accepts(h, e) then
        m.rest == None && m.matching ==
          if e.Group? then Some(e) else Some(Group(0, EXCEPTION_GROUP, true, WRAPPER, [e]))
      else if e.Leaf? then m == Matched(Some(e), None)
      else
        && TraceOption(m.matching, []) == Selected(e, Accepting(h), false, true, [])
        && TraceOption(m.rest, []) == Selected(e, Accepting(h), false, false, [])
        && (WellFormed(e) ==> WellFormedOption(m.matching) && WellFormedOption(m.rest))
  {
    SplitSelects(e, Accepting(h), []);
    if WellFormed(e) { SplitWellFormed(e, Accepting(h)); }
  }

  lemma MatchSelects(e: Exc, h: Handler)
    requires ExceptionGroupMatch(Some(e), h).Matched?
    ensures LeavesOption(ExceptionGroupMatch(Some(e), h).matching) == Taken(e, h, true)
    ensures LeavesOption(ExceptionGroupMatch(Some(e), h).rest) == Taken(e, h, false)
  {
    var p := SplitParts(e, Accepting(h));
    SplitSelects(e, Accepting(h), []);
    if p.matching.Some? { BareTrace(p.matching.value, []); }
    if p.rest.Some? { BareTrace(p.rest.value, []); }
    if Accepts(h, e) && e.Leaf? { WrappedLeaves(e); }
  }

  /** A clause that names the classes. */
  ghost predicate Names(bases: Bases, h: Handler, types: seq<nat>) {
    && |h| == |types|
    && forall i | 0 <= i < |h| ::
      && (h[i].valid <==> Admissible(bases, types[i]))
      && forall c :: h[i].accepts(c) <==> Subclass(bases, c, types[i])
  }

  /** Then it accepts the exceptions of the named classes and of those that derive from them. */
  lemma NamesAccept(bases: Bases, h: Handler, types: seq<nat>, e: Exc)
    requires Names(bases, h, types)
    ensures Accepts(h, e) <==> exists i :: 0 <= i < |types| && Subclass(bases, e.cls, types[i])
    ensures AllValid(h) <==> forall i | 0 <= i < |types| :: Admissible(bases, types[i])
  {
    hide Subclass, Admissible;
    if Accepts(h, e) {
      var i :| 0 <= i < |h| && h[i].accepts(e.cls);
      assert Subclass(bases, e.cls, types[i]);
    }
    if i :| 0 <= i < |types| && Subclass(bases, e.cls, types[i]) { assert h[i].accepts(e.cls); }
    if AllValid(h) {
      forall i | 0 <= i < |types| ensures Admissible(bases, types[i]) { assert h[i].valid; }
    }
    if forall i | 0 <= i < |types| :: Admissible(bases, types[i]) {
      forall i | 0 <= i < |h| ensures h[i].valid { assert Admissible(bases, types[i]); }
    }
  }

  /** The tree is one of exceptions: groups and leaves have classes of their kind, and `plain` says
      whether the class derives from Exception. */
  ghost predicate Typed(bases: Bases, e: Exc)
    decreases e
  {
    && Subclass(bases, e.cls, BASE_EXCEPTION)
    && (e.plain <==> Subclass(bases, e.cls, EXCEPTION))
    && (e.Group? <==> Subclass(bases, e.cls, BASE_EXCEPTION_GROUP))
    && (e.Group? ==> forall i | 0 <= i < |e.excs| :: Typed(bases, e.excs[i]))
  }

  /** A group whose class a clause accepts is taken whole, whatever is in it: the class of group g
      derives from ExceptionGroup and from the class that the clause names, its member x does not. */
  lemma MixedGroupTakenWhole() returns (bases: Bases, g: Exc, x: Exc, h: Handler)
    ensures TopClasses(bases) && Names(bases, h, [5])
    ensures WellFormed(g) && Typed(bases, g) && x in Leaves(g) && !Accepts(h, x)
    ensures ExceptionGroupMatch(Some(g), h) == Matched(None, Some(g))
  {
    hide Leaves, LeavesAll, Subclass;
    bases := c =>
      if c == EXCEPTION_GROUP then [BASE_EXCEPTION_GROUP, EXCEPTION]
      else if c == BASE_EXCEPTION_GROUP || c == EXCEPTION then [BASE_EXCEPTION]
      else if c == BASE_EXCEPTION then [OBJECT]
      else if c == 5 || c == 7 then [EXCEPTION]
      else if c == 6 then [EXCEPTION_GROUP, 5]
      else [];
    x := Leaf(2, 7, true);
    g := Group(1, 6, true, 1, [x]);
    h := [HandlerType(true, c => c == 5 || c == 6)];
    MixedClasses(bases);
    assert h[0].accepts(g.cls);
    OneLeaf(g, x);
  }

  /** The class 5 of the clause, the class 6 of the group and the class 7 of its leaf. */
  lemma MixedClasses(bases: Bases)
    requires TopClasses(bases) && bases(5) == [EXCEPTION] && bases(6) == [EXCEPTION_GROUP, 5] && bases(7) == [EXCEPTION]
    requires forall c | c > 7 :: bases(c) == []
    ensures Admissible(bases, 5)
    ensures forall c :: Subclass(bases, c, 5) <==> c == 5 || c == 6
    ensures forall c | c == 6 || c == 7 :: Subclass(bases, c, BASE_EXCEPTION) && Subclass(bases, c, EXCEPTION)
    ensures Subclass(bases, 6, BASE_EXCEPTION_GROUP) && !Subclass(bases, 7, BASE_EXCEPTION_GROUP)
  {
    hide Subclass;
    forall t ensures Subclass(bases, 5, t) <==> t == 5 || Subclass(bases, EXCEPTION, t)
      ensures Subclass(bases, 7, t) <==> t == 7 || Subclass(bases, EXCEPTION, t)
      ensures Subclass(bases, 6, t) <==> t == 6 || Subclass(bases, EXCEPTION_GROUP, t) || Subclass(bases, 5, t)
    {
      SubclassUnfolds(bases, 5, t);
      SubclassUnfolds(bases, 6, t);
      SubclassUnfolds(bases, 7, t);
      assert bases(6)[0] == EXCEPTION_GROUP && bases(6)[1] == 5;
    }
    forall t ensures Subclass(bases, EXCEPTION_GROUP, t) <==>
      t == EXCEPTION_GROUP || t == BASE_EXCEPTION_GROUP || Subclass(bases, EXCEPTION, t)
    {
      AboveTop(bases, t);
      SubclassUnfolds(bases, EXCEPTION_GROUP, t);
      assert bases(EXCEPTION_GROUP)[0] == BASE_EXCEPTION_GROUP && bases(EXCEPTION_GROUP)[1] == EXCEPTION;
    }
    AboveTop(bases, 5);
    AboveTop(bases, EXCEPTION);
    AboveTop(bases, BASE_EXCEPTION);
    AboveTop(bases, BASE_EXCEPTION_GROUP);
    forall c ensures Subclass(bases, c, 5) <==> c == 5 || c == 6 {
      if c > 7 { SubclassUnfolds(bases, c, 5); }
    }
  }

  lemma OneLeaf(g: Exc, x: Exc)
    requires g.Group? && g.excs == [x] && x.Leaf?
    ensures Leaves(g) == [x]
  {
    LeavesAllAppend([], Some(x));
    assert [] + OptionSeq(Some(x)) == [x];
  }

  /** No group whose class the clause accepts holds a leaf that it refuses. */
  ghost predicate Uniform(h: Handler, e: Exc)
    decreases e
  {
    match e
    case Leaf(_, _, _) => true
    case Group(_, _, _, _, excs) =>
      && (Accepts(h, e) ==> forall x | x in Leaves(e) :: Accepts(h, x))
      && forall i | 0 <= i < |excs| :: Uniform(h, excs[i])
  }

  ghost predicate AllAccepted(s: seq<Exc>, h: Handler) {
    forall x | x in s :: Accepts(h, x)
  }

  /** A clause divides the leaves by their own class alone exactly when no group whose class it accepts
      holds a leaf that it refuses. */
  lemma ClassAloneDecides(e: Exc, h: Handler)
    ensures Uniform(h, e) <==>
      Taken(e, h, true) == Filter(Leaves(e), Accepting(h)) && Taken(e, h, false) == Filter(Leaves(e), Refusing(h))
  {
    hide Uniform;
    TakesAccepted(e, h, false, []);
    if Uniform(h, e) { SelectedFilters(e, h, false, []); }
    FilterAll(Leaves(e), Accepting(h));
  }

  /** What is selected is accepted exactly when the tree is uniform, or all of it is. */
  lemma {:induction false} TakesAccepted(e: Exc, h: Handler, inside: bool, above: seq<nat>)
    ensures AllAccepted(Bare(Selected(e, Accepting(h), inside, true, above)), h) <==>
      if inside then AllAccepted(Leaves(e), h) else Uniform(h, e)
    decreases e, 1
  {
    match e
    case Leaf(_, _, _) =>
      assert Bare([(above, e)][..0]) == [];
      assert Bare([(above, e)]) == [e];
    case Group(_, _, _, meta, excs) =>
      TakesAcceptedAll(excs, h, inside || Accepts(h, e), above + [meta]);
      if AllAccepted(Leaves(e), h) { AcceptedIsUniform(e, h); }
  }

  ghost predicate UniformAll(s: seq<Exc>, h: Handler) {
    forall i | 0 <= i < |s| :: Uniform(h, s[i])
  }

  lemma {:induction false} TakesAcceptedAll(s: seq<Exc>, h: Handler, inside: bool, above: seq<nat>)
    ensures AllAccepted(Bare(SelectedAll(s, Accepting(h), inside, true, above)), h) <==>
      if inside then AllAccepted(LeavesAll(s), h) else UniformAll(s, h)
    decreases s, 0
  {
    if s == [] {
      NothingSelected(h);
    } else {
      hide Bare, Selected, Uniform, Accepts;
      var n, cond := |s| - 1, Accepting(h);
      TakesAcceptedAll(s[..n], h, inside, above);
      TakesAccepted(s[n], h, inside, above);
      BareConcat(SelectedAll(s[..n], cond, inside, true, above), Selected(s[n], cond, inside, true, above));
      assert UniformAll(s, h) <==> UniformAll(s[..n], h) && Uniform(h, s[n]);
    }
  }

  lemma {:induction false} AcceptedIsUniform(e: Exc, h: Handler)
    requires AllAccepted(Leaves(e), h)
    ensures Uniform(h, e)
    decreases e
  {
    if e.Group? {
      forall i | 0 <= i < |e.excs| ensures Uniform(h, e.excs[i]) {
        LeavesOfMember(e.excs, i);
        AcceptedIsUniform(e.excs[i], h);
      }
    }
  }

  lemma {:induction false} SelectedFilters(e: Exc, h: Handler, inside: bool, above: seq<nat>)
    requires forall x | x in Bare(Selected(e, Accepting(h), inside, true, above)) :: Accepts(h, x)
    ensures Bare(Selected(e, Accepting(h), inside, true, above)) == Filter(Leaves(e), Accepting(h))
    ensures Bare(Selected(e, Accepting(h), inside, false, above)) == Filter(Leaves(e), Refusing(h))
    decreases e, 1
  {
    match e
    case Leaf(_, _, _) =>
      assert Bare([(above, e)][..0]) == [];
      assert Bare([(above, e)]) == [e];
      FilterAll([e], Accepting(h));
      FilterAll([e], Refusing(h));
    case Group(_, _, _, meta, excs) => SelectedAllFilters(excs, h, inside || Accepts(h, e), above + [meta]);
  }

  lemma {:induction false} SelectedAllFilters(s: seq<Exc>, h: Handler, inside: bool, above: seq<nat>)
    requires forall x | x in Bare(SelectedAll(s, Accepting(h), inside, true, above)) :: Accepts(h, x)
    ensures Bare(SelectedAll(s, Accepting(h), inside, true, above)) == Filter(LeavesAll(s), Accepting(h))
    ensures Bare(SelectedAll(s, Accepting(h), inside, false, above)) == Filter(LeavesAll(s), Refusing(h))
    decreases s, 0
  {
    if s != [] {
      hide Bare, Filter, Selected;
      var n, cond := |s| - 1, Accepting(h);
      BareConcat(SelectedAll(s[..n], cond, inside, true, above), Selected(s[n], cond, inside, true, above));
      BareConcat(SelectedAll(s[..n], cond, inside, false, above), Selected(s[n], cond, inside, false, above));
      SelectedAllFilters(s[..n], h, inside, above);
      SelectedFilters(s[n], h, inside, above);
      FilterConcat(LeavesAll(s[..n]), Leaves(s[n]), cond);
      FilterConcat(LeavesAll(s[..n]), Leaves(s[n]), Refusing(h));
    } else {
      NothingSelected(h);
    }
  }

  lemma NothingSelected(h: Handler)
    ensures Bare([]) == [] && LeavesAll([]) == [] && Filter([], Accepting(h)) == [] && Filter([], Refusing(h)) == []
  {}

  /** Every group in it was made by the interpreter. */
  ghost predicate DerivedOnly(e: Exc)
    decreases e
  {
    match e
    case Leaf(_, _, _) => true
    case Group(_, cls, plain, _, excs) =>
      && cls == (if plain then EXCEPTION_GROUP else BASE_EXCEPTION_GROUP)
      && forall i | 0 <= i < |excs| :: DerivedOnly(excs[i])
  }

  lemma {:induction false} RestDerived(e: Exc, cond: Exc -> bool)
    ensures SplitParts(e, cond).rest.Some? ==> DerivedOnly(SplitParts(e, cond).rest.value)
    decreases e, 1
  {
    if !cond(e) && e.Group? { RestMembersDerived(e.excs, cond); }
  }

  lemma {:induction false} RestMembersDerived(s: seq<Exc>, cond: Exc -> bool)
    ensures forall i | 0 <= i < |SplitMembers(s, cond).1| :: DerivedOnly(SplitMembers(s, cond).1[i])
    decreases s, 0
  {
    if s != [] {
      hide DerivedOnly;
      RestMembersDerived(s[..|s| - 1], cond);
      RestDerived(s[|s| - 1], cond);
    }
  }

  /** A clause that accepts a group class of the interpreter accepts the leaves such a group can
      hold. */
  ghost predicate Broad(h: Handler, leaves: seq<Exc>) {
    && (AcceptsClass(h, EXCEPTION_GROUP) ==> forall x | x in leaves && x.plain :: AcceptsClass(h, x.cls))
    && (AcceptsClass(h, BASE_EXCEPTION_GROUP) ==> forall x | x in leaves :: AcceptsClass(h, x.cls))
  }

  /** Clauses of admissible classes do: what accepts such a class is Exception or BaseException. */
  lemma AdmissibleIsBroad(bases: Bases, h: Handler, types: seq<nat>, e: Exc)
    requires TopClasses(bases) && Names(bases, h, types) && AllValid(h) && Typed(bases, e)
    ensures Broad(h, Leaves(e))
  {
    hide Subclass, Admissible;
    TypedLeaves(bases, e);
    if AcceptsClass(h, EXCEPTION_GROUP) {
      var i :| 0 <= i < |h| && h[i].accepts(EXCEPTION_GROUP);
      AdmissibleAboveGroups(bases, types[i]);
      forall x | x in Leaves(e) && x.plain ensures AcceptsClass(h, x.cls) { assert h[i].accepts(x.cls); }
    }
    if AcceptsClass(h, BASE_EXCEPTION_GROUP) {
      var i :| 0 <= i < |h| && h[i].accepts(BASE_EXCEPTION_GROUP);
      AdmissibleAboveGroups(bases, types[i]);
      forall x | x in Leaves(e) ensures AcceptsClass(h, x.cls) { assert h[i].accepts(x.cls); }
    }
  }

  lemma {:induction false} TypedLeaves(bases: Bases, e: Exc)
    requires Typed(bases, e)
    ensures forall x | x in Leaves(e) ::
      Subclass(bases, x.cls, BASE_EXCEPTION) && (x.plain <==> Subclass(bases, x.cls, EXCEPTION))
    decreases e, 1
  {
    if e.Group? { TypedLeavesAll(bases, e.excs); }
  }

  lemma {:induction false} TypedLeavesAll(bases: Bases, s: seq<Exc>)
    requires forall i | 0 <= i < |s| :: Typed(bases, s[i])
    ensures forall x | x in LeavesAll(s) ::
      Subclass(bases, x.cls, BASE_EXCEPTION) && (x.plain <==> Subclass(bases, x.cls, EXCEPTION))
    decreases s, 0
  {
    if s != [] {
      TypedLeavesAll(bases, s[..|s| - 1]);
      TypedLeaves(bases, s[|s| - 1]);
    }
  }

  lemma {:induction false} BroadConsistent(e: Exc, h: Handler)
    requires WellFormed(e) && DerivedOnly(e) && Broad(h, Leaves(e))
    ensures Consistent(h, e)
    decreases e
  {
    if e.Group? {
      forall i | 0 <= i < |e.excs| ensures Consistent(h, e.excs[i]) {
        LeavesOfMember(e.excs, i);
        BroadConsistent(e.excs[i], h);
      }
      if e.plain { PlainLeaves(e); }
    }
  }

  function Prefixed(m: Option<Exc>, r: Handled): Handled {
    match r case Failed => Failed case Handled(matches, rest) => Handled([m] + matches, rest)
  }

  /** Handling by the first clause and then by the others. */
  lemma {:induction false} HandleHead(exc: Option<Exc>, handlers: seq<Handler>)
    requires handlers != []
    ensures HandleAll(exc, handlers) == match ExceptionGroupMatch(exc, handlers[0])
      case TypeError => Failed
      case Matched(rest, matching) => Prefixed(matching, HandleAll(rest, handlers[1..]))
    decreases |handlers|
  {
    hide ExceptionGroupMatch;
    var n := |handlers| - 1;
    if n == 0 {
      assert handlers[..0] == [] && handlers[1..] == [];
      assert HandleAll(exc, []) == Handled([], exc);
    } else {
      HandleHead(exc, handlers[..n]);
      assert handlers[..n][1..] == handlers[1..][..n - 1];
      var m := ExceptionGroupMatch(exc, handlers[0]);
      if m.Matched? { PrefixedStep(m.matching, m.rest, handlers[1..]); }
    }
  }

  lemma PrefixedStep(m: Option<Exc>, exc: Option<Exc>, handlers: seq<Handler>)
    requires handlers != []
    ensures Prefixed(m, HandleAll(exc, handlers)) ==
      match Prefixed(m, HandleAll(exc, handlers[..|handlers| - 1]))
      case Failed => Failed
      case Handled(matches, rest) =>
        match ExceptionGroupMatch(rest, handlers[|handlers| - 1])
        case TypeError => Failed
        case Matched(rest', matching) => Handled(matches + [matching], rest')
  {
    hide ExceptionGroupMatch;
    var before := HandleAll(exc, handlers[..|handlers| - 1]);
    if before.Handled? && ExceptionGroupMatch(before.rest, handlers[|handlers| - 1]).Matched? {
      var matching := ExceptionGroupMatch(before.rest, handlers[|handlers| - 1]).matching;
      assert [m] + (before.matches + [matching]) == [m] + before.matches + [matching];
    }
  }

  lemma {:induction false} HandleNothing(handlers: seq<Handler>)
    ensures HandleAll(None, handlers).Handled? && HandleAll(None, handlers).rest == None
    ensures |HandleAll(None, handlers).matches| == |handlers|
    ensures forall i | 0 <= i < |handlers| :: HandleAll(None, handlers).matches[i] == None
  {
    if handlers != [] { HandleNothing(handlers[..|handlers| - 1]); }
  }

  /** The later clauses divide what the first one left by class alone. */
  ghost predicate LaterWin(left: seq<Exc>, later: seq<Handler>, r: Handled)
    requires r.Handled?
  {
    && |r.matches| == |later|
    && (forall i | 0 <= i < |later| :: LeavesOption(r.matches[i]) == Filter(left, TakenBy(later, i)))
    && LeavesOption(r.rest) == Filter(left, TakenBy(later, |later|))
  }

  /** Each clause names exception classes. */
  ghost predicate AllNamed(bases: Bases, handlers: seq<Handler>) {
    forall i | 0 <= i < |handlers| :: NamesSome(bases, handlers[i])
  }

  ghost predicate NamesSome(bases: Bases, h: Handler) {
    exists types :: Names(bases, h, types)
  }

  /** A clause that is given something has been checked. */
  lemma ReachedIsValid(exc: Exc, handlers: seq<Handler>, i: nat)
    requires i < |handlers| && Reached(exc, handlers, i) && HandleAll(Some(exc), handlers).Handled?
    ensures AllValid(handlers[i])
  {
    if HandleAll(Some(exc), handlers[..i + 1]) == Failed { FailureStays(Some(exc), handlers, i + 1); }
    assert handlers[..i + 1][..i] == handlers[..i];
  }

  /** What the first clause leaves, by the clauses after it. */
  lemma LeftDivided(bases: Bases, exc: Exc, handlers: seq<Handler>, rest: Option<Exc>)
    requires TopClasses(bases) && WellFormed(exc) && Typed(bases, exc)
    requires handlers != [] && AllNamed(bases, handlers[1..])
    requires ExceptionGroupMatch(Some(exc), handlers[0]).Matched?
    requires rest == ExceptionGroupMatch(Some(exc), handlers[0]).rest
    requires HandleAll(rest, handlers[1..]).Handled?
    ensures LaterWin(LeavesOption(rest), handlers[1..], HandleAll(rest, handlers[1..]))
  {
    hide Filter, TakenBy, HandleAll, Consistent, Typed;
    var later := handlers[1..];
    match rest
    case None =>
      HandleNothing(later);
      forall i | 0 <= i <= |later| ensures Filter([], TakenBy(later, i)) == [] { FilterAll([], TakenBy(later, i)); }
    case Some(e) =>
      RestIsDerived(exc, handlers[0]);
      forall i | 0 <= i < |later| && Reached(e, later, i) ensures Consistent(later[i], e) {
        ReachedIsValid(e, later, i);
        assert NamesSome(bases, later[i]);
        LaterConsistent(bases, exc, later[i], e);
      }
      ConsistentClauseWins(e, later);
  }

  lemma LaterConsistent(bases: Bases, exc: Exc, h: Handler, e: Exc)
    requires TopClasses(bases) && Typed(bases, exc) && NamesSome(bases, h) && AllValid(h)
    requires WellFormed(e) && DerivedOnly(e) && forall x | x in Leaves(e) :: x in Leaves(exc)
    ensures Consistent(h, e)
  {
    hide Consistent, Typed, Names, DerivedOnly, WellFormed;
    var types :| Names(bases, h, types);
    AdmissibleIsBroad(bases, h, types, exc);
    BroadConsistent(e, h);
  }

  lemma RestIsDerived(exc: Exc, h: Handler)
    requires WellFormed(exc) && ExceptionGroupMatch(Some(exc), h).Matched?
    requires ExceptionGroupMatch(Some(exc), h).rest.Some?
    ensures var e := ExceptionGroupMatch(Some(exc), h).rest.value;
      WellFormed(e) && DerivedOnly(e) && forall x | x in Leaves(e) :: x in Leaves(exc)
  {
    var m := ExceptionGroupMatch(Some(exc), h);
    MatchConserves(Some(exc), h);
    RestDerived(exc, Accepting(h));
    SplitWellFormed(exc, Accepting(h));
    forall x | x in Leaves(m.rest.value) ensures x in Leaves(exc) {
      assert x in multiset(LeavesOption(m.rest));
      assert x in multiset(LeavesOption(Some(exc)));
    }
  }

  /** The first clause takes every leaf whose class it accepts and every group whose class it accepts;
      each remaining leaf goes, in order, to the first later clause that accepts its class. */
  lemma FirstClauseWins(bases: Bases, exc: Exc, handlers: seq<Handler>)
    requires TopClasses(bases) && WellFormed(exc) && Typed(bases, exc)
    requires handlers != [] && AllNamed(bases, handlers) && HandleAll(Some(exc), handlers).Handled?
    ensures var r := HandleAll(Some(exc), handlers);
      && |r.matches| == |handlers| && LeavesOption(r.matches[0]) == Taken(exc, handlers[0], true)
      && LaterWin(Taken(exc, handlers[0], false), handlers[1..], Handled(r.matches[1..], r.rest))
  {
    hide Taken, LaterWin, ExceptionGroupMatch, Typed, NamesSome;
    HandleHead(Some(exc), handlers);
    MatchSelects(exc, handlers[0]);
    var m := ExceptionGroupMatch(Some(exc), handlers[0]);
    LeftDivided(bases, exc, handlers, m.rest);
    var later := HandleAll(m.rest, handlers[1..]);
    LaterLength(LeavesOption(m.rest), handlers[1..], later);
    assert ([m.matching] + later.matches)[1..] == later.matches;
  }

  lemma LaterLength(left: seq<Exc>, later: seq<Handler>, r: Handled)
    requires r.Handled? && LaterWin(left, later, r)
    ensures |r.matches| == |later|
  {}
}
