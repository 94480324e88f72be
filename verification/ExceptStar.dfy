/** Matching in except* blocks: `exception_group_match` of exceptions.rs (PEP 654). */
module ExceptStar {
  import opened ExceptionClasses
  import opened ExceptionGroups
  import opened Wrappers

  // ---------- leaves ----------

  function Leaves(e: Exc): seq<Exc>
    decreases e, 1
  {
    match e
    case Leaf(_, _, _) => [e]
    case Group(_, _, _, _, excs) => LeavesAll(excs)
  }

  function LeavesAll(s: seq<Exc>): seq<Exc>
    decreases s, 0
  {
    if s == [] then [] else LeavesAll(s[..|s| - 1]) + Leaves(s[|s| - 1])
  }

  function LeavesOption(o: Option<Exc>): seq<Exc> {
    match o case None => [] case Some(e) => Leaves(e)
  }

  lemma LeavesAllAppend(s: seq<Exc>, o: Option<Exc>)
    ensures LeavesAll(s + OptionSeq(o)) == LeavesAll(s) + LeavesOption(o)
  {
    match o
    case None => assert s + [] == s;
    case Some(e) => assert (s + [e])[..|s|] == s;
  }

  /** Splitting conserves leaves. */
  lemma {:induction false} SplitConserves(e: Exc, cond: Exc -> bool)
    ensures var p := SplitParts(e, cond);
      multiset(LeavesOption(p.matching)) + multiset(LeavesOption(p.rest)) == multiset(Leaves(e))
    decreases e, 1
  {
    if !cond(e) && e.Group? { SplitMembersConserves(e.excs, cond); }
  }

  lemma {:induction false} SplitMembersConserves(s: seq<Exc>, cond: Exc -> bool)
    ensures var (m, r) := SplitMembers(s, cond);
      multiset(LeavesAll(m)) + multiset(LeavesAll(r)) == multiset(LeavesAll(s))
    decreases s, 0
  {
    if s != [] {
      var n := |s| - 1;
      SplitMembersConserves(s[..n], cond);
      SplitConserves(s[n], cond);
      var before, p := SplitMembers(s[..n], cond), SplitParts(s[n], cond);
      LeavesAllAppend(before.0, p.matching);
      LeavesAllAppend(before.1, p.rest);
    }
  }

  // ---------- exception_group_match ----------

  /** One exception type of an except* clause: whether it is admissible there, and which classes are
      subclasses of it. */
  datatype HandlerType = HandlerType(valid: bool, accepts: nat -> bool)

  /** A clause names one type or a tuple of types. */
  type Handler = seq<HandlerType>

  predicate Accepts(h: Handler, e: Exc) {
    exists i | 0 <= i < |h| :: h[i].accepts(e.cls)
  }

  function Accepting(h: Handler): Exc -> bool {
    x => Accepts(h, x)
  }

  function Refusing(h: Handler): Exc -> bool {
    x => !Accepts(h, x)
  }

  predicate AllValid(h: Handler) {
    forall i | 0 <= i < |h| :: h[i].valid
  }

  datatype Match = Matched(rest: Option<Exc>, matching: Option<Exc>) | TypeError

  /** The empty message of a wrapper group. */
  const WRAPPER: nat := 0

  /** ExceptionGroup("", excs), which refuses members that are not Exceptions. */
  function Wrapped(excs: seq<Exc>): Option<Exc> {
    if AllPlain(excs) then Some(Group(0, EXCEPTION_GROUP, true, WRAPPER, excs)) else None
  }

  function ExceptionGroupMatch(exc: Option<Exc>, h: Handler): Match {
    match exc
    case None => Matched(None, None)
    case Some(e) =>
      if !AllValid(h) then TypeError
      else if Accepts(h, e) then
        if e.Group? then Matched(None, Some(e))
        else match Wrapped([e]) case Some(g) => Matched(None, Some(g)) case None => TypeError
      else if e.Group? then
        // the matcher of split refuses an empty tuple
        if h == [] then TypeError
        else var p := SplitParts(e, Accepting(h)); Matched(p.rest, p.matching)
      else Matched(Some(e), None)
  }

  /** A clause divides the leaves between what it handles and what is left. */
  lemma MatchConserves(exc: Option<Exc>, h: Handler)
    requires ExceptionGroupMatch(exc, h).Matched?
    ensures var m := ExceptionGroupMatch(exc, h);
      multiset(LeavesOption(m.matching)) + multiset(LeavesOption(m.rest)) == multiset(LeavesOption(exc))
    ensures exc.Some? && ExceptionGroupMatch(exc, h).matching.Some? ==>
      ExceptionGroupMatch(exc, h).matching.value.Group?
  {
    match exc
    case None =>
    case Some(e) =>
      if Accepts(h, e) {
        if e.Leaf? { WrappedLeaves(e); }
      } else if e.Group? {
        SplitConserves(e, Accepting(h));
      }
  }

  lemma WrappedLeaves(e: Exc)
    requires Wrapped([e]).Some?
    ensures Leaves(Wrapped([e]).value) == Leaves(e)
  {
    LeavesAllAppend([], Some(e));
    assert [] + OptionSeq(Some(e)) == [e];
  }

  /** A clause fails exactly on an inadmissible type, on a naked exception that it accepts but an
      ExceptionGroup cannot hold, and when an empty tuple meets a group. PEP 654 asks for the second
      case to be handled by a BaseExceptionGroup. */
  lemma MatchFailsExactly(exc: Option<Exc>, h: Handler)
    ensures ExceptionGroupMatch(exc, h) == TypeError <==>
      exc.Some? && (!AllValid(h)
        || (Accepts(h, exc.value) && exc.value.Leaf? && !exc.value.plain)
        || (exc.value.Group? && h == []))
  {
    if exc.Some? && exc.value.Leaf? {
      assert [exc.value][0] == exc.value;
    }
  }

  /** A naked KeyboardInterrupt under `except* KeyboardInterrupt` is such a failure. */
  lemma NakedBaseExceptionFails(id: nat, cls: nat)
    ensures ExceptionGroupMatch(Some(Leaf(id, cls, false)), [HandlerType(true, c => c == cls)]) == TypeError
  {
    var h := [HandlerType(true, c => c == cls)];
    assert h[0].accepts(cls);
    MatchFailsExactly(Some(Leaf(id, cls, false)), h);
  }

  // ---------- a list of clauses ----------

  datatype Handled = Handled(matches: seq<Option<Exc>>, rest: Option<Exc>) | Failed

  /** Each clause works on what the ones before it left. */
  method Handle(exc: Option<Exc>, handlers: seq<Handler>) returns (r: Handled)
    ensures r == HandleAll(exc, handlers)
  {
    var matches, rest := [], exc;
    for i := 0 to |handlers|
      invariant HandleAll(exc, handlers[..i]) == Handled(matches, rest)
    {
      assert handlers[..i + 1][..i] == handlers[..i];
      var m := ExceptionGroupMatch(rest, handlers[i]);
      if m == TypeError {
        FailureStays(exc, handlers, i + 1);
        return Failed;
      }
      matches := matches + [m.matching];
      rest := m.rest;
    }
    assert handlers[..|handlers|] == handlers;
    r := Handled(matches, rest);
  }

  function HandleAll(exc: Option<Exc>, handlers: seq<Handler>): Handled {
    if handlers == [] then Handled([], exc)
    else match HandleAll(exc, handlers[..|handlers| - 1])
      case Failed => Failed
      case Handled(matches, rest) =>
        match ExceptionGroupMatch(rest, handlers[|handlers| - 1])
        case TypeError => Failed
        case Matched(rest', matching) => Handled(matches + [matching], rest')
  }

  lemma {:induction false} FailureStays(exc: Option<Exc>, handlers: seq<Handler>, i: nat)
    requires i <= |handlers| && HandleAll(exc, handlers[..i]) == Failed
    ensures HandleAll(exc, handlers) == Failed
    decreases |handlers| - i
  {
    if i < |handlers| {
      assert handlers[..i + 1][..i] == handlers[..i];
      FailureStays(exc, handlers, i + 1);
    } else {
      assert handlers[..i] == handlers;
    }
  }

  function BagOf(matches: seq<Option<Exc>>): multiset<Exc> {
    if matches == [] then multiset{}
    else BagOf(matches[..|matches| - 1]) + multiset(LeavesOption(matches[|matches| - 1]))
  }

  /** Over any list of clauses no leaf is lost or handled twice. */
  lemma {:induction false} HandleConserves(exc: Option<Exc>, handlers: seq<Handler>)
    requires HandleAll(exc, handlers).Handled?
    ensures var r := HandleAll(exc, handlers);
      |r.matches| == |handlers| && BagOf(r.matches) + multiset(LeavesOption(r.rest)) == multiset(LeavesOption(exc))
  {
    if handlers != [] {
      var n := |handlers| - 1;
      HandleConserves(exc, handlers[..n]);
      var before := HandleAll(exc, handlers[..n]);
      MatchConserves(before.rest, handlers[n]);
      var m := ExceptionGroupMatch(before.rest, handlers[n]);
      assert (before.matches + [m.matching])[..n] == before.matches;
    }
  }
}
