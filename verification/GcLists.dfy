/** The generation lists of gc_state.rs under interleaving: tracking, untracking, promotion, freeze,
    unfreeze and the collector's scan as small steps of any number of threads, with the list locks
    between them. */
module GcLists {
  import opened Wrappers

  type Obj = nat
  type Thread = nat

  /** Lists 0, 1 and 2 are the generations; list 3 is the permanent one (GC_PERMANENT). */
  const PERMANENT: nat := 3
  /** The tag of an object that is on no list (GC_UNTRACKED). */
  const UNTRACKED: nat := 4

  /** Where a thread stands in the operation it performs. */
  datatype Pc =
    | Idle
    // track_object
    | TrStart(obj: Obj)
    | TrFlagged(obj: Obj)
    | TrLock(obj: Obj)
    | TrPush(obj: Obj)
    | TrRelease
    // untrack_object
    | UnRead(obj: Obj)
    | UnLock(obj: Obj, src: nat)
    | UnCheck(obj: Obj, src: nat)
    | UnRemoved(obj: Obj, src: nat)
    | UnCleared(obj: Obj, src: nat)
    | UnRelease(src: nat)
    | UnFailed(src: nat)
    // promote_survivors, one survivor
    | PrRead(obj: Obj, from: nat)
    | PrLockSrc(obj: Obj, from: nat, src: nat)
    | PrLockDst(obj: Obj, from: nat, src: nat)
    | PrCheck(obj: Obj, from: nat, src: nat)
    | PrRemoved(obj: Obj, from: nat, src: nat)
    | PrPushed(obj: Obj, from: nat, src: nat)
    | PrRelease(from: nat, src: nat)
    | PrFailed(from: nat, src: nat)
    // freeze
    | FrLock(src: nat)
    | FrLockPerm(src: nat)
    | FrLoop(src: nat)
    | FrPopped(src: nat, obj: Obj)
    | FrPushed(src: nat, obj: Obj)
    // unfreeze
    | UfLock
    | UfLockPerm
    | UfLoop
    | UfPopped(obj: Obj)
    | UfPushed(obj: Obj)
    // collect_inner, steps 1 to 5, under the read locks of the lists 0 to gen
    | CoLock(gen: nat, next: nat)
    | CoScan(gen: nat)
    | CoDrop(gen: nat, next: nat)
  {
    predicate Tracking() { TrStart? || TrFlagged? || TrLock? || TrPush? || TrRelease? }

    predicate Untracking() {
      UnRead? || UnLock? || UnCheck? || UnRemoved? || UnCleared? || UnRelease? || UnFailed?
    }

    predicate Promoting() {
      PrRead? || PrLockSrc? || PrLockDst? || PrCheck? || PrRemoved? || PrPushed? || PrRelease? || PrFailed?
    }

    predicate Freezing() { FrLock? || FrLockPerm? || FrLoop? || FrPopped? || FrPushed? }

    predicate Unfreezing() { UfLock? || UfLockPerm? || UfLoop? || UfPopped? || UfPushed? }

    predicate Collecting() { CoLock? || CoScan? || CoDrop? }

    /** The locks that a thread at this point holds. */
    predicate Holds(l: nat) {
      match this
      case TrPush(_) => l == 0
      case TrRelease => l == 0
      case UnCheck(_, src) => l == src
      case UnRemoved(_, src) => l == src
      case UnCleared(_, src) => l == src
      case UnRelease(src) => l == src
      case UnFailed(src) => l == src
      case PrLockDst(_, _, src) => l == src
      case PrCheck(_, from, src) => l == src || l == from + 1
      case PrRemoved(_, from, src) => l == src || l == from + 1
      case PrPushed(_, from, src) => l == src || l == from + 1
      case PrRelease(from, src) => l == src || l == from + 1
      case PrFailed(from, src) => l == src || l == from + 1
      case FrLockPerm(src) => l == src
      case FrLoop(src) => l == src || l == PERMANENT
      case FrPopped(src, _) => l == src || l == PERMANENT
      case FrPushed(src, _) => l == src || l == PERMANENT
      case UfLockPerm => l == 2
      case UfLoop => l == 2 || l == PERMANENT
      case UfPopped(_) => l == 2 || l == PERMANENT
      case UfPushed(_) => l == 2 || l == PERMANENT
      case CoLock(_, next) => l < next
      case CoScan(gen) => l <= gen
      case CoDrop(gen, next) => next <= l <= gen
      case _ => false
    }

    /** The lock that it waits for. */
    function Wants(): Option<nat> {
      match this
      case TrLock(_) => Some(0)
      case UnLock(_, src) => Some(src)
      case PrLockSrc(_, _, src) => Some(src)
      case PrLockDst(_, from, _) => Some(from + 1)
      case FrLock(src) => Some(src)
      case FrLockPerm(_) => Some(PERMANENT)
      case UfLock => Some(2)
      case UfLockPerm => Some(PERMANENT)
      case CoLock(_, next) => Some(next)
      case _ => None
    }

    /** The object that it has taken off a list, or not yet put on one, or not yet tagged. */
    function Moving(): Option<Obj> {
      match this
      case TrStart(o) => Some(o)
      case TrFlagged(o) => Some(o)
      case TrLock(o) => Some(o)
      case TrPush(o) => Some(o)
      case UnRemoved(o, _) => Some(o)
      case UnCleared(o, _) => Some(o)
      case PrRemoved(o, _, _) => Some(o)
      case PrPushed(o, _, _) => Some(o)
      case FrPopped(_, o) => Some(o)
      case FrPushed(_, o) => Some(o)
      case UfPopped(o) => Some(o)
      case UfPushed(o) => Some(o)
      case _ => None
    }
  }

  /** `known` are the objects whose tracking has completed at some time; only those are handed to
      the other operations. */
  datatype State = State(
    lists: seq<set<Obj>>,
    tags: map<Obj, nat>,
    tracked: set<Obj>,
    known: set<Obj>,
    threads: seq<Pc>)
  {
    function Tag(o: Obj): nat {
      if o in tags then tags[o] else UNTRACKED
    }

    ghost predicate Free(l: nat) {
      forall t | 0 <= t < |threads| :: !threads[t].Holds(l)
    }

    ghost predicate Unmoved(o: Obj) {
      forall t | 0 <= t < |threads| :: threads[t].Moving() != Some(o)
    }

    function Goto(t: Thread, pc: Pc): State
      requires t < |threads|
    {
      this.(threads := threads[t := pc])
    }

    function Take(l: nat, o: Obj): State
      requires l < |lists|
    {
      this.(lists := lists[l := lists[l] - {o}])
    }

    function Give(l: nat, o: Obj): State
      requires l < |lists|
    {
      this.(lists := lists[l := lists[l] + {o}])
    }

    function SetTag(o: Obj, g: nat): State {
      this.(tags := tags[o := g])
    }
  }

  ghost predicate OnNone(s: State, o: Obj) {
    forall l | 0 <= l < |s.lists| :: o !in s.lists[l]
  }

  ghost predicate OnOnly(s: State, o: Obj, l: nat) {
    forall k | 0 <= k < |s.lists| :: o in s.lists[k] <==> k == l
  }

  /** The lists and the flag agree with the tag. */
  ghost predicate Settled(s: State, o: Obj) {
    && (forall l | 0 <= l < |s.lists| :: o in s.lists[l] <==> s.Tag(o) == l)
    && (o in s.tracked <==> s.Tag(o) != UNTRACKED)
    && s.Tag(o) <= UNTRACKED
  }

  /** The operations that an idle thread may begin. */
  ghost predicate Begins(s: State, pc: Pc) {
    match pc
    case TrStart(o) => o !in s.known && o !in s.tags && s.Unmoved(o)
    case UnRead(o) => o in s.known
    case PrRead(o, from) => o in s.known && from < 2
    case FrLock(src) => src == 0
    case UfLock => true
    case CoLock(gen, next) => gen <= 2 && next == 0 && forall t | 0 <= t < |s.threads| :: !s.threads[t].Collecting()
    case _ => false
  }

  /** One step of thread t. */
  ghost predicate Step(s: State, t: Thread, s': State)
    requires t < |s.threads| && |s.lists| == 4
  {
    match s.threads[t]
    case Idle => exists pc :: Begins(s, pc) && s' == s.Goto(t, pc)

    case TrStart(o) => s' == s.(tracked := s.tracked + {o}).Goto(t, TrFlagged(o))
    case TrFlagged(o) => s' == s.SetTag(o, 0).Goto(t, TrLock(o))
    case TrLock(o) => s.Free(0) && s' == s.Goto(t, TrPush(o))
    case TrPush(o) => s' == s.Give(0, o).(known := s.known + {o}).Goto(t, TrRelease)
    case TrRelease => s' == s.Goto(t, Idle)

    case UnRead(o) => s' == s.Goto(t, if s.Tag(o) <= PERMANENT then UnLock(o, s.Tag(o)) else Idle)
    case UnLock(o, src) => s.Free(src) && s' == s.Goto(t, UnCheck(o, src))
    case UnCheck(o, src) =>
      if s.Tag(o) != src then s' == s.Goto(t, UnRead(o))
      else if src < 4 && o in s.lists[src] then s' == s.Take(src, o).Goto(t, UnRemoved(o, src))
      else s' == s.Goto(t, UnFailed(src))
    case UnRemoved(o, src) => s' == s.(tracked := s.tracked - {o}).Goto(t, UnCleared(o, src))
    case UnCleared(o, src) => s' == s.SetTag(o, UNTRACKED).Goto(t, UnRelease(src))
    case UnRelease(_) => s' == s.Goto(t, Idle)
    case UnFailed(_) => s' == s.Goto(t, Idle)

    case PrRead(o, from) => s' == s.Goto(t, if s.Tag(o) <= from then PrLockSrc(o, from, s.Tag(o)) else Idle)
    case PrLockSrc(o, from, src) => s.Free(src) && s' == s.Goto(t, PrLockDst(o, from, src))
    case PrLockDst(o, from, src) => s.Free(from + 1) && s' == s.Goto(t, PrCheck(o, from, src))
    case PrCheck(o, from, src) =>
      if s.Tag(o) != src || o !in s.tracked then s' == s.Goto(t, PrRelease(from, src))
      else if src < 4 && o in s.lists[src] then s' == s.Take(src, o).Goto(t, PrRemoved(o, from, src))
      else s' == s.Goto(t, PrFailed(from, src))
    case PrRemoved(o, from, src) => from < 3 && s' == s.Give(from + 1, o).Goto(t, PrPushed(o, from, src))
    case PrPushed(o, from, src) => s' == s.SetTag(o, from + 1).Goto(t, PrRelease(from, src))
    case PrRelease(_, _) => s' == s.Goto(t, Idle)
    case PrFailed(_, _) => s' == s.Goto(t, Idle)

    case FrLock(src) => s.Free(src) && s' == s.Goto(t, FrLockPerm(src))
    case FrLockPerm(src) => s.Free(PERMANENT) && s' == s.Goto(t, FrLoop(src))
    case FrLoop(src) =>
      src < 4 &&
      if s.lists[src] == {} then s' == s.Goto(t, if src < 2 then FrLock(src + 1) else Idle)
      else exists o | o in s.lists[src] :: s' == s.Take(src, o).Goto(t, FrPopped(src, o))
    case FrPopped(src, o) => s' == s.Give(PERMANENT, o).Goto(t, FrPushed(src, o))
    case FrPushed(src, o) => s' == s.SetTag(o, PERMANENT).Goto(t, FrLoop(src))

    case UfLock => s.Free(2) && s' == s.Goto(t, UfLockPerm)
    case UfLockPerm => s.Free(PERMANENT) && s' == s.Goto(t, UfLoop)
    case UfLoop =>
      if s.lists[PERMANENT] == {} then s' == s.Goto(t, Idle)
      else exists o | o in s.lists[PERMANENT] :: s' == s.Take(PERMANENT, o).Goto(t, UfPopped(o))
    case UfPopped(o) => s' == s.Give(2, o).Goto(t, UfPushed(o))
    case UfPushed(o) => s' == s.SetTag(o, 2).Goto(t, UfLoop)

    case CoLock(gen, next) =>
      s.Free(next) && s' == s.Goto(t, if next < gen then CoLock(gen, next + 1) else CoScan(gen))
    case CoScan(gen) => s' == s.Goto(t, CoDrop(gen, 0))
    case CoDrop(gen, next) => s' == s.Goto(t, if next < gen then CoDrop(gen, next + 1) else Idle)
  }

  /** What holds at each point of each operation. */
  ghost predicate PcOk(s: State, pc: Pc)
    requires |s.lists| == 4
  {
    match pc
    case Idle => true
    case TrStart(o) => o !in s.known && s.Tag(o) == UNTRACKED
    case TrFlagged(o) => o !in s.known && s.Tag(o) == UNTRACKED && o in s.tracked
    case TrLock(o) => o !in s.known && s.Tag(o) == 0 && o in s.tracked
    case TrPush(o) => o !in s.known && s.Tag(o) == 0 && o in s.tracked
    case TrRelease => true
    case UnRead(o) => o in s.known
    case UnLock(o, src) => o in s.known && src <= PERMANENT
    case UnCheck(o, src) => o in s.known && src <= PERMANENT
    case UnRemoved(o, src) => o in s.known && src <= PERMANENT && s.Tag(o) == src && OnNone(s, o)
    case UnCleared(o, src) => o in s.known && src <= PERMANENT && s.Tag(o) == src && OnNone(s, o) && o !in s.tracked
    case UnRelease(src) => src <= PERMANENT
    case UnFailed(_) => false
    case PrRead(o, from) => o in s.known && from < 2
    case PrLockSrc(o, from, src) => o in s.known && src <= from < 2
    case PrLockDst(o, from, src) => o in s.known && src <= from < 2
    case PrCheck(o, from, src) => o in s.known && src <= from < 2
    case PrRemoved(o, from, src) =>
      o in s.known && src <= from < 2 && s.Tag(o) == src && OnNone(s, o) && o in s.tracked
    case PrPushed(o, from, src) =>
      o in s.known && src <= from < 2 && s.Tag(o) == src && OnOnly(s, o, from + 1) && o in s.tracked
    case PrRelease(from, src) => src <= from < 2
    case PrFailed(_, _) => false
    case FrLock(src) => src <= 2
    case FrLockPerm(src) => src <= 2
    case FrLoop(src) => src <= 2
    case FrPopped(src, o) => o in s.known && src <= 2 && s.Tag(o) == src && OnNone(s, o) && o in s.tracked
    case FrPushed(src, o) => o in s.known && src <= 2 && s.Tag(o) == src && OnOnly(s, o, PERMANENT) && o in s.tracked
    case UfLock => true
    case UfLockPerm => true
    case UfLoop => true
    case UfPopped(o) => o in s.known && s.Tag(o) == PERMANENT && OnNone(s, o) && o in s.tracked
    case UfPushed(o) => o in s.known && s.Tag(o) == PERMANENT && OnOnly(s, o, 2) && o in s.tracked
    case CoLock(gen, next) => next <= gen <= 2
    case CoScan(gen) => gen <= 2
    case CoDrop(gen, next) => next <= gen <= 2
  }

  ghost predicate Exclusive(s: State) {
    forall t, u, l: nat | 0 <= t < u < |s.threads| && s.threads[t].Holds(l) :: !s.threads[u].Holds(l)
  }

  /** No object is moved by two threads. */
  ghost predicate OneMover(s: State) {
    forall t, u | 0 <= t < u < |s.threads| && s.threads[t].Moving().Some? ::
      s.threads[t].Moving() != s.threads[u].Moving()
  }

  ghost predicate AllSettled(s: State) {
    forall o | o in s.known && s.Unmoved(o) :: Settled(s, o)
  }

  /** Objects not yet known are on no list, and tagged only while being tracked. */
  ghost predicate FreshOk(s: State) {
    && (forall o, l | 0 <= l < |s.lists| && o in s.lists[l] :: o in s.known)
    && (forall o | o in s.tags && s.Unmoved(o) :: o in s.known)
    && (forall o | o in s.tracked && s.Unmoved(o) :: o in s.known)
  }

  ghost predicate Inv(s: State) {
    && |s.lists| == 4
    && (forall t | 0 <= t < |s.threads| :: PcOk(s, s.threads[t]))
    && Exclusive(s)
    && OneMover(s)
    && AllSettled(s)
    && FreshOk(s)
  }

  ghost predicate Initial(s: State) {
    && s.lists == [{}, {}, {}, {}] && s.tags == map[] && s.tracked == {} && s.known == {}
    && forall t | 0 <= t < |s.threads| :: s.threads[t] == Idle
  }

  lemma InitialInv(s: State)
    requires Initial(s)
    ensures Inv(s)
  {}

  // ---------- every step keeps the invariant ----------

  /** The two states agree about every object but o. */
  ghost predicate AgreeExcept(s: State, s': State, o: Obj) {
    && |s.lists| == 4 == |s'.lists|
    && forall p: Obj | p != o ::
      && (p in s.tags <==> p in s'.tags) && s.Tag(p) == s'.Tag(p)
      && (p in s.tracked <==> p in s'.tracked)
      && (p in s.known <==> p in s'.known)
      && forall l | 0 <= l < 4 :: p in s.lists[l] <==> p in s'.lists[l]
  }

  /** What holds at a point survives changes to an object that the thread is not moving. */
  lemma Framed(s: State, s': State, pc: Pc, o: Obj)
    requires AgreeExcept(s, s', o) && s.known <= s'.known
    requires PcOk(s, pc) && pc.Moving() != Some(o)
    ensures PcOk(s', pc)
  {}

  lemma UnmovedAfterGoto(s: State, t: Thread, pc: Pc, o: Obj)
    requires t < |s.threads| && pc.Moving() == s.threads[t].Moving()
    ensures s.Goto(t, pc).Unmoved(o) <==> s.Unmoved(o)
  {
    var s' := s.Goto(t, pc);
    assert forall u | 0 <= u < |s.threads| :: s'.threads[u].Moving() == s.threads[u].Moving();
  }

  lemma ExclusiveAfterGoto(s: State, t: Thread, pc: Pc)
    requires Exclusive(s) && t < |s.threads|
    requires forall l: nat | pc.Holds(l) :: s.threads[t].Holds(l) || s.Free(l)
    ensures Exclusive(s.Goto(t, pc))
  {}

  /** A step that changes no object, and takes only locks that are free. */
  lemma GotoKeeps(s: State, t: Thread, pc: Pc)
    requires Inv(s) && t < |s.threads| && PcOk(s, pc)
    requires forall l: nat | pc.Holds(l) :: s.threads[t].Holds(l) || s.Free(l)
    requires pc.Moving() == s.threads[t].Moving()
    ensures Inv(s.Goto(t, pc))
  {
    var s' := s.Goto(t, pc);
    ExclusiveAfterGoto(s, t, pc);
    forall o: Obj ensures s'.Unmoved(o) <==> s.Unmoved(o) { UnmovedAfterGoto(s, t, pc, o); }
    forall o | o in s'.known && s'.Unmoved(o) ensures Settled(s', o) { assert Settled(s, o); }
    forall u | 0 <= u < |s'.threads| ensures PcOk(s', s'.threads[u]) {
      PcIgnoresThreads(s, t, pc, s'.threads[u]);
    }
  }

  lemma PcIgnoresThreads(s: State, t: Thread, pc: Pc, p: Pc)
    requires |s.lists| == 4 && t < |s.threads|
    ensures PcOk(s.Goto(t, pc), p) == PcOk(s, p)
  {}

  /** A step that changes one object, which no other thread is moving. */
  lemma MoveKeeps(s: State, t: Thread, pc: Pc, o: Obj, s': State)
    requires Inv(s) && t < |s.threads| && s'.threads == s.threads[t := pc]
    requires AgreeExcept(s, s', o) && s.known <= s'.known
    requires PcOk(s', pc)
    requires forall l: nat | pc.Holds(l) :: s.threads[t].Holds(l)
    requires forall u | 0 <= u < |s.threads| && u != t :: s.threads[u].Moving() != Some(o)
    requires s.threads[t].Moving() == None || s.threads[t].Moving() == Some(o)
    requires pc.Moving() == Some(o) || (pc.Moving() == None && o in s'.known && Settled(s', o))
    requires forall l | 0 <= l < 4 && o in s'.lists[l] :: o in s'.known
    ensures Inv(s')
  {
    forall u | 0 <= u < |s'.threads| ensures PcOk(s', s'.threads[u]) {
      if u != t { Framed(s, s', s.threads[u], o); }
    }
    assert forall u | 0 <= u < |s.threads| && u != t :: s'.threads[u] == s.threads[u];
    forall p: Obj | p != o && s'.Unmoved(p) ensures s.Unmoved(p) {
      assert forall u | 0 <= u < |s.threads| && u != t :: s'.threads[u] == s.threads[u];
    }
    assert s'.threads[t] == pc;
    MoveSettles(s, t, pc, o, s');
  }

  lemma MoveSettles(s: State, t: Thread, pc: Pc, o: Obj, s': State)
    requires Inv(s) && t < |s.threads| && s'.threads == s.threads[t := pc]
    requires AgreeExcept(s, s', o)
    requires pc.Moving() == Some(o) || (pc.Moving() == None && o in s'.known && Settled(s', o))
    requires forall p: Obj | p != o && s'.Unmoved(p) :: s.Unmoved(p)
    requires forall l | 0 <= l < 4 && o in s'.lists[l] :: o in s'.known
    ensures AllSettled(s') && FreshOk(s')
  {
    if pc.Moving() == Some(o) {
      assert s'.threads[t].Moving() == Some(o);
      assert !s'.Unmoved(o);
    }
    forall p | p in s'.known && s'.Unmoved(p) ensures Settled(s', p) {
      if p != o { assert Settled(s, p); }
    }
  }

  /** A known object is moved only by a thread that holds the lock its tag names. */
  lemma MoverHoldsTag(s: State, u: Thread, o: Obj)
    requires Inv(s) && u < |s.threads| && o in s.known && s.threads[u].Moving() == Some(o)
    ensures s.threads[u].Holds(s.Tag(o))
  {
    assert PcOk(s, s.threads[u]);
  }

  lemma HolderOwns(s: State, t: Thread, o: Obj)
    requires Inv(s) && t < |s.threads| && o in s.known
    requires s.threads[t].Holds(s.Tag(o)) && s.threads[t].Moving() == None
    ensures s.Unmoved(o) && Settled(s, o)
  {
    forall u | 0 <= u < |s.threads| ensures s.threads[u].Moving() != Some(o) {
      if s.threads[u].Moving() == Some(o) { MoverHoldsTag(s, u, o); }
    }
  }

  /** Taking a member off a locked list. */
  lemma TakeKeeps(s: State, t: Thread, l: nat, o: Obj, pc: Pc)
    requires Inv(s) && t < |s.threads| && l < 4 && o in s.lists[l]
    requires s.threads[t].Holds(l) && s.threads[t].Moving() == None
    requires pc.Moving() == Some(o) && forall k: nat | pc.Holds(k) :: s.threads[t].Holds(k)
    requires OnNone(s.Take(l, o), o) && s.Tag(o) == l && o in s.tracked ==> PcOk(s.Take(l, o).Goto(t, pc), pc)
    ensures Inv(s.Take(l, o).Goto(t, pc))
  {
    ListMember(s, t, l, o);
    MoveKeeps(s, t, pc, o, s.Take(l, o).Goto(t, pc));
  }

  /** Putting the object being moved on a list. */
  lemma GiveKeeps(s: State, t: Thread, l: nat, o: Obj, pc: Pc)
    requires Inv(s) && t < |s.threads| && l < 4 && o in s.known && s.threads[t].Moving() == Some(o)
    requires pc.Moving() == Some(o) && forall k: nat | pc.Holds(k) :: s.threads[t].Holds(k)
    requires PcOk(s.Give(l, o).Goto(t, pc), pc)
    ensures Inv(s.Give(l, o).Goto(t, pc))
  {
    MoveKeeps(s, t, pc, o, s.Give(l, o).Goto(t, pc));
  }

  /** The tag is written last and settles the object. */
  lemma SetTagKeeps(s: State, t: Thread, o: Obj, g: nat, pc: Pc)
    requires Inv(s) && t < |s.threads| && o in s.known && s.threads[t].Moving() == Some(o)
    requires pc.Moving() == None && forall k: nat | pc.Holds(k) :: s.threads[t].Holds(k)
    requires Settled(s.SetTag(o, g), o) && PcOk(s, pc)
    ensures Inv(s.SetTag(o, g).Goto(t, pc))
  {
    Framed(s, s.SetTag(o, g).Goto(t, pc), pc, o);
    MoveKeeps(s, t, pc, o, s.SetTag(o, g).Goto(t, pc));
  }

  lemma TrackStep(s: State, t: Thread, s': State)
    requires Inv(s) && t < |s.threads| && Step(s, t, s') && s.threads[t].Tracking()
    ensures Inv(s')
  {
    var pc := s'.threads[t];
    assert PcOk(s, s.threads[t]);
    if s.threads[t].TrLock? || s.threads[t].TrRelease? {
      GotoKeeps(s, t, pc);
    } else {
      MoveKeeps(s, t, pc, s.threads[t].obj, s');
    }
  }

  lemma UntrackStep(s: State, t: Thread, s': State)
    requires Inv(s) && t < |s.threads| && Step(s, t, s') && s.threads[t].Untracking()
    ensures Inv(s')
  {
    hide Inv, Step;
    NeverFailed(s, t);
    var pc := s.threads[t];
    if pc.UnCheck? { UntrackCheck(s, t, pc.obj, pc.src, s'); }
    else if pc.UnRemoved? { UntrackClear(s, t, pc.obj, pc.src, s'); }
    else if pc.UnCleared? { UntrackTag(s, t, pc.obj, pc.src, s'); }
    else { UntrackLock(s, t, s'); }
  }

  /** The branches of a failed removal are never taken. */
  lemma NeverFailed(s: State, t: Thread)
    requires Inv(s) && t < |s.threads|
    ensures !s.threads[t].UnFailed? && !s.threads[t].PrFailed?
  {
    assert PcOk(s, s.threads[t]);
  }

  lemma UntrackLock(s: State, t: Thread, s': State)
    requires Inv(s) && t < |s.threads| && Step(s, t, s')
    requires s.threads[t].UnRead? || s.threads[t].UnLock? || s.threads[t].UnRelease?
    ensures Inv(s')
  {
    assert PcOk(s, s.threads[t]);
    GotoKeeps(s, t, s'.threads[t]);
  }

  lemma UntrackClear(s: State, t: Thread, o: Obj, src: nat, s': State)
    requires Inv(s) && t < |s.threads| && Step(s, t, s') && s.threads[t] == UnRemoved(o, src)
    ensures Inv(s')
  {
    assert PcOk(s, s.threads[t]);
    MoveKeeps(s, t, UnCleared(o, src), o, s');
  }

  lemma UntrackTag(s: State, t: Thread, o: Obj, src: nat, s': State)
    requires Inv(s) && t < |s.threads| && Step(s, t, s') && s.threads[t] == UnCleared(o, src)
    ensures Inv(s')
  {
    assert PcOk(s, s.threads[t]);
    SetTagKeeps(s, t, o, UNTRACKED, UnRelease(src));
  }

  lemma UntrackCheck(s: State, t: Thread, o: Obj, src: nat, s': State)
    requires Inv(s) && t < |s.threads| && Step(s, t, s') && s.threads[t] == UnCheck(o, src)
    ensures Inv(s')
  {
    assert PcOk(s, s.threads[t]);
    if s.Tag(o) != src {
      GotoKeeps(s, t, UnRead(o));
    } else {
      HolderOwns(s, t, o);
      TakeKeeps(s, t, src, o, UnRemoved(o, src));
    }
  }

  lemma PromoteStep(s: State, t: Thread, s': State)
    requires Inv(s) && t < |s.threads| && Step(s, t, s') && s.threads[t].Promoting()
    ensures Inv(s')
  {
    hide Inv, Step;
    NeverFailed(s, t);
    var pc := s.threads[t];
    if pc.PrCheck? { PromoteCheck(s, t, pc.obj, pc.from, pc.src, s'); }
    else if pc.PrRemoved? { PromoteGive(s, t, pc.obj, pc.from, pc.src, s'); }
    else if pc.PrPushed? { PromoteTag(s, t, pc.obj, pc.from, pc.src, s'); }
    else { PromoteLock(s, t, s'); }
  }

  lemma PromoteLock(s: State, t: Thread, s': State)
    requires Inv(s) && t < |s.threads| && Step(s, t, s')
    requires s.threads[t].PrRead? || s.threads[t].PrLockSrc? || s.threads[t].PrLockDst? || s.threads[t].PrRelease?
    ensures Inv(s')
  {
    assert PcOk(s, s.threads[t]);
    GotoKeeps(s, t, s'.threads[t]);
  }

  lemma PromoteGive(s: State, t: Thread, o: Obj, from: nat, src: nat, s': State)
    requires Inv(s) && t < |s.threads| && Step(s, t, s') && s.threads[t] == PrRemoved(o, from, src)
    ensures Inv(s')
  {
    assert PcOk(s, s.threads[t]);
    GiveKeeps(s, t, from + 1, o, PrPushed(o, from, src));
  }

  lemma PromoteTag(s: State, t: Thread, o: Obj, from: nat, src: nat, s': State)
    requires Inv(s) && t < |s.threads| && Step(s, t, s') && s.threads[t] == PrPushed(o, from, src)
    ensures Inv(s')
  {
    assert PcOk(s, s.threads[t]);
    SetTagKeeps(s, t, o, from + 1, PrRelease(from, src));
  }

  lemma PromoteCheck(s: State, t: Thread, o: Obj, from: nat, src: nat, s': State)
    requires Inv(s) && t < |s.threads| && Step(s, t, s') && s.threads[t] == PrCheck(o, from, src)
    ensures Inv(s')
  {
    assert PcOk(s, s.threads[t]);
    if s.Tag(o) != src || o !in s.tracked {
      GotoKeeps(s, t, PrRelease(from, src));
    } else {
      HolderOwns(s, t, o);
      TakeKeeps(s, t, src, o, PrRemoved(o, from, src));
    }
  }

  lemma FreezeStep(s: State, t: Thread, s': State)
    requires Inv(s) && t < |s.threads| && Step(s, t, s') && s.threads[t].Freezing()
    ensures Inv(s')
  {
    hide Inv, Step;
    match s.threads[t]
    case FrLock(_) => FreezeLock(s, t, s');
    case FrLockPerm(_) => FreezeLock(s, t, s');
    case FrLoop(src) => FreezeLoop(s, t, src, s');
    case FrPopped(src, o) => FreezeGive(s, t, src, o, s');
    case FrPushed(src, o) => FreezeTag(s, t, src, o, s');
  }

  lemma FreezeLock(s: State, t: Thread, s': State)
    requires Inv(s) && t < |s.threads| && Step(s, t, s') && (s.threads[t].FrLock? || s.threads[t].FrLockPerm?)
    ensures Inv(s')
  {
    assert PcOk(s, s.threads[t]);
    GotoKeeps(s, t, s'.threads[t]);
  }

  lemma FreezeLoop(s: State, t: Thread, src: nat, s': State)
    requires Inv(s) && t < |s.threads| && Step(s, t, s') && s.threads[t] == FrLoop(src)
    ensures Inv(s')
  {
    assert PcOk(s, s.threads[t]);
    if s.lists[src] == {} {
      GotoKeeps(s, t, s'.threads[t]);
    } else {
      var o :| o in s.lists[src] && s' == s.Take(src, o).Goto(t, FrPopped(src, o));
      FreezeTake(s, t, src, o);
    }
  }

  lemma FreezeTake(s: State, t: Thread, src: nat, o: Obj)
    requires Inv(s) && t < |s.threads| && s.threads[t] == FrLoop(src) && src < 4 && o in s.lists[src]
    ensures Inv(s.Take(src, o).Goto(t, FrPopped(src, o)))
  {
    assert PcOk(s, s.threads[t]);
    ListMember(s, t, src, o);
    TakeKeeps(s, t, src, o, FrPopped(src, o));
  }

  lemma FreezeGive(s: State, t: Thread, src: nat, o: Obj, s': State)
    requires Inv(s) && t < |s.threads| && Step(s, t, s') && s.threads[t] == FrPopped(src, o)
    ensures Inv(s')
  {
    assert PcOk(s, s.threads[t]);
    GiveKeeps(s, t, PERMANENT, o, FrPushed(src, o));
  }

  lemma FreezeTag(s: State, t: Thread, src: nat, o: Obj, s': State)
    requires Inv(s) && t < |s.threads| && Step(s, t, s') && s.threads[t] == FrPushed(src, o)
    ensures Inv(s')
  {
    assert PcOk(s, s.threads[t]);
    SetTagKeeps(s, t, o, PERMANENT, FrLoop(src));
  }

  lemma UnfreezeStep(s: State, t: Thread, s': State)
    requires Inv(s) && t < |s.threads| && Step(s, t, s') && s.threads[t].Unfreezing()
    ensures Inv(s')
  {
    hide Inv, Step;
    match s.threads[t]
    case UfLock => UnfreezeLock(s, t, s');
    case UfLockPerm => UnfreezeLock(s, t, s');
    case UfLoop => UnfreezeLoop(s, t, s');
    case UfPopped(o) => UnfreezeGive(s, t, o, s');
    case UfPushed(o) => UnfreezeTag(s, t, o, s');
  }

  lemma UnfreezeLock(s: State, t: Thread, s': State)
    requires Inv(s) && t < |s.threads| && Step(s, t, s') && (s.threads[t].UfLock? || s.threads[t].UfLockPerm?)
    ensures Inv(s')
  {
    GotoKeeps(s, t, s'.threads[t]);
  }

  lemma UnfreezeLoop(s: State, t: Thread, s': State)
    requires Inv(s) && t < |s.threads| && Step(s, t, s') && s.threads[t] == UfLoop
    ensures Inv(s')
  {
    if s.lists[PERMANENT] == {} {
      GotoKeeps(s, t, Idle);
    } else {
      var o :| o in s.lists[PERMANENT] && s' == s.Take(PERMANENT, o).Goto(t, UfPopped(o));
      UnfreezeTake(s, t, o);
    }
  }

  lemma UnfreezeTake(s: State, t: Thread, o: Obj)
    requires Inv(s) && t < |s.threads| && s.threads[t] == UfLoop && o in s.lists[PERMANENT]
    ensures Inv(s.Take(PERMANENT, o).Goto(t, UfPopped(o)))
  {
    ListMember(s, t, PERMANENT, o);
    TakeKeeps(s, t, PERMANENT, o, UfPopped(o));
  }

  lemma UnfreezeGive(s: State, t: Thread, o: Obj, s': State)
    requires Inv(s) && t < |s.threads| && Step(s, t, s') && s.threads[t] == UfPopped(o)
    ensures Inv(s')
  {
    assert PcOk(s, s.threads[t]);
    GiveKeeps(s, t, 2, o, UfPushed(o));
  }

  lemma UnfreezeTag(s: State, t: Thread, o: Obj, s': State)
    requires Inv(s) && t < |s.threads| && Step(s, t, s') && s.threads[t] == UfPushed(o)
    ensures Inv(s')
  {
    assert PcOk(s, s.threads[t]);
    SetTagKeeps(s, t, o, 2, UfLoop);
  }

  lemma CollectStep(s: State, t: Thread, s': State)
    requires Inv(s) && t < |s.threads| && Step(s, t, s') && s.threads[t].Collecting()
    ensures Inv(s')
  {
    assert PcOk(s, s.threads[t]);
    GotoKeeps(s, t, s'.threads[t]);
  }

  /** An object on a list is being moved only by a thread that holds the lock of the list. */
  lemma MoverHoldsList(s: State, u: Thread, l: nat, o: Obj)
    requires Inv(s) && u < |s.threads| && l < 4 && o in s.lists[l] && s.threads[u].Moving() == Some(o)
    ensures s.threads[u].Holds(l)
  {
    assert PcOk(s, s.threads[u]);
  }

  /** No thread holds the lock of the list and moves an object. */
  ghost predicate Quiet(s: State, l: nat) {
    forall t | 0 <= t < |s.threads| && s.threads[t].Holds(l) :: s.threads[t].Moving() == None
  }

  /** The members of such a list are settled: their flag is set and their tag names the list. */
  lemma QuietMember(s: State, l: nat, o: Obj)
    requires Inv(s) && l < 4 && Quiet(s, l) && o in s.lists[l]
    ensures s.Unmoved(o) && Settled(s, o) && s.Tag(o) == l && o in s.tracked
  {
    forall u | 0 <= u < |s.threads| ensures s.threads[u].Moving() != Some(o) {
      if s.threads[u].Moving() == Some(o) { MoverHoldsList(s, u, l, o); }
    }
  }

  /** The holder of a list's lock sees only settled members. */
  lemma ListMember(s: State, t: Thread, l: nat, o: Obj)
    requires Inv(s) && t < |s.threads| && l < 4 && o in s.lists[l]
    requires s.threads[t].Holds(l) && s.threads[t].Moving() == None
    ensures s.Unmoved(o) && Settled(s, o) && s.Tag(o) == l
  {
    QuietMember(s, l, o);
  }

  lemma BeginStep(s: State, t: Thread, s': State)
    requires Inv(s) && t < |s.threads| && Step(s, t, s') && s.threads[t] == Idle
    ensures Inv(s')
  {
    var pc :| Begins(s, pc) && s' == s.Goto(t, pc);
    if pc.TrStart? { MoveKeeps(s, t, pc, pc.obj, s'); } else { GotoKeeps(s, t, pc); }
  }

  lemma StepKeepsInv(s: State, t: Thread, s': State)
    requires Inv(s) && t < |s.threads| && Step(s, t, s')
    ensures Inv(s')
  {
    hide Inv, Step;
    if s.threads[t] == Idle { BeginStep(s, t, s'); }
    else if s.threads[t].Tracking() { TrackStep(s, t, s'); }
    else if s.threads[t].Untracking() { UntrackStep(s, t, s'); }
    else if s.threads[t].Promoting() { PromoteStep(s, t, s'); }
    else if s.threads[t].Freezing() { FreezeStep(s, t, s'); }
    else if s.threads[t].Unfreezing() { UnfreezeStep(s, t, s'); }
    else { CollectStep(s, t, s'); }
  }

  // ---------- runs ----------

  ghost predicate Execution(run: seq<State>) {
    && run != []
    && Initial(run[0])
    && forall i | 0 <= i < |run| - 1 :: SomeStep(run[i], run[i + 1])
  }

  ghost predicate SomeStep(s: State, s': State) {
    |s.lists| == 4 && exists t: Thread :: t < |s.threads| && Step(s, t, s')
  }

  lemma {:induction false} ExecutionInv(run: seq<State>, i: nat)
    requires Execution(run) && i < |run|
    ensures Inv(run[i])
  {
    if i == 0 {
      InitialInv(run[0]);
    } else {
      ExecutionInv(run, i - 1);
      assert SomeStep(run[i - 1], run[i - 1 + 1]);
      var t: Thread :| t < |run[i - 1].threads| && Step(run[i - 1], t, run[i]);
      StepKeepsInv(run[i - 1], t, run[i]);
    }
  }

  ghost predicate OnBoth(s: State, o: Obj, k: nat, l: nat)
    requires |s.lists| == 4 && k < 4 && l < 4
  {
    o in s.lists[k] && o in s.lists[l]
  }

  /** In every interleaving: a completely tracked object is on a list whose lock is free exactly when
      its tag names that list, and every object there has its flag set; no object is ever on two lists;
      and neither untracking nor promotion ever fails to find an object on the list its tag names. */
  lemma ListsAgreeWithTags(run: seq<State>, i: nat)
    requires Execution(run) && i < |run|
    ensures |run[i].lists| == 4
    ensures forall o, l | o in run[i].known && 0 <= l < 4 && run[i].Free(l) ::
      o in run[i].lists[l] <==> run[i].Tag(o) == l
    ensures forall o, l | 0 <= l < 4 && run[i].Free(l) && o in run[i].lists[l] :: o in run[i].tracked
    ensures forall o, k, l | 0 <= k < l < 4 :: !OnBoth(run[i], o, k, l)
    ensures forall t | 0 <= t < |run[i].threads| :: !run[i].threads[t].UnFailed? && !run[i].threads[t].PrFailed?
  {
    ExecutionInv(run, i);
    var s := run[i];
    forall o, l | o in s.known && 0 <= l < 4 && s.Free(l) ensures o in s.lists[l] <==> s.Tag(o) == l {
      FreeListAgrees(s, o, l);
    }
    forall o, l | 0 <= l < 4 && s.Free(l) && o in s.lists[l] ensures o in s.tracked {
      QuietMember(s, l, o);
    }
    forall o, k, l | 0 <= k < l < 4 ensures !OnBoth(s, o, k, l) {
      OneList(s, o, k, l);
    }
    forall t | 0 <= t < |s.threads| ensures !s.threads[t].UnFailed? && !s.threads[t].PrFailed? {
      assert PcOk(s, s.threads[t]);
    }
  }

  lemma FreeListAgrees(s: State, o: Obj, l: nat)
    requires Inv(s) && o in s.known && l < 4 && s.Free(l)
    ensures o in s.lists[l] <==> s.Tag(o) == l
  {
    if !s.Unmoved(o) {
      var u :| 0 <= u < |s.threads| && s.threads[u].Moving() == Some(o);
      assert PcOk(s, s.threads[u]);
    }
  }

  lemma OneList(s: State, o: Obj, k: nat, l: nat)
    requires Inv(s) && k < l < 4
    ensures !OnBoth(s, o, k, l)
  {
    if !s.Unmoved(o) {
      var u :| 0 <= u < |s.threads| && s.threads[u].Moving() == Some(o);
      assert PcOk(s, s.threads[u]);
    }
  }

  // ---------- what the operations achieve ----------

  /** The object is tracked on that list and no other, and its tag says so. */
  ghost predicate Placed(s: State, o: Obj, l: nat) {
    && o in s.known && o in s.tracked && o in s.tags && s.tags[o] == l
    && forall k | 0 <= k < |s.lists| :: o in s.lists[k] <==> k == l
  }

  /** The step that ends the move of an object leaves it where the operation promises: tracked objects
      on list 0, survivors on the list behind that of the collection, frozen objects on list 3, unfrozen
      ones on list 2, and untracked ones on none. */
  lemma MoveEnds(s: State, t: Thread, s': State, o: Obj)
    requires Inv(s) && t < |s.threads| && Step(s, t, s')
    ensures s.threads[t] == TrPush(o) ==> Placed(s', o, 0)
    ensures s.threads[t].PrPushed? && s.threads[t].obj == o ==> Placed(s', o, s.threads[t].from + 1)
    ensures s.threads[t].FrPushed? && s.threads[t].obj == o ==> Placed(s', o, 3)
    ensures s.threads[t] == UfPushed(o) ==> Placed(s', o, 2)
    ensures s.threads[t].UnCleared? && s.threads[t].obj == o ==>
      s'.Tag(o) == 4 && o !in s'.tracked && forall k | 0 <= k < |s'.lists| :: o !in s'.lists[k]
  {
    assert PcOk(s, s.threads[t]);
  }

  /** A survivor that is still where its tag was read is moved; one that another thread has moved or
      untracked meanwhile is left alone. */
  lemma PromotionDecides(s: State, t: Thread, s': State, o: Obj, from: nat, src: nat)
    requires Inv(s) && t < |s.threads| && Step(s, t, s') && s.threads[t] == PrCheck(o, from, src)
    ensures s'.threads[t] == if Placed(s, o, src) then PrRemoved(o, from, src) else PrRelease(from, src)
  {
    assert PcOk(s, s.threads[t]);
    if s.Tag(o) == src { HolderOwns(s, t, o); }
  }

  /** An object to be untracked is removed if it is still there; otherwise its tag is read again. */
  lemma UntrackingDecides(s: State, t: Thread, s': State, o: Obj, src: nat)
    requires Inv(s) && t < |s.threads| && Step(s, t, s') && s.threads[t] == UnCheck(o, src)
    ensures s'.threads[t] == if Placed(s, o, src) then UnRemoved(o, src) else UnRead(o)
  {
    assert PcOk(s, s.threads[t]);
    if s.Tag(o) == src { HolderOwns(s, t, o); }
  }

  /** Freezing goes on to the next list, and ends behind list 2, only when the list it drains is empty;
      unfreezing ends only when the permanent list is. */
  lemma DrainsEnd(s: State, t: Thread, s': State)
    requires |s.lists| == 4 && t < |s.threads| && Step(s, t, s')
    ensures s.threads[t].FrLoop? && s'.threads[t].FrLock? ==>
      s.lists[s.threads[t].src] == {} && s'.threads[t].src == s.threads[t].src + 1
    ensures s.threads[t].FrLoop? && s'.threads[t] == Idle ==> s.lists[s.threads[t].src] == {} && s.threads[t].src >= 2
    ensures s.threads[t] == UfLoop && s'.threads[t] == Idle ==> s.lists[3] == {}
  {}

  // ---------- the collector's scan ----------

  /** From state i to state j thread t is in the scan of the lists 0 to gen. */
  ghost predicate Scanning(run: seq<State>, i: nat, j: nat, t: Thread, gen: nat) {
    && i <= j < |run|
    && forall k | i <= k <= j :: t < |run[k].threads| && run[k].threads[t] == CoScan(gen)
  }

  /** A list is changed only by a thread that holds its lock. */
  lemma OthersKeepList(s: State, u: Thread, s': State, l: nat)
    requires Inv(s) && u < |s.threads| && Step(s, u, s') && l < 4 && !s.threads[u].Holds(l)
    ensures |s'.lists| == 4 && s'.lists[l] == s.lists[l]
  {
    assert PcOk(s, s.threads[u]);
  }

  lemma ScanStep(s: State, s': State, t: Thread, gen: nat, l: nat)
    requires Inv(s) && SomeStep(s, s') && t < |s.threads| && t < |s'.threads| && l <= gen
    requires s.threads[t] == CoScan(gen) && s'.threads[t] == CoScan(gen)
    ensures gen <= 2 && |s'.lists| == 4 && s'.lists[l] == s.lists[l]
  {
    assert PcOk(s, s.threads[t]);
    var u: Thread :| u < |s.threads| && Step(s, u, s');
    OthersKeepList(s, u, s', l);
  }

  lemma ScannedMember(s: State, t: Thread, gen: nat, l: nat, o: Obj)
    requires Inv(s) && t < |s.threads| && s.threads[t] == CoScan(gen) && l <= gen && l < 4 && o in s.lists[l]
    ensures o in s.tracked && s.Tag(o) == l
  {
    QuietMember(s, l, o);
  }

  lemma {:induction false} ScannedListStays(run: seq<State>, i: nat, j: nat, t: Thread, gen: nat, l: nat)
    requires Execution(run) && Scanning(run, i, j, t, gen) && l <= gen
    ensures gen <= 2 && |run[i].lists| == 4 == |run[j].lists| && run[i].lists[l] == run[j].lists[l]
    decreases j
  {
    hide Inv, Step;
    if i == j {
      ExecutionInv(run, j);
      ScanningOk(run[j], t, gen);
    } else {
      ScannedListStays(run, i, j - 1, t, gen, l);
      ExecutionInv(run, j - 1);
      assert SomeStep(run[j - 1], run[j - 1 + 1]);
      ScanStep(run[j - 1], run[j], t, gen, l);
    }
  }

  lemma ScanningOk(s: State, t: Thread, gen: nat)
    requires Inv(s) && t < |s.threads| && s.threads[t] == CoScan(gen)
    ensures gen <= 2 && |s.lists| == 4
  {
    assert PcOk(s, s.threads[t]);
  }

  /** While the collector scans, the lists that it gathers from stay as they are, and each of their
      members keeps its flag and the tag that names its list, whatever other threads do. */
  lemma ScanSeesOneState(run: seq<State>, i: nat, j: nat, t: Thread, gen: nat, l: nat)
    requires Execution(run) && Scanning(run, i, j, t, gen) && l <= gen
    ensures gen <= 2 && |run[i].lists| == 4 == |run[j].lists| && run[i].lists[l] == run[j].lists[l]
    ensures forall o | o in run[i].lists[l] :: o in run[j].tracked && run[j].Tag(o) == l
  {
    hide Inv, Step;
    ScannedListStays(run, i, j, t, gen, l);
    ExecutionInv(run, j);
    forall o | o in run[j].lists[l] ensures o in run[j].tracked && run[j].Tag(o) == l {
      ScannedMember(run[j], t, gen, l, o);
    }
  }

  // ---------- no deadlock ----------

  ghost predicate CanStep(s: State, t: Thread)
    requires t < |s.threads| && |s.lists| == 4
  {
    exists s' :: Step(s, t, s')
  }

  /** Whoever waits for a lock holds only smaller ones. */
  lemma LocksAscend(s: State, pc: Pc, l: nat)
    requires |s.lists| == 4 && PcOk(s, pc) && pc.Wants().Some? && pc.Holds(l)
    ensures l < pc.Wants().value <= PERMANENT
  {}

  lemma TrackCanStep(s: State, t: Thread)
    requires Inv(s) && t < |s.threads| && s.threads[t].Tracking()
    requires s.threads[t].Wants() == None || s.Free(s.threads[t].Wants().value)
    ensures CanStep(s, t)
  {
    assert PcOk(s, s.threads[t]);
    match s.threads[t]
    case TrStart(o) => assert Step(s, t, s.(tracked := s.tracked + {o}).Goto(t, TrFlagged(o)));
    case TrFlagged(o) => assert Step(s, t, s.SetTag(o, 0).Goto(t, TrLock(o)));
    case TrLock(o) => assert Step(s, t, s.Goto(t, TrPush(o)));
    case TrPush(o) => assert Step(s, t, s.Give(0, o).(known := s.known + {o}).Goto(t, TrRelease));
    case TrRelease => assert Step(s, t, s.Goto(t, Idle));
  }

  lemma UntrackCanStep(s: State, t: Thread)
    requires Inv(s) && t < |s.threads| && s.threads[t].Untracking()
    requires s.threads[t].Wants() == None || s.Free(s.threads[t].Wants().value)
    ensures CanStep(s, t)
  {
    assert PcOk(s, s.threads[t]);
    match s.threads[t]
    case UnRead(o) => assert Step(s, t, s.Goto(t, if s.Tag(o) <= PERMANENT then UnLock(o, s.Tag(o)) else Idle));
    case UnLock(o, src) => assert Step(s, t, s.Goto(t, UnCheck(o, src)));
    case UnCheck(o, src) =>
      assert Step(s, t, if s.Tag(o) != src then s.Goto(t, UnRead(o))
        else if o in s.lists[src] then s.Take(src, o).Goto(t, UnRemoved(o, src)) else s.Goto(t, UnFailed(src)));
    case UnRemoved(o, src) => assert Step(s, t, s.(tracked := s.tracked - {o}).Goto(t, UnCleared(o, src)));
    case UnCleared(o, src) => assert Step(s, t, s.SetTag(o, UNTRACKED).Goto(t, UnRelease(src)));
    case UnRelease(_) => assert Step(s, t, s.Goto(t, Idle));
  }

  lemma PromoteCanStep(s: State, t: Thread)
    requires Inv(s) && t < |s.threads| && s.threads[t].Promoting()
    requires s.threads[t].Wants() == None || s.Free(s.threads[t].Wants().value)
    ensures CanStep(s, t)
  {
    NeverFailed(s, t);
    var pc := s.threads[t];
    if pc.PrCheck? {
      PromoteCheckCanStep(s, t, pc.obj, pc.from, pc.src);
    } else if pc.PrRead? || pc.PrLockSrc? || pc.PrLockDst? {
      PromoteLockCanStep(s, t);
    } else {
      PromoteEndCanStep(s, t);
    }
  }

  lemma PromoteLockCanStep(s: State, t: Thread)
    requires |s.lists| == 4 && t < |s.threads|
    requires s.threads[t].PrRead? || s.threads[t].PrLockSrc? || s.threads[t].PrLockDst?
    requires s.threads[t].Wants() == None || s.Free(s.threads[t].Wants().value)
    ensures CanStep(s, t)
  {
    match s.threads[t]
    case PrRead(o, from) =>
      assert Step(s, t, s.Goto(t, if s.Tag(o) <= from then PrLockSrc(o, from, s.Tag(o)) else Idle));
    case PrLockSrc(o, from, src) => assert Step(s, t, s.Goto(t, PrLockDst(o, from, src)));
    case PrLockDst(o, from, src) => assert Step(s, t, s.Goto(t, PrCheck(o, from, src)));
  }

  lemma PromoteCheckCanStep(s: State, t: Thread, o: Obj, from: nat, src: nat)
    requires Inv(s) && t < |s.threads| && s.threads[t] == PrCheck(o, from, src)
    ensures CanStep(s, t)
  {
    assert PcOk(s, s.threads[t]);
    assert Step(s, t, if s.Tag(o) != src || o !in s.tracked then s.Goto(t, PrRelease(from, src))
      else if o in s.lists[src] then s.Take(src, o).Goto(t, PrRemoved(o, from, src))
      else s.Goto(t, PrFailed(from, src)));
  }

  lemma PromoteEndCanStep(s: State, t: Thread)
    requires Inv(s) && t < |s.threads|
    requires s.threads[t].PrRemoved? || s.threads[t].PrPushed? || s.threads[t].PrRelease?
    ensures CanStep(s, t)
  {
    assert PcOk(s, s.threads[t]);
    match s.threads[t]
    case PrRemoved(o, from, src) => assert Step(s, t, s.Give(from + 1, o).Goto(t, PrPushed(o, from, src)));
    case PrPushed(o, from, src) => assert Step(s, t, s.SetTag(o, from + 1).Goto(t, PrRelease(from, src)));
    case PrRelease(_, _) => assert Step(s, t, s.Goto(t, Idle));
  }

  lemma FreezeCanStep(s: State, t: Thread)
    requires Inv(s) && t < |s.threads| && s.threads[t].Freezing()
    requires s.threads[t].Wants() == None || s.Free(s.threads[t].Wants().value)
    ensures CanStep(s, t)
  {
    assert PcOk(s, s.threads[t]);
    match s.threads[t]
    case FrLock(src) => assert Step(s, t, s.Goto(t, FrLockPerm(src)));
    case FrLockPerm(src) => assert Step(s, t, s.Goto(t, FrLoop(src)));
    case FrLoop(src) =>
      if s.lists[src] == {} {
        assert Step(s, t, s.Goto(t, if src < 2 then FrLock(src + 1) else Idle));
      } else {
        var o :| o in s.lists[src];
        assert Step(s, t, s.Take(src, o).Goto(t, FrPopped(src, o)));
      }
    case FrPopped(src, o) => assert Step(s, t, s.Give(PERMANENT, o).Goto(t, FrPushed(src, o)));
    case FrPushed(src, o) => assert Step(s, t, s.SetTag(o, PERMANENT).Goto(t, FrLoop(src)));
  }

  lemma UnfreezeCanStep(s: State, t: Thread)
    requires Inv(s) && t < |s.threads| && s.threads[t].Unfreezing()
    requires s.threads[t].Wants() == None || s.Free(s.threads[t].Wants().value)
    ensures CanStep(s, t)
  {
    assert PcOk(s, s.threads[t]);
    match s.threads[t]
    case UfLock => assert Step(s, t, s.Goto(t, UfLockPerm));
    case UfLockPerm => assert Step(s, t, s.Goto(t, UfLoop));
    case UfLoop =>
      if s.lists[PERMANENT] == {} {
        assert Step(s, t, s.Goto(t, Idle));
      } else {
        var o :| o in s.lists[PERMANENT];
        assert Step(s, t, s.Take(PERMANENT, o).Goto(t, UfPopped(o)));
      }
    case UfPopped(o) => assert Step(s, t, s.Give(2, o).Goto(t, UfPushed(o)));
    case UfPushed(o) => assert Step(s, t, s.SetTag(o, 2).Goto(t, UfLoop));
  }

  lemma CollectCanStep(s: State, t: Thread)
    requires |s.lists| == 4 && t < |s.threads| && s.threads[t].Collecting()
    requires s.threads[t].Wants() == None || s.Free(s.threads[t].Wants().value)
    ensures CanStep(s, t)
  {
    match s.threads[t]
    case CoLock(gen, next) =>
      assert Step(s, t, s.Goto(t, if next < gen then CoLock(gen, next + 1) else CoScan(gen)));
    case CoScan(gen) => assert Step(s, t, s.Goto(t, CoDrop(gen, 0)));
    case CoDrop(gen, next) => assert Step(s, t, s.Goto(t, if next < gen then CoDrop(gen, next + 1) else Idle));
  }

  lemma NotWaitingCanStep(s: State, t: Thread)
    requires Inv(s) && t < |s.threads| && s.threads[t] != Idle
    requires s.threads[t].Wants() == None || s.Free(s.threads[t].Wants().value)
    ensures CanStep(s, t)
  {
    if s.threads[t].Tracking() { TrackCanStep(s, t); }
    else if s.threads[t].Untracking() { UntrackCanStep(s, t); }
    else if s.threads[t].Promoting() { PromoteCanStep(s, t); }
    else if s.threads[t].Freezing() { FreezeCanStep(s, t); }
    else if s.threads[t].Unfreezing() { UnfreezeCanStep(s, t); }
    else { CollectCanStep(s, t); }
  }

  /** Following the holders of wanted locks upwards ends at a thread that can step. */
  lemma {:induction false} SomeoneCanStep(s: State, t: Thread) returns (u: Thread)
    requires Inv(s) && t < |s.threads| && s.threads[t] != Idle
    ensures u < |s.threads| && s.threads[u] != Idle && CanStep(s, u)
    decreases match s.threads[t].Wants() case None => 0 case Some(l) => 1 + PERMANENT - l
  {
    assert PcOk(s, s.threads[t]);
    match s.threads[t].Wants()
    case None => NotWaitingCanStep(s, t); u := t;
    case Some(l) =>
      if s.Free(l) {
        NotWaitingCanStep(s, t);
        u := t;
      } else {
        var h :| 0 <= h < |s.threads| && s.threads[h].Holds(l);
        assert PcOk(s, s.threads[h]);
        if s.threads[h].Wants().Some? { LocksAscend(s, s.threads[h], l); }
        u := SomeoneCanStep(s, h);
      }
  }

  /** In every interleaving, while some operation is unfinished some thread in one can step. */
  lemma NoDeadlock(run: seq<State>, i: nat, t: Thread) returns (u: Thread)
    requires Execution(run) && i < |run| && t < |run[i].threads| && run[i].threads[t] != Idle
    ensures |run[i].lists| == 4 && u < |run[i].threads| && run[i].threads[u] != Idle && CanStep(run[i], u)
  {
    ExecutionInv(run, i);
    u := SomeoneCanStep(run[i], t);
  }
}
