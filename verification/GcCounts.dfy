/** The generation lists of gc_state.rs with their counters, for operations that do not overlap. */
module GcCounts {
  import opened GcLists

  type Lists = s: seq<set<Obj>> | |s| == 4 witness [{}, {}, {}, {}]
  type Counters = s: seq<int> | |s| == 4 witness [0, 0, 0, 0]

  function TagOf(tags: map<Obj, nat>, o: Obj): nat {
    if o in tags then tags[o] else UNTRACKED
  }

  /** Every object is on exactly the list that its tag names, if any. */
  ghost predicate TagsName(lists: Lists, tags: map<Obj, nat>) {
    forall o, l | 0 <= l < 4 :: o in lists[l] <==> TagOf(tags, o) == l
  }

  ghost predicate CountsCount(lists: Lists, counts: Counters) {
    forall l | 0 <= l < 4 :: counts[l] == |lists[l]|
  }

  lemma MovedTags(lists: Lists, tags: map<Obj, nat>, o: Obj, src: nat, dst: nat)
    requires TagsName(lists, tags) && src < 4 && dst < 4 && src != dst && o in lists[src]
    ensures TagsName(lists[src := lists[src] - {o}][dst := lists[dst] + {o}], tags[o := dst])
    ensures o !in lists[dst] && |lists[dst] + {o}| == |lists[dst]| + 1 && |lists[src] - {o}| == |lists[src]| - 1
  {
    assert TagOf(tags, o) == src;
    var lists' := lists[src := lists[src] - {o}][dst := lists[dst] + {o}];
    forall p, l | 0 <= l < 4 ensures p in lists'[l] <==> TagOf(tags[o := dst], p) == l {
      assert p in lists[l] <==> TagOf(tags, p) == l;
    }
  }

  function PromotedTag(tag: nat, from: nat, survives: bool): nat {
    if survives && tag <= from then from + 1 else tag
  }

  /** What the new tags say about the lists. */
  lemma MovedLists(before: Lists, tags: map<Obj, nat>, after: Lists, tags': map<Obj, nat>,
                   from: nat, survivors: seq<Obj>)
    requires TagsName(before, tags) && TagsName(after, tags') && from < 2
    requires forall p :: TagOf(tags', p) == PromotedTag(TagOf(tags, p), from, p in survivors)
    ensures var moved := set p | p in survivors && exists l :: 0 <= l <= from && p in before[l];
      && after[from + 1] == before[from + 1] + moved
      && (forall l | 0 <= l <= from :: after[l] == before[l] - moved)
      && forall l | from + 1 < l < 4 :: after[l] == before[l]
  {
    var moved := set p | p in survivors && exists l :: 0 <= l <= from && p in before[l];
    forall p ensures p in moved <==> p in survivors && TagOf(tags, p) <= from {
      if TagOf(tags, p) <= from { assert p in before[TagOf(tags, p)]; }
    }
    forall p, l | 0 <= l < 4
      ensures p in after[l] <==> if p in moved then l == from + 1 else p in before[l]
      ensures p in moved && p in before[l] ==> l <= from
    {
      assert p in after[l] <==> TagOf(tags', p) == l;
      assert p in before[l] <==> TagOf(tags, p) == l;
    }
    forall l, p | 0 <= l <= from ensures p in after[l] <==> p in before[l] - moved {
      assert p in after[l] <==> if p in moved then l == from + 1 else p in before[l];
    }
    forall l, p | from + 1 < l < 4 ensures p in after[l] <==> p in before[l] {
      assert p in after[l] <==> if p in moved then l == from + 1 else p in before[l];
    }
  }

  lemma FrozenLists(before: Lists, tags: map<Obj, nat>, after: Lists, tags': map<Obj, nat>)
    requires TagsName(before, tags) && TagsName(after, tags')
    requires forall p :: TagOf(tags', p) == if TagOf(tags, p) <= PERMANENT then PERMANENT else TagOf(tags, p)
    ensures after == [{}, {}, {}, before[0] + before[1] + before[2] + before[3]]
  {
    var frozen := [{}, {}, {}, before[0] + before[1] + before[2] + before[3]];
    forall l, p | 0 <= l < 4 ensures p in after[l] <==> p in frozen[l] {
      assert p in after[l] <==> TagOf(tags', p) == l;
      if TagOf(tags, p) <= PERMANENT { assert p in before[TagOf(tags, p)]; }
    }
    forall l | 0 <= l < 4 ensures after[l] == frozen[l] {}
  }

  lemma UnfrozenLists(before: Lists, tags: map<Obj, nat>, after: Lists, tags': map<Obj, nat>)
    requires TagsName(before, tags) && TagsName(after, tags')
    requires forall p :: TagOf(tags', p) == if TagOf(tags, p) == PERMANENT then 2 else TagOf(tags, p)
    ensures after == [before[0], before[1], before[2] + before[3], {}]
  {
    var unfrozen := [before[0], before[1], before[2] + before[3], {}];
    forall l, p | 0 <= l < 4 ensures p in after[l] <==> p in unfrozen[l] {
      assert p in after[l] <==> TagOf(tags', p) == l;
      assert forall k | 0 <= k < 4 :: p in before[k] <==> TagOf(tags, p) == k;
    }
    forall l | 0 <= l < 4 ensures after[l] == unfrozen[l] {}
  }

  class GcState {
    var lists: Lists
    var counts: Counters
    var tags: map<Obj, nat>

    ghost predicate Valid()
      reads this
    {
      TagsName(lists, tags) && CountsCount(lists, counts)
    }

    constructor ()
      ensures Valid() && tags == map[]
    {
      lists := [{}, {}, {}, {}];
      counts := [0, 0, 0, 0];
      tags := map[];
    }

    method Track(o: Obj)
      requires Valid() && TagOf(tags, o) == UNTRACKED
      modifies this
      ensures Valid() && tags == old(tags)[o := 0]
      ensures lists == old(lists)[0 := old(lists)[0] + {o}] && o !in old(lists)[0]
    {
      assert o !in lists[0];
      tags := tags[o := 0];
      lists := lists[0 := lists[0] + {o}];
      counts := counts[0 := counts[0] + 1];
      assert TagsName(lists, tags) by {
        forall p, l | 0 <= l < 4 ensures p in lists[l] <==> TagOf(tags, p) == l {
          assert p in old(lists)[l] <==> TagOf(old(tags), p) == l;
        }
      }
    }

    method Untrack(o: Obj)
      requires Valid()
      modifies this
      ensures Valid()
      ensures tags == if TagOf(old(tags), o) <= PERMANENT then old(tags)[o := UNTRACKED] else old(tags)
      ensures forall l | 0 <= l < 4 :: lists[l] == old(lists)[l] - {o}
    {
      var g := TagOf(tags, o);
      if g > PERMANENT {
        return;
      }
      assert o in lists[g];
      lists := lists[g := lists[g] - {o}];
      counts := counts[g := counts[g] - 1];
      tags := tags[o := UNTRACKED];
      assert TagsName(lists, tags) by {
        forall p, l | 0 <= l < 4 ensures p in lists[l] <==> TagOf(tags, p) == l {
          assert p in old(lists)[l] <==> TagOf(old(tags), p) == l;
        }
      }
    }

    /** One object changes lists, and counters and tag with it. */
    method Move(o: Obj, src: nat, dst: nat)
      requires Valid() && src < 4 && dst < 4 && src != dst && o in lists[src]
      modifies this
      ensures Valid() && tags == old(tags)[o := dst]
      ensures lists == old(lists)[src := old(lists)[src] - {o}][dst := old(lists)[dst] + {o}]
    {
      MovedTags(lists, tags, o, src, dst);
      lists := lists[src := lists[src] - {o}];
      counts := counts[src := counts[src] - 1];
      lists := lists[dst := lists[dst] + {o}];
      counts := counts[dst := counts[dst] + 1];
      tags := tags[o := dst];
    }

    /** Survivors of a collection of generation `from` move to the next one; a generation-2
        collection promotes nothing. */
    method PromoteSurvivors(from: nat, survivors: seq<Obj>)
      requires Valid() && from <= 2
      modifies this
      ensures Valid()
      ensures forall p :: TagOf(tags, p) == PromotedTag(TagOf(old(tags), p), from, from < 2 && p in survivors)
      ensures from == 2 ==> lists == old(lists)
      ensures from < 2 ==>
        var moved := set p | p in survivors && exists l :: 0 <= l <= from && p in old(lists)[l];
        && lists[from + 1] == old(lists)[from + 1] + moved
        && (forall l | 0 <= l <= from :: lists[l] == old(lists)[l] - moved)
        && forall l | from + 1 < l < 4 :: lists[l] == old(lists)[l]
      ensures from < 2 ==> forall p | p in survivors && TagOf(old(tags), p) <= from :: TagOf(tags, p) == from + 1
      ensures forall p | p !in survivors || from == 2 || TagOf(old(tags), p) > from ::
        TagOf(tags, p) == TagOf(old(tags), p)
    {
      if from >= 2 {
        return;
      }
      for i := 0 to |survivors|
        invariant Valid()
        invariant forall p :: TagOf(tags, p) == PromotedTag(TagOf(old(tags), p), from, p in survivors[..i])
      {
        var o := survivors[i];
        assert survivors[..i + 1] == survivors[..i] + [o];
        var g := TagOf(tags, o);
        if g <= from {
          assert o in lists[g];
          Move(o, g, from + 1);
        }
      }
      assert survivors[..|survivors|] == survivors;
      MovedLists(old(lists), old(tags), lists, tags, from, survivors);
    }

    /** Pops a list empty onto another, counting, and sets the tags. */
    method Drain(src: nat, dst: nat) returns (count: nat)
      requires src < 4 && dst < 4 && src != dst && TagsName(lists, tags)
      modifies this`lists, this`tags
      ensures TagsName(lists, tags) && count == |old(lists)[src]|
      ensures lists[src] == {} && |lists[dst]| == |old(lists)[dst]| + count
      ensures forall l | 0 <= l < 4 && l != src && l != dst :: lists[l] == old(lists)[l]
      ensures forall p :: TagOf(tags, p) == if TagOf(old(tags), p) == src then dst else TagOf(old(tags), p)
    {
      count := 0;
      while lists[src] != {}
        invariant TagsName(lists, tags)
        invariant |lists[src]| + count == |old(lists)[src]| && |lists[dst]| == |old(lists)[dst]| + count
        invariant forall l | 0 <= l < 4 && l != src && l != dst :: lists[l] == old(lists)[l]
        invariant forall p ::
          TagOf(tags, p) == TagOf(old(tags), p) || (TagOf(tags, p) == dst && TagOf(old(tags), p) == src)
        decreases lists[src]
      {
        var o :| o in lists[src];
        MovedTags(lists, tags, o, src, dst);
        lists := lists[src := lists[src] - {o}][dst := lists[dst] + {o}];
        tags := tags[o := dst];
        count := count + 1;
      }
      forall p ensures TagOf(tags, p) != src { assert p !in lists[src]; }
    }

    method Freeze()
      requires Valid()
      modifies this
      ensures Valid()
      ensures forall p :: TagOf(tags, p) == if TagOf(old(tags), p) <= PERMANENT then PERMANENT else TagOf(old(tags), p)
      ensures lists == [{}, {}, {}, old(lists)[0] + old(lists)[1] + old(lists)[2] + old(lists)[3]]
    {
      var count := 0;
      for g := 0 to 3
        invariant TagsName(lists, tags) && counts[PERMANENT] == old(counts)[PERMANENT]
        invariant |lists[PERMANENT]| == counts[PERMANENT] + count
        invariant forall l | 0 <= l < 3 :: counts[l] == |lists[l]|
        invariant forall p :: TagOf(tags, p) == if TagOf(old(tags), p) < g then PERMANENT else TagOf(old(tags), p)
      {
        var moved := Drain(g, PERMANENT);
        count := count + moved;
        counts := counts[g := 0];
      }
      counts := counts[PERMANENT := counts[PERMANENT] + count];
      FrozenLists(old(lists), old(tags), lists, tags);
    }

    method Unfreeze()
      requires Valid()
      modifies this
      ensures Valid()
      ensures forall p :: TagOf(tags, p) == if TagOf(old(tags), p) == PERMANENT then 2 else TagOf(old(tags), p)
      ensures lists == [old(lists)[0], old(lists)[1], old(lists)[2] + old(lists)[3], {}]
    {
      var count := Drain(PERMANENT, 2);
      counts := counts[PERMANENT := 0];
      counts := counts[2 := counts[2] + count];
      UnfrozenLists(old(lists), old(tags), lists, tags);
    }
  }
}
