/** The chunked frame stack of datastack.rs: bump allocation over a chain of chunks that the system
    allocator places anywhere. Addresses are natural numbers and 0 is the null pointer. */
module DataStack {
  import opened Wrappers

  const MIN_CHUNK_SIZE: nat := 16 * 1024
  const MINIMUM_OVERHEAD: nat := 8000
  const ALIGN: nat := 16
  /** size_of::<DataStackChunk>(): three words. */
  const HEADER_SIZE: nat := 24
  const ISIZE_MAX: nat := 0x7FFF_FFFF_FFFF_FFFF
  const USIZE_MAX: nat := 0xFFFF_FFFF_FFFF_FFFF

  /** `(x + ALIGN - 1) & !(ALIGN - 1)`: the next multiple of 16. */
  function AlignUp(x: nat): (r: nat)
    ensures r % ALIGN == 0 && x <= r < x + ALIGN
  {
    x + ALIGN - 1 - (x + ALIGN - 1) % ALIGN
  }

  function Elements(s: seq<nat>): set<nat> {
    set a | a in s
  }

  datatype Header = Header(previous: nat, size: nat, savedTop: nat)

  /** Blocks [a, a + m[a]) do not overlap. */
  ghost predicate Disjoint(m: map<nat, nat>) {
    forall a, b | a in m && b in m && a != b :: a + m[a] <= b || b + m[b] <= a
  }

  /** The system allocator. Clients know only that a block is aligned and overlaps no live one. */
  class System {
    var live: map<nat, nat>
    var headers: map<nat, Header>
    var next: nat

    ghost predicate Valid()
      reads this
    {
      && Disjoint(live)
      && (forall a | a in live :: 0 < a && a % ALIGN == 0 && 0 < live[a] && a + live[a] <= next)
      && 0 < next && next % ALIGN == 0
    }

    constructor ()
      ensures Valid() && live == map[]
    {
      live := map[];
      headers := map[];
      next := ALIGN;
    }

    method Alloc(size: nat) returns (a: nat)
      requires Valid() && 0 < size <= ISIZE_MAX
      modifies this
      ensures Valid() && live == old(live)[a := size] && headers == old(headers)
      ensures 0 < a && a % ALIGN == 0 && a !in old(live)
      ensures forall b | b in old(live) :: b + old(live)[b] <= a || a + size <= b
    {
      a := next;
      next := AlignUp(next + size);
      live := live[a := size];
    }

    /** Only a live block can be freed, with the size it was allocated with. */
    method Dealloc(a: nat, size: nat)
      requires Valid() && a in live && live[a] == size
      modifies this
      ensures Valid() && live == old(live) - {a} && headers == old(headers)
    {
      live := live - {a};
    }

    method WriteHeader(a: nat, h: Header)
      requires Valid() && a in live
      modifies this
      ensures Valid() && live == old(live) && headers == old(headers)[a := h]
    {
      headers := headers[a := h];
    }
  }

  /** A region handed out and not yet popped, with the position of its chunk in the chain. */
  datatype Region = Region(base: nat, size: nat, depth: nat)

  function DataStart(chunk: nat): (r: nat)
    ensures r % ALIGN == 0 && chunk < r
    ensures chunk % ALIGN == 0 ==> r == chunk + 32
  {
    AlignUp(chunk + HEADER_SIZE)
  }

  /** The chain of chunks, root first, as the headers link it. */
  ghost predicate Linked(live: map<nat, nat>, headers: map<nat, Header>, chain: seq<nat>) {
    && (forall i | 0 <= i < |chain| ::
          && chain[i] in live && chain[i] in headers
          && headers[chain[i]].size == live[chain[i]] >= MIN_CHUNK_SIZE
          && live[chain[i]] % ALIGN == 0)
    && (chain != [] ==> headers[chain[0]].previous == 0)
    && (forall i, j | 0 <= i < |chain| - 1 && j == i + 1 :: headers[chain[j]].previous == chain[i])
    && forall i, j | 0 <= i < j < |chain| :: chain[i] != chain[j]
  }

  /** Regions are aligned, inside the data area of their chunk, and stacked upwards. */
  ghost predicate Stacked(live: map<nat, nat>, chain: seq<nat>, regions: seq<Region>) {
    && (forall i | 0 <= i < |chain| :: chain[i] in live)
    && (forall i | 0 <= i < |regions| :: Inside(live, chain, regions[i]))
    && forall i, j | 0 <= i < j < |regions| :: Before(regions[i], regions[j])
  }

  ghost predicate Inside(live: map<nat, nat>, chain: seq<nat>, r: Region)
    requires forall i | 0 <= i < |chain| :: chain[i] in live
  {
    && r.depth < |chain| && r.base % ALIGN == 0
    && DataStart(chain[r.depth]) <= r.base && r.base + r.size <= chain[r.depth] + live[chain[r.depth]]
  }

  ghost predicate Before(r: Region, q: Region) {
    r.depth < q.depth || (r.depth == q.depth && r.base + r.size <= q.base)
  }

  /** Data areas do not touch, even with their limits included: a header lies between them. */
  lemma AreasApart(live: map<nat, nat>, a: nat, b: nat, p: nat)
    requires Disjoint(live) && a in live && b in live && a != b && a % ALIGN == 0 && b % ALIGN == 0
    requires DataStart(a) <= p <= a + live[a]
    ensures !(DataStart(b) <= p <= b + live[b])
  {}

  /** Live regions are pairwise disjoint. */
  lemma RegionsDisjoint(live: map<nat, nat>, headers: map<nat, Header>, chain: seq<nat>, regions: seq<Region>,
                        i: nat, j: nat)
    requires Disjoint(live) && Linked(live, headers, chain) && Stacked(live, chain, regions) && i < j < |regions|
    ensures regions[i].base + regions[i].size <= regions[j].base || regions[j].base + regions[j].size <= regions[i].base
  {
    var r, q := regions[i], regions[j];
    assert Before(r, q) && Inside(live, chain, r) && Inside(live, chain, q);
    if r.depth < q.depth {
      var a, b := chain[r.depth], chain[q.depth];
      assert a + live[a] <= b || b + live[b] <= a;
    }
  }

  /** The current chunk is the last of the chain, and its free space lies above its regions. */
  ghost predicate Current(live: map<nat, nat>, chain: seq<nat>, regions: seq<Region>,
                          chunk: nat, top: nat, limit: nat)
  {
    && chain != [] && chunk == chain[|chain| - 1] && chunk in live
    && limit == chunk + live[chunk]
    && DataStart(chunk) <= top <= limit && top % ALIGN == 0
    && forall i | 0 <= i < |regions| && regions[i].depth == |chain| - 1 :: regions[i].base + regions[i].size <= top
  }

  ghost predicate Chained(live: map<nat, nat>, headers: map<nat, Header>, chain: seq<nat>, regions: seq<Region>) {
    Linked(live, headers, chain) && Stacked(live, chain, regions)
  }

  ghost predicate Inv(live: map<nat, nat>, headers: map<nat, Header>, chain: seq<nat>, regions: seq<Region>,
                      chunk: nat, top: nat, limit: nat)
  {
    Chained(live, headers, chain, regions) && Current(live, chain, regions, chunk, top, limit)
  }

  // ---------- what each operation does to the chain and the regions ----------

  lemma Bumped(live: map<nat, nat>, headers: map<nat, Header>, chain: seq<nat>, regions: seq<Region>,
               chunk: nat, top: nat, limit: nat, size: nat)
    requires Inv(live, headers, chain, regions, chunk, top, limit) && size % ALIGN == 0 && top + size <= limit
    ensures Inv(live, headers, chain, regions + [Region(top, size, |chain| - 1)], chunk, top + size, limit)
  {
    hide Linked;
    var q := Region(top, size, |chain| - 1);
    forall i | 0 <= i < |regions| ensures Before(regions[i], q) { assert Inside(live, chain, regions[i]); }
    assert Inside(live, chain, q);
    SumAligned(top, size);
  }

  lemma SumAligned(a: nat, b: nat)
    requires a % ALIGN == 0 && b % ALIGN == 0
    ensures (a + b) % ALIGN == 0
  {}

  lemma LinkedGrows(live: map<nat, nat>, headers: map<nat, Header>, chain: seq<nat>, a: nat, size: nat)
    requires Linked(live, headers, chain) && chain != [] && a !in live
    requires size >= MIN_CHUNK_SIZE && size % ALIGN == 0
    ensures Linked(live[a := size], headers[a := Header(chain[|chain| - 1], size, 0)], chain + [a])
  {}

  lemma LinkedKeeps(live: map<nat, nat>, headers: map<nat, Header>, chain: seq<nat>, c: nat, top: nat)
    requires Linked(live, headers, chain) && c in headers
    ensures Linked(live, headers[c := headers[c].(savedTop := top)], chain)
  {}

  lemma StackedGrows(live: map<nat, nat>, chain: seq<nat>, regions: seq<Region>, a: nat, n: nat, size: nat)
    requires Stacked(live, chain, regions) && a !in live && a % ALIGN == 0
    requires DataStart(a) + size <= a + n
    ensures Stacked(live[a := n], chain + [a], regions + [Region(DataStart(a), size, |chain|)])
  {
    hide DataStart;
    var live', chain' := live[a := n], chain + [a];
    var q := Region(DataStart(a), size, |chain|);
    forall i | 0 <= i < |regions| ensures Before(regions[i], q) && Inside(live', chain', regions[i]) {
      assert Inside(live, chain, regions[i]);
    }
  }

  lemma CurrentGrows(live: map<nat, nat>, chain: seq<nat>, regions: seq<Region>, a: nat, n: nat, size: nat)
    requires Stacked(live, chain, regions) && a % ALIGN == 0
    requires size % ALIGN == 0 && DataStart(a) + size <= a + n
    ensures var regions' := regions + [Region(DataStart(a), size, |chain|)];
      Current(live[a := n], chain + [a], regions', a, DataStart(a) + size, a + n)
  {
    forall i | 0 <= i < |regions| ensures regions[i].depth < |chain| { assert Inside(live, chain, regions[i]); }
  }

  lemma InvParts(live: map<nat, nat>, headers: map<nat, Header>, chain: seq<nat>, regions: seq<Region>,
                 chunk: nat, top: nat, limit: nat)
    requires Inv(live, headers, chain, regions, chunk, top, limit)
    ensures Chained(live, headers, chain, regions) && chain != [] && chunk == chain[|chain| - 1]
  {}

  /** A single chunk without regions; its first aligned slot stays unused. */
  lemma FirstChunk(live: map<nat, nat>, headers: map<nat, Header>, a: nat)
    requires a in live && live[a] == MIN_CHUNK_SIZE && a % ALIGN == 0
    requires a in headers && headers[a] == Header(0, MIN_CHUNK_SIZE, 0)
    ensures Inv(live, headers, [a], [], a, DataStart(a) + ALIGN, a + MIN_CHUNK_SIZE)
  {}

  lemma HasHeader(live: map<nat, nat>, headers: map<nat, Header>, chain: seq<nat>, regions: seq<Region>,
                  chunk: nat, top: nat, limit: nat)
    requires Inv(live, headers, chain, regions, chunk, top, limit)
    ensures chunk in headers && chunk in live
    ensures chunk <= top
  {}

  /** A new chunk on top of the chain, with the first region in it. */
  lemma Grown(live: map<nat, nat>, headers: map<nat, Header>, chain: seq<nat>, regions: seq<Region>,
              chunk: nat, top: nat, limit: nat, a: nat, n: nat, size: nat, saved: nat)
    requires Inv(live, headers, chain, regions, chunk, top, limit) && a !in live && a % ALIGN == 0
    requires n >= MIN_CHUNK_SIZE && n % ALIGN == 0 && size % ALIGN == 0 && DataStart(a) + size <= a + n
    ensures Inv(live[a := n], headers[chunk := headers[chunk].(savedTop := saved)][a := Header(chunk, n, 0)],
                chain + [a], regions + [Region(DataStart(a), size, |chain + [a]| - 1)], a, DataStart(a) + size, a + n)
  {
    LinkedKeeps(live, headers, chain, chunk, saved);
    LinkedGrows(live, headers[chunk := headers[chunk].(savedTop := saved)], chain, a, n);
    StackedGrows(live, chain, regions, a, n, size);
    CurrentGrows(live, chain, regions, a, n, size);
  }

  /** Popping a region of the current chunk. */
  lemma Popped(live: map<nat, nat>, headers: map<nat, Header>, chain: seq<nat>, regions: seq<Region>)
    requires Chained(live, headers, chain, regions) && regions != [] && regions[|regions| - 1].depth == |chain| - 1
    ensures var n, c := |regions| - 1, chain[|chain| - 1];
      Inv(live, headers, chain, regions[..n], c, regions[n].base, c + live[c])
  {
    var n := |regions| - 1;
    assert Inside(live, chain, regions[n]);
    forall i | 0 <= i < n && regions[i].depth == regions[n].depth
      ensures regions[i].base + regions[i].size <= regions[n].base
    {
      assert Before(regions[i], regions[n]);
    }
  }

  /** Freeing a last chunk that holds no region. */
  lemma Unlinked(live: map<nat, nat>, headers: map<nat, Header>, chain: seq<nat>, regions: seq<Region>)
    requires Chained(live, headers, chain, regions) && regions != []
    requires regions[|regions| - 1].depth < |chain| - 1
    ensures var n := |chain| - 1;
      var c, p := chain[n], chain[n - 1];
      && c in headers && c in live && headers[c].previous == p && headers[c].size == live[c]
      && Chained(live - {c}, headers, chain[..n], regions)
      && p in headers && p in live - {c} && headers[p].size == (live - {c})[p]
  {
    var c, chain' := chain[|chain| - 1], chain[..|chain| - 1];
    LinkedShrinks(live, headers, chain);
    assert chain'[|chain'| - 1] == chain[|chain| - 2];
    forall i | 0 <= i < |regions| ensures Inside(live - {c}, chain', regions[i]) {
      assert Inside(live, chain, regions[i]);
      assert i < |regions| - 1 ==> Before(regions[i], regions[|regions| - 1]);
    }
  }

  class Stack {
    const system: System
    var chunk: nat
    var top: nat
    var limit: nat
    ghost var chain: seq<nat>
    ghost var regions: seq<Region>

    ghost predicate Valid()
      reads this, system
    {
      && system.Valid()
      && Inv(system.live, system.headers, chain, regions, chunk, top, limit)
    }

    constructor (system: System)
      requires system.Valid()
      modifies system
      ensures Valid() && this.system == system && regions == [] && chain == [chunk]
      ensures system.live == old(system.live)[chunk := MIN_CHUNK_SIZE] && chunk !in old(system.live)
      ensures top == chunk + 48 && limit == chunk + 16384
    {
      var a := system.Alloc(MIN_CHUNK_SIZE);
      system.WriteHeader(a, Header(0, MIN_CHUNK_SIZE, 0));
      hide Inv;
      FirstChunk(system.live, system.headers, a);
      this.system := system;
      chunk := a;
      top := DataStart(a) + ALIGN;
      limit := a + MIN_CHUNK_SIZE;
      chain := [a];
      regions := [];
    }

    predicate HasSpace(size: nat)
      reads this
    {
      (if limit >= top then limit - top else 0) >= AlignUp(size)
    }

    /** `ptr::add` demands offsets of at most isize::MAX. The result is None where the source panics. */
    method Push(size: nat) returns (r: Option<nat>)
      requires Valid() && AlignUp(size) <= ISIZE_MAX
      modifies this, system
      ensures Valid()
      ensures r == None <==> !old(HasSpace(size)) && Needed(AlignUp(size)) > MAX_NEEDED
      ensures r == None ==> regions == old(regions) && chain == old(chain) && system.live == old(system.live)
      ensures r.Some? ==> regions == old(regions) + [Region(r.value, AlignUp(size), |chain| - 1)]
      ensures r.Some? && old(HasSpace(size)) ==> chain == old(chain) && system.live == old(system.live)
      ensures r.Some? && !old(HasSpace(size)) ==>
        && chain == old(chain) + [chunk] && chunk !in old(system.live) && chunk in system.live
        && system.live == old(system.live)[chunk := system.live[chunk]]
        && FitsTightly(system.live[chunk], Needed(AlignUp(size)))
      ensures r == None <==> old(top) + AlignUp(size) > old(limit) && AlignUp(size) + 8040 > 0x4000_0000_0000_0000
      ensures r == None ==> top == old(top) && limit == old(limit) && chunk == old(chunk)
      ensures r.Some? ==> top == r.value + AlignUp(size) && limit == chunk + system.live[chunk]
      ensures r.Some? && old(top) + AlignUp(size) <= old(limit) ==>
        r.value == old(top) && chunk == old(chunk) && system.live == old(system.live)
      ensures r.Some? && old(top) + AlignUp(size) > old(limit) ==>
        && r.value == chunk + 32 && chunk !in old(system.live)
        && AlignUp(size) + 8040 <= system.live[chunk]
        && (system.live[chunk] == 16384 || system.live[chunk] < 2 * (AlignUp(size) + 8040))
    {
      hide Linked, Stacked, Disjoint;
      var alignedSize := AlignUp(size);
      if top + alignedSize <= limit {
        Bumped(system.live, system.headers, chain, regions, chunk, top, limit, alignedSize);
        r := Some(top);
        regions := regions + [Region(top, alignedSize, |chain| - 1)];
        top := top + alignedSize;
      } else {
        r := PushSlow(alignedSize);
      }
    }

    method PushSlow(alignedSize: nat) returns (r: Option<nat>)
      requires Valid() && alignedSize <= ISIZE_MAX && alignedSize % ALIGN == 0
      modifies this, system
      ensures Valid()
      ensures r == None <==> Needed(alignedSize) > MAX_NEEDED
      ensures r == None ==> regions == old(regions) && chain == old(chain) && system.live == old(system.live)
      ensures r.Some? ==> regions == old(regions) + [Region(r.value, alignedSize, |chain| - 1)]
      ensures r.Some? ==>
        && chain == old(chain) + [chunk] && chunk !in old(system.live) && chunk in system.live
        && system.live == old(system.live)[chunk := system.live[chunk]]
        && FitsTightly(system.live[chunk], Needed(alignedSize))
      ensures r == None ==> top == old(top) && limit == old(limit) && chunk == old(chunk)
      ensures r.Some? ==>
        r.value == chunk + 32 && top == r.value + alignedSize && limit == chunk + system.live[chunk]
    {
      var chunkSize := ChunkSize(Needed(alignedSize));
      if chunkSize == None || chunkSize.value > ISIZE_MAX {
        return None;
      }
      var start := LinkChunk(chunkSize.value, alignedSize);
      r := Some(start);
    }

    /** The rest of `push_slow`: the new chunk becomes the current one, with the region at its start. */
    method LinkChunk(size: nat, alignedSize: nat) returns (start: nat)
      requires Valid() && size <= ISIZE_MAX && size % ALIGN == 0 && alignedSize % ALIGN == 0
      requires FitsTightly(size, Needed(alignedSize))
      modifies this, system
      ensures Valid() && chunk !in old(system.live) && chain == old(chain) + [chunk]
      ensures regions == old(regions) + [Region(start, alignedSize, |chain| - 1)]
      ensures system.live == old(system.live)[chunk := size]
      ensures start == chunk + 32 && top == start + alignedSize && limit == chunk + size
    {
      hide Inv, Linked, Stacked, Disjoint, Current;
      ghost var live, headers := system.live, system.headers;
      var oldChunk := chunk;
      HasHeader(live, headers, chain, regions, chunk, top, limit);
      system.WriteHeader(oldChunk, system.headers[oldChunk].(savedTop := top - oldChunk));
      var newChunk := system.Alloc(size);
      system.WriteHeader(newChunk, Header(oldChunk, size, 0));
      Grown(live, headers, chain, regions, chunk, top, limit, newChunk, size, alignedSize, top - oldChunk);
      start := DataStart(newChunk);
      regions := regions + [Region(start, alignedSize, |chain + [newChunk]| - 1)];
      chain := chain + [newChunk];
      chunk, limit, top := newChunk, newChunk + size, start + alignedSize;
    }

    predicate IsInCurrentChunk(p: nat)
      reads this
    {
      DataStart(chunk) <= p <= limit
    }

    /** Pops the most recent region. Exactly the chunks above its own are freed: never the root, and
        never one that holds a live region. */
    method Pop(base: nat)
      requires Valid() && regions != [] && base == regions[|regions| - 1].base
      modifies this, system
      ensures Valid() && regions == old(regions)[..|old(regions)| - 1] && top == base
      ensures old(regions)[|old(regions)| - 1].depth < |old(chain)|
      ensures chain == old(chain)[..old(regions)[|old(regions)| - 1].depth + 1]
      ensures system.live == old(system.live) - Elements(old(chain)[|chain|..])
    {
      hide Linked, Stacked, Disjoint;
      InChunkTest(system.live, system.headers, chain, regions);
      if IsInCurrentChunk(base) {
        top := base;
        Popped(system.live, system.headers, chain, regions);
        regions := regions[..|regions| - 1];
        assert chain[..|chain|] == chain;
        assert Elements(chain[|chain|..]) == {};
      } else {
        PopSlow(base);
      }
    }

    method PopSlow(base: nat)
      requires Valid() && regions != [] && base == regions[|regions| - 1].base
      requires regions[|regions| - 1].depth < |chain| - 1
      modifies this, system
      ensures Valid() && regions == old(regions)[..|old(regions)| - 1] && top == base
      ensures chain == old(chain)[..old(regions)[|old(regions)| - 1].depth + 1]
      ensures system.live == old(system.live) - Elements(old(chain)[|chain|..])
    {
      hide Inv, Linked, Stacked, Chained, Disjoint, Elements, DataStart;
      ghost var last := regions[|regions| - 1];
      InvParts(system.live, system.headers, chain, regions, chunk, top, limit);
      NoneFreed(system.live, chain);
      while true
        invariant system.Valid() && last.depth + 1 < |chain| <= |old(chain)|
        invariant chain == old(chain)[..|chain|] && chunk == chain[|chain| - 1]
        invariant regions == old(regions)
        invariant Chained(system.live, system.headers, chain, regions)
        invariant system.live == old(system.live) - Elements(old(chain)[|chain|..])
        decreases |chain|
      {
        ghost var n := |chain| - 1;
        FreedOneMore(old(system.live), old(chain), n);
        FreeTop();
        assert chain == old(chain)[..n];
        InChunkTest(system.live, system.headers, chain, regions);
        if IsInCurrentChunk(base) {
          top := base;
          Popped(system.live, system.headers, chain, regions);
          regions := regions[..|regions| - 1];
          return;
        }
      }
    }

    /** The body of that loop: frees the current chunk and goes back to the one before. */
    method FreeTop()
      requires system.Valid() && Chained(system.live, system.headers, chain, regions)
      requires regions != [] && regions[|regions| - 1].depth < |chain| - 1 && chunk == chain[|chain| - 1]
      modifies this`chunk, this`limit, this`chain, system
      ensures system.Valid() && Chained(system.live, system.headers, chain, regions)
      ensures chain == old(chain)[..|old(chain)| - 1] && chunk == chain[|chain| - 1]
      ensures chunk in system.live && limit == chunk + system.live[chunk]
      ensures system.live == old(system.live) - {old(chunk)}
    {
      hide Linked, Stacked, Chained, Disjoint;
      Unlinked(system.live, system.headers, chain, regions);
      var oldChunk := chunk;
      var prev := system.headers[oldChunk].previous;
      system.Dealloc(oldChunk, system.headers[oldChunk].size);
      chunk := prev;
      chain := chain[..|chain| - 1];
      limit := prev + system.headers[prev].size;
    }

    /** `Drop`: frees every chunk of the chain, each once. */
    method Drop()
      requires Valid()
      modifies system
      ensures system.Valid() && system.live == old(system.live) - Elements(chain)
    {
      hide Linked, Stacked, Disjoint;
      var c := chunk;
      ghost var n := |chain|;
      assert chain[..n] == chain;
      assert Elements(chain[n..]) == {};
      while c != 0
        invariant 0 <= n <= |chain| && system.Valid()
        invariant c == if n == 0 then 0 else chain[n - 1]
        invariant n > 0 ==> c in system.live
        invariant Linked(system.live, system.headers, chain[..n])
        invariant system.live == old(system.live) - Elements(chain[n..])
        decreases n
      {
        LinkedShrinks(system.live, system.headers, chain[..n]);
        assert chain[..n][..n - 1] == chain[..n - 1];
        FreedOneMore(old(system.live), chain, n - 1);
        var prev := system.headers[c].previous;
        system.Dealloc(c, system.headers[c].size);
        c := prev;
        n := n - 1;
      }
      assert chain[0..] == chain;
    }
  }

  // ---------- whole runs ----------

  datatype StackOp = PushBytes(size: nat) | PopLast

  /** The chain is what the stack holds beyond the blocks that were live before it. */
  ghost predicate Owned(before: map<nat, nat>, live: map<nat, nat>, chain: seq<nat>) {
    && (forall a | a in chain :: a !in before)
    && live - Elements(chain) == before
  }

  lemma OwnedGrows(before: map<nat, nat>, live: map<nat, nat>, chain: seq<nat>, a: nat, n: nat)
    requires Owned(before, live, chain) && a !in live
    ensures Owned(before, live[a := n], chain + [a])
  {
    assert Elements(chain + [a]) == Elements(chain) + {a};
    assert live[a := n] - (Elements(chain) + {a}) == live - Elements(chain);
  }

  lemma OwnedShrinks(before: map<nat, nat>, live: map<nat, nat>, chain: seq<nat>, n: nat)
    requires Owned(before, live, chain) && n <= |chain|
    ensures Owned(before, live - Elements(chain[n..]), chain[..n])
  {
    assert chain == chain[..n] + chain[n..];
    assert Elements(chain) == Elements(chain[n..]) + Elements(chain[..n]);
    assert live - Elements(chain[n..]) - Elements(chain[..n]) == live - Elements(chain);
  }

  /** The bases that a caller has been given and not yet popped are those of the live regions. */
  ghost predicate BasesOf(bases: seq<nat>, regions: seq<Region>) {
    |bases| == |regions| && forall i | 0 <= i < |bases| :: bases[i] == regions[i].base
  }

  /** One call of a caller that pops what it pushed, last first. A push that is too large panics and
      changes nothing. */
  method Call(s: Stack, op: StackOp, bases0: seq<nat>, ghost before: map<nat, nat>) returns (bases: seq<nat>)
    requires s.Valid() && BasesOf(bases0, s.regions) && Owned(before, s.system.live, s.chain)
    requires op.PushBytes? ==> AlignUp(op.size) <= ISIZE_MAX
    modifies s, s.system
    ensures s.Valid() && BasesOf(bases, s.regions) && Owned(before, s.system.live, s.chain)
  {
    hide Inv, Owned, Elements, Disjoint;
    bases := bases0;
    ghost var chain, live := s.chain, s.system.live;
    match op {
      case PushBytes(size) =>
        var r := s.Push(size);
        if r.Some? {
          bases := bases + [r.value];
          if s.chain != chain { OwnedGrows(before, live, chain, s.chunk, s.system.live[s.chunk]); }
        }
      case PopLast =>
        if bases != [] {
          s.Pop(bases[|bases| - 1]);
          bases := bases[..|bases| - 1];
          OwnedShrinks(before, live, chain, |s.chain|);
        }
    }
  }

  /** A stack that is made, used in any last-in first-out order and dropped, whatever was left on it,
      gives every chunk back: the system's live blocks are those from before. */
  method WholeRun(system: System, ops: seq<StackOp>)
    requires system.Valid()
    requires forall i | 0 <= i < |ops| && ops[i].PushBytes? :: AlignUp(ops[i].size) <= ISIZE_MAX
    modifies system
    ensures system.Valid() && system.live == old(system.live)
  {
    hide Inv, Owned, Elements, Disjoint;
    ghost var before := system.live;
    var s := new Stack(system);
    NothingOwned(before);
    OwnedGrows(before, before, [], s.chunk, MIN_CHUNK_SIZE);
    assert [] + [s.chunk] == s.chain;
    var bases: seq<nat> := [];
    for i := 0 to |ops|
      invariant fresh(s) && s.system == system
      invariant s.Valid() && BasesOf(bases, s.regions) && Owned(before, system.live, s.chain)
    {
      bases := Call(s, ops[i], bases, before);
    }
    ghost var live := system.live;
    s.Drop();
    AllGivenBack(before, live, s.chain);
  }

  lemma AllGivenBack(before: map<nat, nat>, live: map<nat, nat>, chain: seq<nat>)
    requires Owned(before, live, chain)
    ensures live - Elements(chain) == before
  {}

  lemma NothingOwned(before: map<nat, nat>)
    ensures Owned(before, before, [])
  {
    assert Elements([]) == {};
  }

  /** The last chunk of a chain links to the one before it, and can be freed. */
  lemma LinkedShrinks(live: map<nat, nat>, headers: map<nat, Header>, chain: seq<nat>)
    requires Linked(live, headers, chain) && chain != []
    ensures Linked(live - {chain[|chain| - 1]}, headers, chain[..|chain| - 1])
    ensures var n := |chain| - 1;
      && chain[n] in live && chain[n] in headers && headers[chain[n]].size == live[chain[n]]
      && headers[chain[n]].previous == (if n == 0 then 0 else chain[n - 1])
      && (n > 0 ==> chain[n - 1] in live - {chain[n]})
  {
    var n := |chain| - 1;
    var live' := live - {chain[n]};
    assert n > 0 ==> chain[n - 1] != chain[n];
    forall i | 0 <= i < n ensures chain[..n][i] in live' && live'[chain[i]] == live[chain[i]] {
      assert chain[i] != chain[n];
    }
  }

  lemma NoneFreed(live: map<nat, nat>, chain: seq<nat>)
    ensures live - Elements(chain[|chain|..]) == live
  {
    assert chain[|chain|..] == [];
  }

  lemma FreedOneMore(live: map<nat, nat>, chain: seq<nat>, n: nat)
    requires n < |chain|
    ensures live - Elements(chain[n + 1..]) - {chain[n]} == live - Elements(chain[n..])
  {
    assert chain[n..] == [chain[n]] + chain[n + 1..];
  }

  /** The address test finds the unique chunk that holds a region, although it includes the limit. */
  lemma InChunkTest(live: map<nat, nat>, headers: map<nat, Header>, chain: seq<nat>, regions: seq<Region>)
    requires Disjoint(live) && Chained(live, headers, chain, regions) && chain != [] && regions != []
    requires forall a | a in live :: a % ALIGN == 0
    ensures var c, r := chain[|chain| - 1], regions[|regions| - 1];
      r.depth < |chain| && (DataStart(c) <= r.base <= c + live[c] <==> r.depth == |chain| - 1)
  {
    var c, r := chain[|chain| - 1], regions[|regions| - 1];
    assert Inside(live, chain, r);
    if r.depth != |chain| - 1 {
      AreasApart(live, chain[r.depth], c, r.base);
    }
  }

  // ---------- the size of a new chunk ----------

  function Needed(alignedSize: nat): nat {
    alignedSize + MINIMUM_OVERHEAD + HEADER_SIZE + ALIGN
  }

  /** The largest power of two that a layout accepts. */
  const MAX_NEEDED: nat := 0x4000_0000_0000_0000

  /** Large enough, and either the minimum or less than twice the need. */
  ghost predicate FitsTightly(size: nat, needed: nat) {
    needed <= size && (size == MIN_CHUNK_SIZE || MIN_CHUNK_SIZE < size < 2 * needed)
  }

  lemma PowerValues()
    ensures Pow2(14) == MIN_CHUNK_SIZE && Pow2(62) == MAX_NEEDED && Pow2(63) == 2 * MAX_NEEDED
  {
    assert Pow2(4) == 16 && Pow2(10) == 1024;
    Pow2Splits(4, 14);
    Pow2Splits(10, 20);
    Pow2Splits(20, 30);
    Pow2Splits(30, 60);
    assert Pow2(62) == 2 * (2 * Pow2(60));
  }

  lemma PowerAligned(k: nat)
    requires k >= 4
    ensures Pow2(k) % ALIGN == 0
  {
    Pow2Splits(4, k);
    assert Pow2(4) == 16;
  }

  /** The minimum doubled until it is enough; None where `checked_mul` overflows. */
  method ChunkSize(needed: nat) returns (r: Option<nat>)
    requires 0 < needed <= USIZE_MAX
    ensures r == None <==> needed > 2 * MAX_NEEDED
    ensures r.Some? ==> FitsTightly(r.value, needed) && r.value % ALIGN == 0
    ensures r.Some? ==> (r.value <= ISIZE_MAX <==> needed <= MAX_NEEDED)
  {
    var chunkSize := MIN_CHUNK_SIZE;
    ghost var k := 14;
    PowerValues();
    while chunkSize < needed
      invariant 14 <= k <= 63 && chunkSize == Pow2(k)
      invariant k > 14 ==> Pow2(k - 1) < needed
      decreases 64 - k
    {
      if k < 63 { Pow2Grows(k + 1, 63); }
      if chunkSize * 2 > USIZE_MAX {
        return None;
      }
      chunkSize := chunkSize * 2;
      k := k + 1;
    }
    Doubled(k, needed);
    r := Some(chunkSize);
  }

  /** The first doubling that reaches the need. */
  lemma Doubled(k: nat, needed: nat)
    requires 14 <= k <= 63 && 0 < needed <= Pow2(k) && (k > 14 ==> Pow2(k - 1) < needed)
    ensures FitsTightly(Pow2(k), needed) && Pow2(k) % ALIGN == 0
    ensures needed <= 2 * MAX_NEEDED && (Pow2(k) <= ISIZE_MAX <==> needed <= MAX_NEEDED)
  {
    PowerValues();
    Pow2Grows(k, 63);
    PowerAligned(k);
    if k <= 62 { Pow2Grows(k, 62); }
    if k > 14 { Pow2Grows(14, k - 1); }
  }
}
