/**
 The fixed-block allocator: blocks are cut off a mapped region one after the other, and freed blocks
 form a list whose links lie in the blocks themselves.
 */
module ObjPools {
  import opened Prelude

  /** 132 * 1024 * 20 */
  const MMAP_SIZE: nat := 2703360
  const LINK_SIZE: nat := 8
  const COUNT: nat := 0x1_0000_0000

  /** The pointer stored at an address. Only words at the starts of blocks are ever looked at, so words
      that overlap are of no concern. */
  function Word(mem: map<nat, nat>, a: nat): nat {
    if a in mem then mem[a] else 0
  }

  /** The fields of the pool, and the memory; 0 is the null pointer. The size of an object is at least
      that of a pointer. */
  datatype Pool = Pool(size: nat, memory: nat, freeCapacity: nat, freeList: nat,
                       mmaps: nat, hits: nat, frees: nat, mem: map<nat, nat>)

  function Fresh(objectSize: nat): Pool {
    Pool(if objectSize > LINK_SIZE then objectSize else LINK_SIZE, 0, 0, 0, 0, 0, 0, map[])
  }

  /** `New`, when `mmap` returns `base` if it is called: 0 if it fails. No result is the exception. */
  function New(p: Pool, base: nat): (Option<nat>, Pool) {
    if p.freeList != 0 then
      (Some(p.freeList), p.(freeList := Word(p.mem, p.freeList), hits := (p.hits + 1) % COUNT))
    else if p.freeCapacity < p.size then
      var q := p.(freeCapacity := MMAP_SIZE, memory := base, mmaps := (p.mmaps + 1) % COUNT);
      if base == 0 then (None, q) else (Some(base), Bump(q))
    else (Some(p.memory), Bump(p))
  }

  function Bump(p: Pool): Pool {
    p.(memory := p.memory + p.size, freeCapacity := (p.freeCapacity - p.size) % WORD)
  }

  function Delete(p: Pool, ptr: nat): Pool {
    p.(mem := p.mem[ptr := p.freeList], freeList := ptr, frees := (p.frees + 1) % COUNT)
  }

  // ---------------------------------------------------------------------------------------
  // The pool among its clients
  // ---------------------------------------------------------------------------------------

  /** The memory that blocks are cut from: none so far; the last region, k blocks of which are cut off; or,
      as the last `mmap` failed, a whole region that the fields claim at the null pointer, where nothing is
      mapped and k bogus blocks are cut off. */
  datatype Rest = Unmapped | Region(k: nat) | Bogus(k: nat)

  /** The pool, the blocks its clients hold, the freed blocks from the last one freed on, the regions
      mapped and what is cut now, how many blocks were cut off regions, how many bogus ones were handed
      out, and how many calls of `mmap` failed. Bogus blocks are not live: the first use of one ends the
      process. */
  datatype World = World(pool: Pool, live: set<nat>, free: seq<nat>, regions: seq<nat>, rest: Rest,
                         cut: nat, bogus: nat, failed: nat)

  predicate Apart(a: nat, b: nat, size: nat) {
    a + size <= b || b + size <= a
  }

  predicate InRegions(b: nat, size: nat, regions: seq<nat>) {
    exists i :: 0 <= i < |regions| && regions[i] <= b && b + size <= regions[i] + MMAP_SIZE
  }

  function Members(s: seq<nat>): set<nat> {
    set x | x in s
  }

  function Blocks(w: World): set<nat> {
    w.live + Members(w.free)
  }

  /** No two blocks overlap, and all lie in mapped memory. */
  predicate Separate(blocks: set<nat>, size: nat, regions: seq<nat>) {
    && (forall a, b | a in blocks && b in blocks && a != b :: Apart(a, b, size))
    && (forall b | b in blocks :: b > 0 && InRegions(b, size, regions))
  }

  /** A block is live or once in the free list. */
  predicate Split(live: set<nat>, free: seq<nat>) {
    && live !! Members(free)
    && (forall i, j | 0 <= i < j < |free| :: free[i] != free[j])
  }

  function Head(free: seq<nat>): nat {
    if free == [] then 0 else free[0]
  }

  /** The links in the freed blocks lead through them in order and end in the null pointer. */
  predicate Linked(mem: map<nat, nat>, free: seq<nat>) {
    forall i | 0 <= i < |free| :: Word(mem, free[i]) == Head(free[i + 1..])
  }

  predicate RegionsApart(regions: seq<nat>) {
    && (forall i, j | 0 <= i < j < |regions| :: Apart(regions[i], regions[j], MMAP_SIZE))
    && (forall i | 0 <= i < |regions| :: 0 < regions[i] && regions[i] + MMAP_SIZE < WORD)
  }

  /** Blocks cut out of one region. */
  function PerRegion(size: nat): nat
    requires size > 0
  {
    MMAP_SIZE / size
  }

  /** Off the MMAP_SIZE bytes at base, k blocks are cut, and the fields say what is left. */
  predicate CutFrom(base: nat, k: nat, memory: nat, rest: nat, size: nat) {
    size > 0 && k <= PerRegion(size) && memory == base + k * size && rest == MMAP_SIZE - k * size
  }

  /** What is left of the last region is apart from all blocks. */
  predicate RestApart(blocks: set<nat>, memory: nat, rest: nat, size: nat, regions: seq<nat>, from: Rest) {
    match from
    case Unmapped => memory == 0 && rest == 0 && regions == []
    case Bogus(k) => CutFrom(0, k, memory, rest, size)
    case Region(k) =>
      && |regions| > 0 && k >= 1 && CutFrom(regions[|regions| - 1], k, memory, rest, size)
      && forall b | b in blocks :: b + size <= memory || memory + rest <= b
  }

  /** Every block cut is live or free; the free list is as long as frees exceed hits; and regions, mapped
      or not, are cut up before the next call of `mmap`. */
  predicate Counted(w: World) {
    var p := w.pool;
    && w.cut == |w.live| + |w.free|
    && p.mmaps == (|w.regions| + w.failed) % COUNT
    && (p.hits + |w.free|) % COUNT == p.frees % COUNT
    && p.size > 0 && CutUp(w.rest, w.cut, w.bogus, w.failed, |w.regions|, PerRegion(p.size))
  }

  /** Of n regions mapped and some more that were not, all but the one being cut are cut up. */
  predicate CutUp(from: Rest, cut: nat, bogus: nat, failed: nat, n: nat, per: nat) {
    match from
    case Unmapped => n == 0 && cut == 0 && bogus == 0 && failed == 0
    case Region(k) => n > 0 && cut == (n - 1) * per + k && bogus == failed * per
    case Bogus(k) => failed > 0 && cut == n * per && bogus == (failed - 1) * per + k
  }

  predicate Inv(w: World) {
    var p := w.pool;
    && LINK_SIZE <= p.size <= MMAP_SIZE && p.freeList == Head(w.free)
    && Separate(Blocks(w), p.size, w.regions) && Split(w.live, w.free) && Linked(p.mem, w.free)
    && RegionsApart(w.regions) && Counted(w)
    && RestApart(Blocks(w), p.memory, p.freeCapacity, p.size, w.regions, w.rest)
  }

  /** What happens to the pool: an allocation, a block given back, or clients writing. */
  datatype Event = Alloc(base: nat) | Free(ptr: nat) | Write(mem: map<nat, nat>)

  /** What the surroundings promise: `mmap` maps fresh memory or fails, clients give back what they
      hold, and write only into blocks they hold. */
  ghost predicate Enabled(w: World, e: Event) {
    match e
    case Alloc(base) => base != 0 ==> RegionsApart(w.regions + [base])
    case Free(ptr) => ptr in w.live
    case Write(mem) => forall a | Outside(w.live, w.pool.size, a) :: Word(mem, a) == Word(w.pool.mem, a)
  }

  /** The word at a touches no block in use. */
  predicate Outside(live: set<nat>, size: nat, a: nat) {
    forall b | b in live :: a + LINK_SIZE <= b || b + size <= a
  }

  function Next(w: World, e: Event): World {
    match e
    case Alloc(base) =>
      var (r, p) := New(w.pool, base);
      if w.pool.freeList != 0 && w.free != [] then
        w.(pool := p, live := w.live + {w.free[0]}, free := w.free[1..])
      else if w.pool.freeCapacity < w.pool.size then
        if base == 0 then w.(pool := p, rest := Bogus(0), failed := w.failed + 1)
        else w.(pool := p, live := w.live + {base}, regions := w.regions + [base], rest := Region(1), cut := w.cut + 1)
      else if w.rest.Region? then
        w.(pool := p, live := w.live + {w.pool.memory}, rest := Region(w.rest.k + 1), cut := w.cut + 1)
      else w.(pool := p, rest := Bogus(if w.rest.Bogus? then w.rest.k + 1 else 1), bogus := w.bogus + 1)
    case Free(ptr) => w.(pool := Delete(w.pool, ptr), live := w.live - {ptr}, free := [ptr] + w.free)
    case Write(mem) => w.(pool := w.pool.(mem := mem))
  }

  function Start(objectSize: nat): World {
    World(Fresh(objectSize), {}, [], [], Unmapped, 0, 0, 0)
  }

  lemma StartInv(objectSize: nat)
    requires objectSize <= MMAP_SIZE
    ensures Inv(Start(objectSize))
  {
  }

  // ---------------------------------------------------------------------------------------
  // Every event keeps the invariant
  // ---------------------------------------------------------------------------------------

  lemma WriteKeepsInv(w: World, mem: map<nat, nat>)
    requires Inv(w) && Enabled(w, Write(mem))
    ensures Inv(Next(w, Write(mem)))
  {
    hide Linked, Separate, Split, RegionsApart, RestApart;
    WriteKeepsLinks(w.pool.mem, mem, w.live, w.free, w.pool.size, Blocks(w), w.regions);
    assert Blocks(Next(w, Write(mem))) == Blocks(w);
  }

  /** Writing into live blocks keeps the links in the freed ones. */
  lemma WriteKeepsLinks(mem: map<nat, nat>, mem': map<nat, nat>, live: set<nat>, free: seq<nat>, size: nat,
                        blocks: set<nat>, regions: seq<nat>)
    requires Linked(mem, free) && Split(live, free) && blocks == live + Members(free)
    requires size >= LINK_SIZE && Separate(blocks, size, regions)
    requires forall a | Outside(live, size, a) :: Word(mem', a) == Word(mem, a)
    ensures Linked(mem', free)
  {
    forall i | 0 <= i < |free| ensures Word(mem', free[i]) == Head(free[i + 1..]) {
      assert free[i] in Members(free);
      assert Outside(live, size, free[i]);
    }
  }

  lemma FreeKeepsInv(w: World, ptr: nat)
    requires Inv(w) && Enabled(w, Free(ptr))
    ensures Inv(Next(w, Free(ptr)))
  {
    hide Linked, Separate, Split, RegionsApart, RestApart, Counted;
    var w' := Next(w, Free(ptr));
    FreeKeepsCount(w, ptr);
    FreeKeepsLinks(w.pool.mem, w.live, w.free, ptr);
    assert Blocks(w') == Blocks(w);
  }

  lemma FreeKeepsCount(w: World, ptr: nat)
    requires Counted(w) && ptr in w.live
    ensures Counted(Next(w, Free(ptr)))
  {
    StepCount(w.pool.hits + |w.free|, w.pool.frees);
  }

  lemma StepCount(x: nat, y: nat)
    requires x % COUNT == y % COUNT
    ensures (x + 1) % COUNT == ((y + 1) % COUNT) % COUNT
  {
    AddCount(x);
    AddCount(y);
  }

  lemma FreeKeepsLinks(mem: map<nat, nat>, live: set<nat>, free: seq<nat>, ptr: nat)
    requires Linked(mem, free) && Split(live, free) && ptr in live
    ensures Linked(mem[ptr := Head(free)], [ptr] + free) && Split(live - {ptr}, [ptr] + free)
    ensures Members([ptr] + free) == Members(free) + {ptr}
  {
  }

  /** The head of the list is taken, and the link in it is the rest of the list. */
  lemma ReuseKeepsInv(w: World, base: nat)
    requires Inv(w) && Enabled(w, Alloc(base)) && w.free != []
    ensures New(w.pool, base).0 == Some(w.free[0]) && w.free[0] !in w.live && Inv(Next(w, Alloc(base)))
  {
    hide Linked, Separate, Split, RegionsApart, RestApart, Counted;
    HeadIsBlock(Blocks(w), w.pool.size, w.regions, w.free[0]);
    ReuseKeepsLinks(w.pool.mem, w.live, w.free);
    ReuseKeepsCount(w, base);
    assert Blocks(Next(w, Alloc(base))) == Blocks(w);
  }

  lemma HeadIsBlock(blocks: set<nat>, size: nat, regions: seq<nat>, b: nat)
    requires Separate(blocks, size, regions) && b in blocks
    ensures b > 0
  {
  }

  lemma ReuseKeepsLinks(mem: map<nat, nat>, live: set<nat>, free: seq<nat>)
    requires Linked(mem, free) && Split(live, free) && free != []
    ensures Word(mem, free[0]) == Head(free[1..])
    ensures Linked(mem, free[1..]) && Split(live + {free[0]}, free[1..])
    ensures free[0] !in live && free[0] in Members(free) && Members(free) == Members(free[1..]) + {free[0]}
  {
  }

  lemma ReuseKeepsCount(w: World, base: nat)
    requires Counted(w) && Split(w.live, w.free) && w.free != [] && w.pool.freeList != 0
    ensures Counted(Next(w, Alloc(base)))
  {
    assert w.free[0] in Members(w.free);
    TakeCount(w.pool.hits, |w.free| - 1);
  }

  lemma TakeCount(hits: nat, free: nat)
    ensures ((hits + 1) % COUNT + free) % COUNT == (hits + free + 1) % COUNT
  {
  }

  /** A block cut off a region lies in what was unused of it. */
  lemma CutKeepsInv(w: World, base: nat)
    requires Inv(w) && w.free == [] && w.pool.freeCapacity >= w.pool.size && w.rest.Region?
    ensures New(w.pool, base).0 == Some(w.pool.memory) && w.pool.memory !in w.live
    ensures forall b | b in w.live :: Apart(b, w.pool.memory, w.pool.size)
    ensures Inv(Next(w, Alloc(base)))
  {
    hide Linked, Separate, Split, RegionsApart, RestApart, InRegions, Counted, CutUp, New, Next;
    var p, b := w.pool, w.pool.memory;
    assert Members(w.free) == {} && Blocks(w) == w.live;
    RestCut(w.live, b, p.freeCapacity, p.size, w.regions, w.rest.k);
    SeparateMore(w.live, b, p.size, w.regions, w.regions);
    SplitMore(w.live, b);
    NextCut(w, base);
    CutKeepsCount(w, base);
    assert Blocks(Next(w, Alloc(base))) == w.live + {b};
  }

  lemma NextCut(w: World, base: nat)
    requires w.pool.freeList == 0 && w.pool.size <= w.pool.freeCapacity < WORD && w.rest.Region?
    ensures New(w.pool, base).0 == Some(w.pool.memory)
    ensures Next(w, Alloc(base))
            == w.(pool := w.pool.(memory := w.pool.memory + w.pool.size,
                                  freeCapacity := w.pool.freeCapacity - w.pool.size),
                  live := w.live + {w.pool.memory}, rest := Region(w.rest.k + 1), cut := w.cut + 1)
  {
  }

  /** A block cut off the unused rest, and the rest that is left. */
  lemma RestCut(blocks: set<nat>, memory: nat, rest: nat, size: nat, regions: seq<nat>, k: nat)
    requires RestApart(blocks, memory, rest, size, regions, Region(k)) && RegionsApart(regions)
    requires 0 < size <= rest
    ensures memory > 0 && memory !in blocks && (forall b | b in blocks :: Apart(b, memory, size))
    ensures InRegions(memory, size, regions)
    ensures RestApart(blocks + {memory}, memory + size, rest - size, size, regions, Region(k + 1)) && rest < WORD
  {
    var r := |regions| - 1;
    OneMore(regions[r], k, memory, rest, size);
    assert regions[r] <= memory && memory + size <= regions[r] + MMAP_SIZE;
  }

  lemma OneMore(base: nat, k: nat, memory: nat, rest: nat, size: nat)
    requires CutFrom(base, k, memory, rest, size)
    ensures base <= memory && memory + rest == base + MMAP_SIZE
    ensures rest >= size <==> k < PerRegion(size)
    ensures rest >= size ==> CutFrom(base, k + 1, memory + size, rest - size, size)
  {
    assert (k + 1) * size == k * size + size;
    Quotient(k + 1, size, MMAP_SIZE);
  }

  lemma SplitMore(live: set<nat>, b: nat)
    requires Split(live, [])
    ensures Split(live + {b}, [])
  {
  }

  lemma SeparateMore(blocks: set<nat>, b: nat, size: nat, regions: seq<nat>, regions': seq<nat>)
    requires Separate(blocks, size, regions) && regions <= regions' && b > 0 && InRegions(b, size, regions')
    requires forall a | a in blocks :: Apart(a, b, size)
    ensures Separate(blocks + {b}, size, regions')
  {
  }

  lemma CutKeepsCount(w: World, base: nat)
    requires Counted(w) && w.pool.freeList == 0 && w.rest.Region?
    requires w.pool.memory !in w.live && w.pool.size <= w.pool.freeCapacity < WORD
    ensures Counted(Next(w, Alloc(base)))
  {
    NextCut(w, base);
  }

  /** Behind a failed `mmap` the pool cuts blocks where nothing is mapped; all else stays as it was. */
  lemma BogusKeepsInv(w: World, base: nat)
    requires Inv(w) && w.free == [] && w.pool.freeCapacity >= w.pool.size && !w.rest.Region?
    ensures w.rest.Bogus? && New(w.pool, base).0 == Some(w.pool.memory)
    ensures Next(w, Alloc(base)).live == w.live && Inv(Next(w, Alloc(base)))
  {
    hide Linked, Separate, Split, RegionsApart, PerRegion, CutFrom, New, Next;
    var p := w.pool;
    OneMore(0, w.rest.k, p.memory, p.freeCapacity, p.size);
    NextBogus(w, base);
    assert Blocks(Next(w, Alloc(base))) == Blocks(w);
  }

  lemma Quotient(k: nat, size: nat, total: nat)
    requires size > 0
    ensures k * size <= total <==> k <= total / size
  {
    var q := total / size;
    assert total == q * size + total % size;
    if k <= q {
      assert k * size <= q * size;
    } else {
      assert k * size >= (q + 1) * size == q * size + size;
    }
  }

  lemma NextBogus(w: World, base: nat)
    requires w.pool.freeList == 0 && w.pool.size <= w.pool.freeCapacity < WORD && w.rest.Bogus?
    ensures New(w.pool, base).0 == Some(w.pool.memory)
    ensures Next(w, Alloc(base))
            == w.(pool := w.pool.(memory := w.pool.memory + w.pool.size,
                                  freeCapacity := w.pool.freeCapacity - w.pool.size),
                  rest := Bogus(w.rest.k + 1), bogus := w.bogus + 1)
  {
  }

  lemma MapKeepsInv(w: World, base: nat)
    requires Inv(w) && Enabled(w, Alloc(base)) && w.free == [] && w.pool.freeCapacity < w.pool.size && base != 0
    ensures New(w.pool, base).0 == Some(base) && base !in w.live
    ensures forall b | b in w.live :: Apart(b, base, w.pool.size)
    ensures Inv(Next(w, Alloc(base)))
  {
    hide Linked, Separate, Split, Counted, RegionsApart, RestApart, InRegions, New, Next;
    var p := w.pool;
    var regions' := w.regions + [base];
    NextMap(w, base);
    assert Members(w.free) == {} && Blocks(w) == w.live;
    UpToFull(w);
    NewRegion(w.live, p.size, w.regions, base);
    SeparateMore(w.live, base, p.size, w.regions, regions');
    SplitMore(w.live, base);
    MapKeepsCount(w, base);
    assert Blocks(Next(w, Alloc(base))) == w.live + {base};
  }

  lemma NextMap(w: World, base: nat)
    requires w.pool.freeList == 0 && w.pool.freeCapacity < w.pool.size <= MMAP_SIZE && base != 0
    ensures New(w.pool, base).0 == Some(base)
    ensures Next(w, Alloc(base))
            == w.(pool := w.pool.(memory := base + w.pool.size, freeCapacity := MMAP_SIZE - w.pool.size,
                                  mmaps := (w.pool.mmaps + 1) % COUNT),
                  live := w.live + {base}, regions := w.regions + [base], rest := Region(1), cut := w.cut + 1)
  {
  }

  /** `mmap` is called only when what was there before is cut up. */
  lemma UpToFull(w: World)
    requires Inv(w) && w.pool.freeCapacity < w.pool.size
    ensures var per := PerRegion(w.pool.size); w.cut == |w.regions| * per && w.bogus == w.failed * per
  {
    hide Linked, Separate, Split, RegionsApart;
    var p, per := w.pool, PerRegion(w.pool.size);
    match w.rest
    case Unmapped =>
    case Bogus(k) =>
      OneMore(0, k, p.memory, p.freeCapacity, p.size);
      AllOf(w.failed, per);
    case Region(k) =>
      OneMore(w.regions[|w.regions| - 1], k, p.memory, p.freeCapacity, p.size);
      AllOf(|w.regions|, per);
  }

  lemma AllOf(n: nat, per: nat)
    requires n > 0
    ensures (n - 1) * per + per == n * per
  {
  }

  /** A region apart from those mapped before is apart from all blocks. */
  lemma NewRegion(blocks: set<nat>, size: nat, regions: seq<nat>, base: nat)
    requires Separate(blocks, size, regions) && RegionsApart(regions + [base]) && 0 < size <= MMAP_SIZE
    ensures RegionsApart(regions) && 0 < base && base !in blocks
    ensures forall b | b in blocks :: b + size <= base || base + MMAP_SIZE <= b
    ensures InRegions(base, size, regions + [base])
    ensures RestApart(blocks + {base}, base + size, MMAP_SIZE - size, size, regions + [base], Region(1))
  {
    Quotient(1, size, MMAP_SIZE);
    var all := regions + [base];
    assert all[|regions|] == base;
    forall i | 0 <= i < |regions| ensures regions[i] == all[i] {
    }
    forall b | b in blocks ensures b + size <= base || base + MMAP_SIZE <= b {
      var i :| 0 <= i < |regions| && regions[i] <= b && b + size <= regions[i] + MMAP_SIZE;
      assert Apart(all[i], all[|regions|], MMAP_SIZE);
    }
  }

  lemma MapKeepsCount(w: World, base: nat)
    requires Counted(w) && w.pool.freeList == 0 && w.pool.freeCapacity < w.pool.size && base != 0 && base !in w.live
    requires var per := PerRegion(w.pool.size); w.cut == |w.regions| * per && w.bogus == w.failed * per
    ensures Counted(Next(w, Alloc(base)))
  {
    AddCount(|w.regions| + w.failed);
  }

  lemma AddCount(x: nat)
    ensures (x % COUNT + 1) % COUNT == (x + 1) % COUNT
  {
  }

  lemma FailKeepsInv(w: World)
    requires Inv(w) && w.free == [] && w.pool.freeCapacity < w.pool.size
    ensures New(w.pool, 0).0 == None && Inv(Next(w, Alloc(0)))
  {
    hide Linked, Separate, Split, RegionsApart;
    UpToFull(w);
    AddCount(|w.regions| + w.failed);
    assert Blocks(Next(w, Alloc(0))) == Blocks(w);
  }

  /** Every event keeps the invariant. */
  lemma StepKeepsInv(w: World, e: Event)
    requires Inv(w) && Enabled(w, e)
    ensures Inv(Next(w, e))
  {
    hide Linked, Separate, Split, RegionsApart, Counted, RestApart;
    match e
    case Free(ptr) => FreeKeepsInv(w, ptr);
    case Write(mem) => WriteKeepsInv(w, mem);
    case Alloc(base) =>
      if w.free != [] {
        ReuseKeepsInv(w, base);
      } else if w.pool.freeCapacity >= w.pool.size {
        if w.rest.Region? {
          CutKeepsInv(w, base);
        } else {
          BogusKeepsInv(w, base);
        }
      } else if base != 0 {
        MapKeepsInv(w, base);
      } else {
        FailKeepsInv(w);
      }
  }

  // ---------------------------------------------------------------------------------------
  // What the pool promises
  // ---------------------------------------------------------------------------------------

  /** What New would do next: cut a bogus block. The unused rest then ends where a region at the null
      pointer would. */
  predicate BogusNext(p: Pool) {
    p.freeList == 0 && p.freeCapacity >= p.size && p.memory + p.freeCapacity == MMAP_SIZE
  }

  /** An allocation raises the exception exactly if `mmap` is needed and fails. Otherwise it gives a block
      of mapped memory that overlaps no block in use, unless it gives a bogus one. */
  lemma AllocIsSafe(w: World, base: nat, r: Option<nat>, p: Pool)
    requires Inv(w) && Enabled(w, Alloc(base)) && (r, p) == New(w.pool, base)
    ensures r.None? <==> w.free == [] && w.pool.freeCapacity < w.pool.size && base == 0
    ensures r.Some? && !BogusNext(w.pool) ==>
              && r.value > 0 && InRegions(r.value, w.pool.size, Next(w, Alloc(base)).regions)
              && r.value !in w.live && forall b | b in w.live :: Apart(b, r.value, w.pool.size)
    ensures p == Next(w, Alloc(base)).pool
  {
    hide Linked, Split, RegionsApart, Counted, RestApart, CutFrom, BogusNext;
    var w' := Next(w, Alloc(base));
    StepKeepsInv(w, Alloc(base));
    WhenBogus(w);
    if w.free != [] {
      ReuseKeepsInv(w, base);
      assert w.free[0] in Members(w.free) && w.free[0] in Blocks(w);
    } else if w.pool.freeCapacity < w.pool.size {
      if base != 0 {
        MapKeepsInv(w, base);
      }
    } else if w.rest.Region? {
      CutKeepsInv(w, base);
    } else {
      BogusKeepsInv(w, base);
    }
    assert r.Some? && !BogusNext(w.pool) ==> r.value in Blocks(w');
  }

  /** The fields of the pool tell whether the next block is a bogus one. */
  lemma WhenBogus(w: World)
    requires Inv(w)
    ensures BogusNext(w.pool) <==> w.free == [] && w.rest.Bogus? && w.rest.k < PerRegion(w.pool.size)
    ensures w.pool.freeCapacity < w.pool.size <==> w.rest.Unmapped? || w.rest.k == PerRegion(w.pool.size)
    ensures w.rest.Unmapped? || w.rest.k <= PerRegion(w.pool.size)
    ensures w.pool.freeList == 0 <==> w.free == []
  {
    hide Linked, Split, Counted;
    var p := w.pool;
    if w.free != [] {
      assert w.free[0] in Blocks(w);
    }
    match w.rest
    case Unmapped =>
    case Bogus(k) => OneMore(0, k, p.memory, p.freeCapacity, p.size);
    case Region(k) => OneMore(w.regions[|w.regions| - 1], k, p.memory, p.freeCapacity, p.size);
  }

  /** The address of the k-th bogus block. */
  function Times(k: nat, size: nat): nat {
    k * size
  }

  /** `mmap` maps nothing in the MMAP_SIZE bytes from the null pointer on. */
  predicate AboveBogus(regions: seq<nat>) {
    forall i | 0 <= i < |regions| :: regions[i] >= MMAP_SIZE
  }

  /** The promise fails behind a failed `mmap`, in every run. Until the next call of `mmap` the pool hands
      out the address of the k-th bogus block if the free list is empty and k is less than the blocks of a
      region; and `mmap` is called again exactly if the free list is empty and that many were handed out. */
  lemma BogusExactly(w: World, base: nat, r: Option<nat>, p: Pool)
    requires Inv(w) && (r, p) == New(w.pool, base)
    ensures BogusNext(w.pool) <==> w.free == [] && w.rest.Bogus? && w.rest.k < PerRegion(w.pool.size)
    ensures BogusNext(w.pool) ==> r == Some(Times(w.rest.k, w.pool.size)) && p.mmaps == w.pool.mmaps
    ensures BogusNext(w.pool) && AboveBogus(w.regions) ==> !InRegions(r.value, w.pool.size, w.regions)
    ensures w.rest.Bogus? ==>
              (p.mmaps != w.pool.mmaps <==> w.free == [] && w.rest.k == PerRegion(w.pool.size))
  {
    hide Linked, Separate, Split, RegionsApart, Counted;
    WhenBogus(w);
    Wraps(w.pool);
    if BogusNext(w.pool) {
      OneMore(0, w.rest.k, w.pool.memory, w.pool.freeCapacity, w.pool.size);
    }
  }

  /** The counter of `mmap` calls wraps, but no call leaves it as it was. */
  lemma Wraps(p: Pool)
    ensures (p.mmaps + 1) % COUNT != p.mmaps
  {
  }

  /** The results of one allocation after the other, and the pool then. */
  function AllocAll(p: Pool, bases: seq<nat>): (seq<Option<nat>>, Pool)
    decreases |bases|
  {
    if bases == [] then ([], p)
    else
      var (r, q) := New(p, bases[0]);
      var (rs, q') := AllocAll(q, bases[1..]);
      ([r] + rs, q')
  }

  /** After any run that ends in a failed `mmap` the next allocations, if nothing is given back, are
      answered by the bogus addresses in order, whatever `mmap` would give; after a whole region of them
      `mmap` is called again. */
  lemma {:induction false} BogusRun(w: World, bases: seq<nat>, rs: seq<Option<nat>>, p: Pool)
    requires Inv(w) && w.free == [] && w.rest.Bogus? && (rs, p) == AllocAll(w.pool, bases)
    requires w.rest.k + |bases| <= PerRegion(w.pool.size)
    ensures |rs| == |bases| && forall i | 0 <= i < |rs| :: rs[i] == Some(Times(w.rest.k + i, w.pool.size))
    ensures p.mmaps == w.pool.mmaps
    ensures w.rest.k + |bases| == PerRegion(w.pool.size) ==>
              forall base: nat :: New(p, base).0 == (if base == 0 then None else Some(base))
                                  && New(p, base).1.mmaps == (p.mmaps + 1) % COUNT
    decreases |bases|
  {
    hide Inv;
    WhenBogus(w);
    if bases != [] {
      var (r, q) := New(w.pool, bases[0]);
      BogusExactly(w, bases[0], r, q);
      BogusStep(w, bases[0]);
      BogusRun(Next(w, Alloc(bases[0])), bases[1..], rs[1..], p);
    }
  }

  lemma BogusStep(w: World, base: nat)
    requires Inv(w) && BogusNext(w.pool) && w.rest.Bogus? && w.free == []
    ensures var w' := Next(w, Alloc(base));
            && Inv(w') && w'.free == [] && w'.rest == Bogus(w.rest.k + 1) && w'.pool == New(w.pool, base).1
            && w'.pool.size == w.pool.size && w'.pool.mmaps == w.pool.mmaps
  {
    hide Inv;
    BogusKeepsInv(w, base);
  }

  /** Objects of 64 bytes: after a first `mmap` that fails, `New` hands out the addresses 0, 64, 128 and so
      on 42240 times, though `mmap` would map memory again; only then it does. */
  lemma BogusExample(bases: seq<nat>, rs: seq<Option<nat>>, p: Pool)
    requires |bases| == 42240 && (rs, p) == AllocAll(Next(Start(64), Alloc(0)).pool, bases)
    ensures |rs| == 42240 && (forall i | 0 <= i < 42240 :: rs[i] == Some(64 * i))
    ensures p.mmaps == 1 && New(p, 0x10_0000_0000).0 == Some(0x10_0000_0000) && New(p, 0x10_0000_0000).1.mmaps == 2
  {
    hide Inv;
    var w := Next(Start(64), Alloc(0));
    StartInv(64);
    FailKeepsInv(Start(64));
    BogusRun(w, bases, rs, p);
  }

  /** The first block of a region lies in the region exactly if an object is no bigger than a region:
      nothing checks the size. */
  lemma FitsExactly(objectSize: nat, base: nat)
    requires base > 0
    ensures InRegions(base, Fresh(objectSize).size, Next(Start(objectSize), Alloc(base)).regions)
            <==> objectSize <= 132 * 1024 * 20
  {
    var regions := Next(Start(objectSize), Alloc(base)).regions;
    assert regions[0] == base;
  }

  /** Giving a block back and allocating gives the same block and the same pool but for the counters
      and the link left in the block. */
  lemma FreeThenAlloc(w: World, ptr: nat, base: nat)
    requires Inv(w) && ptr in w.live
    ensures var p := New(Delete(w.pool, ptr), base);
            p.0 == Some(ptr)
            && p.1 == w.pool.(mem := p.1.mem, hits := p.1.hits, frees := p.1.frees)
            && forall a | a != ptr :: Word(p.1.mem, a) == Word(w.pool.mem, a)
  {
    assert ptr in Blocks(w);
  }

  /** The pointer n links behind p. */
  function Walk(mem: map<nat, nat>, p: nat, n: nat): nat
    decreases n
  {
    if n == 0 || p == 0 then p else Walk(mem, Word(mem, p), n - 1)
  }

  /** The list is acyclic: walking it visits every freed block once and ends in null. */
  lemma ListIsAcyclic(w: World)
    requires Inv(w)
    ensures forall i | 0 <= i < |w.free| :: Walk(w.pool.mem, w.pool.freeList, i) == w.free[i]
    ensures Walk(w.pool.mem, w.pool.freeList, |w.free|) == 0
    ensures forall i, j | 0 <= i < j < |w.free| :: w.free[i] != w.free[j]
  {
    assert forall i | 0 <= i < |w.free| :: w.free[i] in Members(w.free) && w.free[i] in Blocks(w);
    forall i | 0 <= i < |w.free| ensures Walk(w.pool.mem, w.pool.freeList, i) == w.free[i] {
      WalkIs(w.pool.mem, w.free, i);
    }
    WalkIs(w.pool.mem, w.free, |w.free|);
  }

  lemma {:induction false} WalkIs(mem: map<nat, nat>, free: seq<nat>, n: nat)
    requires Linked(mem, free) && n <= |free| && forall i | 0 <= i < |free| :: free[i] > 0
    ensures Walk(mem, Head(free), n) == if n < |free| then free[n] else 0
    decreases n
  {
    if n > 0 {
      var rest := free[1..];
      forall i | 0 <= i < |rest| ensures Word(mem, rest[i]) == Head(rest[i + 1..]) {
        assert rest[i] == free[i + 1] && rest[i + 1..] == free[i + 2..];
      }
      WalkIs(mem, rest, n - 1);
    }
  }

  ghost predicate AllEnabled(w: World, events: seq<Event>)
    decreases |events|
  {
    events == [] || (Enabled(w, events[0]) && AllEnabled(Next(w, events[0]), events[1..]))
  }

  function Run(w: World, events: seq<Event>): World
    decreases |events|
  {
    if events == [] then w else Run(Next(w, events[0]), events[1..])
  }

  lemma {:induction false} RunKeepsInv(w: World, events: seq<Event>)
    requires Inv(w) && AllEnabled(w, events)
    ensures Inv(Run(w, events))
    decreases |events|
  {
    if events != [] {
      StepKeepsInv(w, events[0]);
      RunKeepsInv(Next(w, events[0]), events[1..]);
    }
  }

  lemma {:induction false} RunKeepsSize(w: World, events: seq<Event>)
    ensures Run(w, events).pool.size == w.pool.size
    decreases |events|
  {
    if events != [] {
      RunKeepsSize(Next(w, events[0]), events[1..]);
    }
  }

  /** In every run of a pool for objects of objectSize bytes there is room in every block, in use or freed,
      for an object and for a link, and blocks are no bigger than that: objects and links in different
      blocks do not overlap, and all of them lie in mapped memory. */
  lemma ObjectsFit(objectSize: nat, events: seq<Event>, w: World)
    requires objectSize <= MMAP_SIZE && AllEnabled(Start(objectSize), events) && w == Run(Start(objectSize), events)
    ensures w.pool.size >= objectSize && w.pool.size >= 8 && (w.pool.size == objectSize || w.pool.size == 8)
    ensures forall a, b | a in Blocks(w) && b in Blocks(w) && a != b :: Apart(a, b, objectSize) && Apart(a, b, 8)
    ensures forall b | b in Blocks(w) :: InRegions(b, objectSize, w.regions) && InRegions(b, 8, w.regions)
  {
    hide Linked, Split, RegionsApart, Counted, RestApart, Blocks, InRegions;
    StartInv(objectSize);
    RunKeepsInv(Start(objectSize), events);
    RunKeepsSize(Start(objectSize), events);
    forall b | b in Blocks(w) ensures InRegions(b, objectSize, w.regions) && InRegions(b, 8, w.regions) {
      SmallerFits(b, objectSize, w.pool.size, w.regions);
      SmallerFits(b, 8, w.pool.size, w.regions);
    }
  }

  lemma SmallerFits(b: nat, size: nat, bigger: nat, regions: seq<nat>)
    requires InRegions(b, bigger, regions) && size <= bigger
    ensures InRegions(b, size, regions)
  {
  }

  function Frees(events: seq<Event>): nat {
    if events == [] then 0 else (if events[0].Free? then 1 else 0) + Frees(events[1..])
  }

  /** The counter of blocks given back counts them, in 32 bits. */
  lemma {:induction false} FreesCounted(w: World, events: seq<Event>)
    requires w.pool.frees < COUNT
    ensures Run(w, events).pool.frees == (w.pool.frees + Frees(events)) % COUNT
    decreases |events|
  {
    if events != [] {
      var w' := Next(w, events[0]);
      FreesCounted(w', events[1..]);
      Wrapped(w.pool.frees, Frees(events[1..]));
    }
  }

  lemma Wrapped(x: nat, y: nat)
    ensures ((x + 1) % COUNT + y) % COUNT == (x + 1 + y) % COUNT
  {
  }

  /** In every run the number of regions mapped is the ceiling of the blocks cut over the blocks per
      region, the calls that failed are as many for the bogus blocks, or one more while none was handed
      out since the last; and the blocks cut are those live and free. */
  lemma MmapsAreCeiling(objectSize: nat, events: seq<Event>, w: World)
    requires objectSize <= MMAP_SIZE && AllEnabled(Start(objectSize), events) && w == Run(Start(objectSize), events)
    ensures w.cut == |w.live| + |w.free| && w.pool.size > 0 && PerRegion(w.pool.size) > 0
    ensures |w.regions| == CeilDiv(w.cut, PerRegion(w.pool.size))
    ensures w.failed == CeilDiv(w.bogus, PerRegion(w.pool.size)) + if w.rest == Bogus(0) then 1 else 0
    ensures w.pool.mmaps == (|w.regions| + w.failed) % COUNT
  {
    hide Linked, Separate, Split, RegionsApart, CutUp;
    StartInv(objectSize);
    RunKeepsInv(Start(objectSize), events);
    Quotient(1, w.pool.size, MMAP_SIZE);
    CutUpCeiling(w.rest, w.cut, w.bogus, w.failed, |w.regions|, PerRegion(w.pool.size));
  }

  lemma CutUpCeiling(from: Rest, cut: nat, bogus: nat, failed: nat, n: nat, per: nat)
    requires CutUp(from, cut, bogus, failed, n, per) && per > 0
    requires from.Unmapped? || from.k <= per
    requires from.Region? ==> from.k >= 1
    ensures n == CeilDiv(cut, per) && failed == CeilDiv(bogus, per) + if from == Bogus(0) then 1 else 0
  {
    hide CeilDiv;
    match from
    case Unmapped => CeilIs(0, 0, per);
    case Region(k) =>
      CeilIs(n - 1, k, per);
      CeilIs(failed, 0, per);
    case Bogus(k) =>
      CeilIs(n, 0, per);
      CeilIs(failed - 1, k, per);
  }

  lemma CeilIs(full: nat, k: nat, per: nat)
    requires per > 0 && k <= per
    ensures CeilDiv(full * per + k, per) == if k == 0 then full else full + 1
  {
    var x := full * per + k + per - 1;
    assert (full + 1) * per == full * per + per && (full + 2) * per == full * per + 2 * per;
    Quotient(full, per, x);
    Quotient(full + 1, per, x);
    Quotient(full + 2, per, x);
  }

  // ---------------------------------------------------------------------------------------
  // The object
  // ---------------------------------------------------------------------------------------

  /** The pool as an object; the memory is a field of it, and the result of `mmap` an input. */
  class ObjPool {
    const size: nat
    var memory: nat
    var freeCapacity: nat
    var freeList: nat
    var mmaps: nat
    var hits: nat
    var frees: nat
    var mem: map<nat, nat>

    function Value(): Pool
      reads this
    {
      Pool(size, memory, freeCapacity, freeList, mmaps, hits, frees, mem)
    }

    constructor (objectSize: nat)
      ensures Value() == Fresh(objectSize)
    {
      size := if objectSize > LINK_SIZE then objectSize else LINK_SIZE;
      memory, freeCapacity, freeList := 0, 0, 0;
      mmaps, hits, frees := 0, 0, 0;
      mem := map[];
    }

    method Allocate(base: nat) returns (obj: Option<nat>)
      modifies this
      ensures (obj, Value()) == New(old(Value()), base)
    {
      if freeList != 0 {
        obj := Some(freeList);
        freeList := Word(mem, freeList);
        hits := (hits + 1) % COUNT;
      } else {
        if freeCapacity < size {
          freeCapacity := MMAP_SIZE;
          memory := base;
          mmaps := (mmaps + 1) % COUNT;
          if memory == 0 {
            return None;
          }
        }
        obj := Some(memory);
        memory := memory + size;
        freeCapacity := (freeCapacity - size) % WORD;
      }
    }

    method Release(ptr: nat)
      modifies this
      ensures Value() == Delete(old(Value()), ptr)
    {
      mem := mem[ptr := freeList];
      freeList := ptr;
      frees := (frees + 1) % COUNT;
    }
  }
}
