/**
 The growable byte array: a linked list of nodes of one size, a cursor shared by reading and writing,
 and a cached node for the cursor. It is proved to behave like a flat array of bytes.
 */
module ByteArrays {
  import opened Prelude

  /** What a read may end in: an exception, a null node dereferenced, or a shift by more than the
      width of the type. */
  datatype Fault = OutOfRange | NullNode | WideShift

  datatype Result<+T> = Ok(value: T) | Err(fault: Fault)

  /** s with b written over it from index `at` on. */
  function Overlay(s: seq<Byte>, at: nat, b: seq<Byte>): (r: seq<Byte>)
    requires at + |b| <= |s|
    ensures |r| == |s|
  {
    s[..at] + b + s[at + |b|..]
  }

  lemma OverlayTwice(s: seq<Byte>, at: nat, b: seq<Byte>, c: seq<Byte>)
    requires at + |b| + |c| <= |s|
    ensures Overlay(Overlay(s, at, b), at + |b|, c) == Overlay(s, at, b + c)
  {
  }

  // ---------------------------------------------------------------------------------------
  // The flat array
  // ---------------------------------------------------------------------------------------

  /** The bytes written so far, the cursor, and how many bytes there is room for. */
  datatype Flat = Flat(bytes: seq<Byte>, pos: nat, cap: nat)
  {
    predicate InRange() {
      pos <= |bytes| <= cap
    }
  }

  /** s with buf written over it from `at` on, longer if buf does not fit. */
  function Written(s: seq<Byte>, at: nat, buf: seq<Byte>): (r: seq<Byte>)
    requires at <= |s|
    ensures |r| == if at + |buf| < |s| then |s| else at + |buf|
  {
    s[..at] + buf + if at + |buf| < |s| then s[at + |buf|..] else []
  }

  /** The capacity after making room up to `need`, in whole nodes. */
  function Grown(cap: nat, need: nat, nodeSize: nat): (r: nat)
    requires nodeSize > 0
  {
    if need <= cap then cap else cap + Off(CeilDiv(need - cap, nodeSize), nodeSize)
  }

  function FlatWrite(v: Flat, nodeSize: nat, buf: seq<Byte>): Flat
    requires v.InRange() && nodeSize > 0
  {
    Flat(Written(v.bytes, v.pos, buf), v.pos + |buf|, Grown(v.cap, v.pos + |buf|, nodeSize))
  }

  /** More than there is to read is an exception. At the capacity there is no node, and even an empty
      read asks the node for its size. */
  function FlatRead(v: Flat, n: nat): (r: (Result<seq<Byte>>, Flat))
    requires v.InRange()
    ensures r.1.InRange() && r.1.bytes == v.bytes && r.1.cap == v.cap
    ensures r.0.Ok? ==> |r.0.value| == n
  {
    if n > |v.bytes| - v.pos then (Err(OutOfRange), v)
    else if v.pos == v.cap then (Err(NullNode), v)
    else (Ok(v.bytes[v.pos..v.pos + n]), v.(pos := v.pos + n))
  }

  lemma GrownEnough(cap: nat, need: nat, nodeSize: nat)
    requires nodeSize > 0 && need <= cap
    ensures Grown(cap, need, nodeSize) == cap
  {
  }

  lemma GrownBounds(cap: nat, need: nat, nodeSize: nat)
    requires nodeSize > 0
    ensures need <= Grown(cap, need, nodeSize) && cap <= Grown(cap, need, nodeSize)
    ensures need > cap ==> Grown(cap, need, nodeSize) < need + nodeSize
    ensures (Grown(cap, need, nodeSize) - cap) % nodeSize == 0
  {
    if need > cap {
      var k := CeilDiv(need - cap, nodeSize);
      assert Grown(cap, need, nodeSize) - cap == Off(k, nodeSize) + 0;
      SplitUnique(k, 0, nodeSize);
    }
  }

  /** What a write does: the bytes are those of the buffer where it was written and the old ones elsewhere,
      and the cursor stands behind it. */
  lemma WritesThere(v: Flat, nodeSize: nat, buf: seq<Byte>)
    requires v.InRange() && nodeSize > 0
    ensures var r := FlatWrite(v, nodeSize, buf);
            && r.pos == v.pos + |buf| && |r.bytes| == (if r.pos < |v.bytes| then |v.bytes| else r.pos) <= r.cap
            && forall i | 0 <= i < |r.bytes| ::
                 r.bytes[i] == if v.pos <= i < r.pos then buf[i - v.pos] else v.bytes[i]
  {
    hide Grown;
    GrownBounds(v.cap, v.pos + |buf|, nodeSize);
  }

  // ---------------------------------------------------------------------------------------
  // Blocks of a flat array
  // ---------------------------------------------------------------------------------------

  /** Where block i begins. */
  function Off(i: nat, size: nat): nat {
    i * size
  }

  lemma OffNext(i: nat, size: nat)
    ensures Off(0, size) == 0 && Off(i + 1, size) == Off(i, size) + size
  {
  }

  lemma {:induction false} OffMono(i: nat, n: nat, size: nat)
    requires i < n
    ensures Off(i, size) + size <= Off(n, size)
    decreases n - i
  {
    OffNext(i, size);
    if i + 1 < n {
      OffMono(i + 1, n, size);
    }
  }

  /** Block i of data, in blocks of `size`. */
  function Block(data: seq<Byte>, size: nat, n: nat, i: nat): (r: seq<Byte>)
    requires |data| == Off(n, size) && i < n
    ensures |r| == size
  {
    OffMono(i, n, size);
    data[Off(i, size)..Off(i, size) + size]
  }

  /** The block of a position, and its place in the block. */
  function Quot(p: nat, size: nat): nat
    requires size > 0
  {
    p / size
  }

  function Rem(p: nat, size: nat): nat
    requires size > 0
  {
    p % size
  }

  lemma SplitPosition(p: nat, size: nat)
    requires size > 0
    ensures p == Off(Quot(p, size), size) + Rem(p, size) && Rem(p, size) < size
  {
  }

  lemma SplitUnique(k: nat, at: nat, size: nat)
    requires at < size
    ensures Quot(Off(k, size) + at, size) == k && Rem(Off(k, size) + at, size) == at
  {
    var p := Off(k, size) + at;
    SplitPosition(p, size);
    var q := Quot(p, size);
    if q > k {
      OffMono(k, q, size);
    } else if q < k {
      OffMono(q, k, size);
    }
  }

  /** Before the end of n blocks there are fewer than n whole blocks. */
  lemma BlockBound(p: nat, n: nat, size: nat)
    requires size > 0 && p < Off(n, size)
    ensures Quot(p, size) < n
  {
  }

  lemma OverlayInside(s: seq<Byte>, lo: nat, size: nat, at: nat, b: seq<Byte>)
    requires lo + size <= |s| && at + |b| <= size
    ensures Overlay(s, lo + at, b)[lo..lo + size] == Overlay(s[lo..lo + size], at, b)
  {
  }

  lemma OverlayOutside(s: seq<Byte>, at: nat, b: seq<Byte>, lo: nat, hi: nat)
    requires at + |b| <= |s| && lo <= hi <= |s| && (hi <= at || at + |b| <= lo)
    ensures Overlay(s, at, b)[lo..hi] == s[lo..hi]
  {
  }

  /** Writing inside block k changes block k and no other. */
  lemma BlockOverlay(data: seq<Byte>, size: nat, n: nat, k: nat, at: nat, b: seq<Byte>)
    requires |data| == Off(n, size) && k < n && at + |b| <= size
    ensures Off(k, size) + at + |b| <= |data|
    ensures var data' := Overlay(data, Off(k, size) + at, b);
            && Block(data', size, n, k) == Overlay(Block(data, size, n, k), at, b)
            && forall i | 0 <= i < n && i != k :: Block(data', size, n, i) == Block(data, size, n, i)
  {
    hide Off, Overlay;
    OffMono(k, n, size);
    OverlayInside(data, Off(k, size), size, at, b);
    var data' := Overlay(data, Off(k, size) + at, b);
    forall i | 0 <= i < n && i != k ensures Block(data', size, n, i) == Block(data, size, n, i) {
      OffMono(i, n, size);
      if i < k {
        OffMono(i, k, size);
      } else {
        OffMono(k, i, size);
      }
      OverlayOutside(data, Off(k, size) + at, b, Off(i, size), Off(i, size) + size);
    }
  }

  lemma SliceOfSlice<T>(s: seq<T>, lo: nat, hi: nat, a: nat, b: nat)
    requires lo <= hi <= |s| && a <= b <= hi - lo
    ensures s[lo..hi][a..b] == s[lo + a..lo + b]
  {
    assert forall i | 0 <= i < b - a :: s[lo..hi][a..b][i] == s[lo..hi][a + i] == s[lo + a + i];
  }

  lemma PrefixSlice<T>(s: seq<T>, hi: nat, a: nat, b: nat)
    requires a <= b <= hi <= |s|
    ensures s[..hi][a..b] == s[a..b]
  {
    assert forall i | 0 <= i < b - a :: s[..hi][a..b][i] == s[..hi][a + i] == s[a + i];
  }

  lemma BlockSlice(data: seq<Byte>, size: nat, n: nat, k: nat, at: nat, len: nat)
    requires |data| == Off(n, size) && k < n && at + len <= size
    ensures Off(k, size) + at + len <= |data|
    ensures Block(data, size, n, k)[at..at + len] == data[Off(k, size) + at..Off(k, size) + at + len]
  {
    hide Off;
    OffMono(k, n, size);
    SliceOfSlice(data, Off(k, size), Off(k, size) + size, at, at + len);
  }

  lemma BlockAppend(data: seq<Byte>, size: nat, n: nat, more: seq<Byte>)
    requires |data| == Off(n, size) && |more| == size
    ensures |data + more| == Off(n + 1, size)
    ensures Block(data + more, size, n + 1, n) == more
    ensures forall i | 0 <= i < n :: Block(data + more, size, n + 1, i) == Block(data, size, n, i)
  {
    hide Off;
    OffNext(n, size);
    forall i | 0 <= i < n ensures Block(data + more, size, n + 1, i) == Block(data, size, n, i) {
      OffMono(i, n, size);
    }
  }

  // ---------------------------------------------------------------------------------------
  // The objects
  // ---------------------------------------------------------------------------------------

  class Node {
    const memory: array<Byte>
    var next: Node?

    constructor (size: nat)
      ensures fresh(memory) && memory.Length == size && next == null
    {
      memory := new Byte[size];
      next := null;
    }
  }

  /** A stretch of a node's memory. */
  datatype Iovec = Iovec(base: array<Byte>, offset: nat, len: nat)

  ghost predicate InBounds(bufs: seq<Iovec>) {
    forall v | v in bufs :: v.offset + v.len <= v.base.Length
  }

  /** The bytes a list of stretches shows, one after the other. */
  ghost function Gather(bufs: seq<Iovec>): seq<Byte>
    requires InBounds(bufs)
    reads set v | v in bufs :: v.base
  {
    if bufs == [] then []
    else
      var front, v := bufs[..|bufs| - 1], bufs[|bufs| - 1];
      assert v in bufs;
      Gather(front) + v.base[v.offset..v.offset + v.len]
  }

  lemma GatherOne(bufs: seq<Iovec>, v: Iovec)
    requires InBounds(bufs) && v.offset + v.len <= v.base.Length
    ensures InBounds(bufs + [v]) && Gather(bufs + [v]) == Gather(bufs) + v.base[v.offset..v.offset + v.len]
  {
    assert (bufs + [v])[..|bufs|] == bufs;
  }

  lemma GatherMore(bufs: seq<Iovec>, v: Iovec, d: seq<Byte>, p: nat, q: nat)
    requires InBounds(bufs) && v.offset + v.len <= v.base.Length && p <= q && q + v.len <= |d|
    requires Gather(bufs) == d[p..q] && v.base[v.offset..v.offset + v.len] == d[q..q + v.len]
    ensures InBounds(bufs + [v]) && Gather(bufs + [v]) == d[p..q + v.len]
  {
    GatherOne(bufs, v);
    assert Gather(bufs + [v]) == d[p..q] + d[q..q + v.len];
    SliceJoin(d, p, q, q + v.len);
  }

  lemma OverlayStep(s: seq<Byte>, at: nat, src: seq<Byte>, i: nat, before: seq<Byte>)
    requires at + |src| <= |s| && i < |src| && before == Overlay(s, at, src[..i])
    ensures |before| == |s| && before[at + i := src[i]] == Overlay(s, at, src[..i + 1])
  {
    OverlayTwice(s, at, src[..i], [src[i]]);
    assert src[..i + 1] == src[..i] + [src[i]];
  }

  method Memcpy(dst: array<Byte>, at: nat, src: seq<Byte>)
    requires at + |src| <= dst.Length
    modifies dst
    ensures dst[..] == Overlay(old(dst[..]), at, src)
  {
    var i := 0;
    assert dst[..] == Overlay(dst[..], at, src[..0]);
    while i < |src|
      invariant i <= |src|
      invariant dst[..] == Overlay(old(dst[..]), at, src[..i])
    {
      ghost var before := dst[..];
      OverlayStep(old(dst[..]), at, src, i, before);
      dst[at + i] := src[i];
      assert dst[..] == before[at + i := src[i]];
      i := i + 1;
    }
    assert src[..i] == src;
  }

  class ByteArray {
    const nodeSize: nat
    var root: Node
    var cur: Node?
    var capacity: nat
    var size: nat
    var position: nat
    var littleEndian: bool
    /** The list from the root, and the bytes of all its nodes in order. */
    ghost var nodes: seq<Node>
    ghost var data: seq<Byte>
    ghost var Repr: set<object>

    /** The shape of the list. */
    ghost predicate Linked()
      reads `root, `capacity, `nodes, `Repr, Repr
    {
      && this !in Repr
      && |nodes| >= 1 && nodes[0] == root && nodeSize > 0
      && (forall i | 0 <= i < |nodes| :: nodes[i] in Repr && nodes[i].memory in Repr)
      && capacity == Off(|nodes|, nodeSize)
      && (forall i | 0 <= i < |nodes| :: nodes[i].memory.Length == nodeSize)
      && (forall i | 0 <= i < |nodes| - 1 :: nodes[i].next == nodes[i + 1])
      && nodes[|nodes| - 1].next == null
      && (forall i, j | 0 <= i < j < |nodes| :: nodes[i] != nodes[j] && nodes[i].memory != nodes[j].memory)
    }

    ghost predicate Holding(ns: seq<Node>, d: seq<Byte>)
      reads set n | n in ns :: n.memory
    {
      && |d| == Off(|ns|, nodeSize)
      && forall i | 0 <= i < |ns| :: ns[i].memory[..] == Block(d, nodeSize, |ns|, i)
    }

    /** The nodes hold the flat array. */
    ghost predicate Stored()
      requires Linked()
      reads `root, `capacity, `nodes, `Repr, `data, Repr
    {
      Holding(nodes, data)
    }

    /** The node that holds position p: none exactly at the capacity. */
    ghost function NodeAt(p: nat): Node?
      requires nodeSize > 0 && capacity == Off(|nodes|, nodeSize) && p <= capacity
      reads `capacity, `nodes
    {
      if p == capacity then null
      else
        BlockBound(p, |nodes|, nodeSize);
        nodes[Quot(p, nodeSize)]
    }

    ghost predicate Valid()
      reads this, Repr
    {
      Linked() && Stored() && position <= size <= capacity && cur == NodeAt(position)
    }

    /** The bytes written so far. */
    ghost function Contents(): seq<Byte>
      requires Valid()
      reads this, Repr
    {
      data[..size]
    }

    /** The flat array this object stands for. */
    ghost function Value(): (v: Flat)
      requires Valid()
      reads this, Repr
      ensures v.InRange()
    {
      Flat(Contents(), position, capacity)
    }

    constructor (nodeSize: nat)
      requires nodeSize > 0
      ensures Valid() && fresh(Repr) && this.nodeSize == nodeSize
      ensures position == 0 && size == 0 && capacity == nodeSize && !littleEndian
    {
      this.nodeSize := nodeSize;
      var r := new Node(nodeSize);
      root, cur := r, r;
      position, size, capacity := 0, 0, nodeSize;
      littleEndian := false;
      nodes := [r];
      data := r.memory[..];
      Repr := {r, r.memory};
    }

    /** `tail->next = new Node(_nodeSize)` and what goes with it. */
    method AppendNode(tail: Node) returns (node: Node)
      requires Linked() && Stored() && tail == nodes[|nodes| - 1]
      modifies `nodes, `data, `Repr, `capacity, tail`next
      ensures Linked() && Stored() && fresh(node) && fresh(Repr - old(Repr))
      ensures nodes == old(nodes) + [node] && old(data) <= data && capacity == old(capacity) + nodeSize
    {
      hide Off, Quot, Rem, Block, Holding;
      node := new Node(nodeSize);
      ghost var ns, d := nodes, data;
      OffNext(|nodes|, nodeSize);
      tail.next := node;
      nodes := nodes + [node];
      data := data + node.memory[..];
      Repr := Repr + {node, node.memory};
      capacity := capacity + nodeSize;
      StoredMore(ns, d, node);
    }

    lemma StoredMore(ns: seq<Node>, d: seq<Byte>, node: Node)
      requires Linked() && Holding(ns, d) && nodes == ns + [node] && data == d + node.memory[..]
      ensures Stored()
    {
      hide Off, Quot, Rem, Block;
      BlockAppend(d, nodeSize, |ns|, node.memory[..]);
      assert forall i | 0 <= i < |ns| :: nodes[i] == ns[i];
    }

    method FindTail() returns (tail: Node)
      requires Linked()
      ensures tail == nodes[|nodes| - 1]
    {
      tail := root;
      ghost var t := 0;
      while tail.next != null
        invariant t < |nodes| && tail == nodes[t]
        invariant tail.next == if t + 1 < |nodes| then nodes[t + 1] else null
        decreases |nodes| - t
      {
        tail := tail.next;
        t := t + 1;
      }
    }

    /** Appends `count` nodes; returns the first of them. */
    method AppendNodes(tail: Node, count: nat) returns (first: Node?)
      requires Linked() && Stored() && tail == nodes[|nodes| - 1]
      modifies `nodes, `data, `Repr, `capacity, tail`next
      ensures Linked() && Stored() && fresh(Repr - old(Repr))
      ensures |nodes| == |old(nodes)| + count && old(nodes) <= nodes && old(data) <= data
      ensures capacity == old(capacity) + Off(count, nodeSize)
      ensures first == if count == 0 then null else nodes[|old(nodes)|]
    {
      hide Off, Quot, Rem;
      first := null;
      var last := tail;
      var i := 0;
      OffNext(0, nodeSize);
      while i < count
        invariant i <= count && Linked() && Stored() && fresh(Repr - old(Repr)) && |nodes| == |old(nodes)| + i
        invariant last == nodes[|nodes| - 1] && (last == tail || fresh(last))
        invariant capacity == old(capacity) + Off(i, nodeSize)
        invariant old(data) <= data && old(nodes) <= nodes
        invariant first == if i == 0 then null else nodes[|old(nodes)|]
      {
        OffNext(i, nodeSize);
        var node := AppendNode(last);
        if first == null {
          first := node;
        }
        last := node;
        i := i + 1;
      }
    }

    /** addFreeCapacity: appends as many nodes as the write of `more` bytes needs beyond the free
        space, which is not a node more than it needs. */
    method AddFreeCapacity(more: nat)
      requires Valid()
      modifies this, Repr
      ensures Valid() && fresh(Repr - old(Repr)) && position == old(position) && size == old(size)
      ensures littleEndian == old(littleEndian)
      ensures old(data) <= data
      ensures position + more <= capacity == Grown(old(capacity), position + more, nodeSize)
    {
      hide Off, Quot, Rem, CeilDiv;
      var oldCap := capacity - position;
      if more <= oldCap {
        return;
      }
      var missing := more - oldCap;
      var count := CeilDiv(missing, nodeSize);
      CeilBounds(missing, nodeSize);
      ghost var n := |nodes|;
      var tail := FindTail();
      var first := AppendNodes(tail, count);
      if oldCap == 0 {
        cur := first;
      }
      GrownNode(position, n, |nodes|, nodeSize, oldCap == 0);
      assert cur == NodeAt(position);
    }

    /** The node of a position given by block and place; one past the last place of a block is the
        next node, or none after the last block. */
    lemma NodeAtPlace(k: nat, at: nat)
      requires Linked() && k < |nodes| && at <= nodeSize
      ensures Off(k, nodeSize) + at <= capacity
      ensures NodeAt(Off(k, nodeSize) + at) == if at < nodeSize then nodes[k] else nodes[k].next
    {
      hide Off, Quot, Rem;
      OffMono(k, |nodes|, nodeSize);
      if at < nodeSize {
        SplitUnique(k, at, nodeSize);
      } else {
        OffNext(k, nodeSize);
        if k + 1 < |nodes| {
          OffMono(k + 1, |nodes|, nodeSize);
          SplitUnique(k + 1, 0, nodeSize);
        }
      }
    }

    /** The block and place of a position before the capacity. */
    lemma PlaceOf(p: nat)
      requires Linked() && p < capacity
      ensures var k, at := Quot(p, nodeSize), Rem(p, nodeSize);
              k < |nodes| && at < nodeSize && p == Off(k, nodeSize) + at && NodeAt(p) == nodes[k]
    {
      hide Off, Quot, Rem;
      SplitPosition(p, nodeSize);
      BlockBound(p, |nodes|, nodeSize);
    }

    /** memcpy into a node. */
    method PutChunk(node: Node, at: nat, chunk: seq<Byte>, ghost k: nat)
      requires Linked() && Stored() && k < |nodes| && nodes[k] == node && at + |chunk| <= nodeSize
      modifies this`data, node.memory
      ensures Linked() && Stored()
      ensures Off(k, nodeSize) + at + |chunk| <= |data| == |old(data)|
      ensures data == Overlay(old(data), Off(k, nodeSize) + at, chunk)
    {
      hide Off, Overlay;
      BlockOverlay(data, nodeSize, |nodes|, k, at, chunk);
      Memcpy(node.memory, at, chunk);
      data := Overlay(data, Off(k, nodeSize) + at, chunk);
    }

    /** A loop over the list stands at position q, in the middle of or before a node. */
    ghost predicate Standing(node: Node?, q: nat, npos: int, ncap: int)
      reads this, Repr
    {
      && Linked() && Stored() && q < capacity && node != null && node == NodeAt(q)
      && npos == Rem(q, nodeSize) && ncap == nodeSize - npos
    }

    /** The node to go on with at position q. */
    ghost predicate Follows(node: Node?, q: nat)
      reads this, Repr
    {
      Linked() && q <= capacity && node == NodeAt(q)
    }

    lemma StandsAt(node: Node, q: nat)
      requires Linked() && Stored() && q < capacity && node == NodeAt(q)
      ensures Standing(node, q, Rem(q, nodeSize), node.memory.Length - Rem(q, nodeSize)) && |data| == capacity
      ensures Follows(node, q)
      ensures Rem(q, nodeSize) < node.memory.Length
    {
      PlaceOf(q);
    }

    lemma NullAtEnd(p: nat)
      requires Linked() && p <= capacity
      ensures NodeAt(p) == null <==> p == capacity
    {
      hide Off, Quot, Rem;
      if p < capacity {
        PlaceOf(p);
      }
    }

    /** The node to go on with behind `take` bytes: the next one if this one is used up, and none exactly
        at the capacity. */
    lemma NextNode(node: Node?, q: nat, npos: nat, ncap: nat, take: nat)
      requires Standing(node, q, npos, ncap) && take <= ncap
      ensures node != null && ncap > 0 && npos + ncap == nodeSize == node.memory.Length && q + take <= capacity
      ensures var next := if npos + take == nodeSize then node.next else node;
              && next == NodeAt(q + take) && (next == null <==> q + take == capacity)
              && (take == ncap && next != null ==> Rem(q + take, nodeSize) == 0 && next.memory.Length == nodeSize)
    {
      hide Off, Quot, Rem;
      PlaceOf(q);
      NodeAtPlace(Quot(q, nodeSize), npos + take);
      NextPlace(Quot(q, nodeSize), npos, nodeSize);
      NullAtEnd(q + take);
      if q + take < capacity {
        PlaceOf(q + take);
      }
    }

    /** One memcpy of the write loop, into the node of the cursor, and the cursor moved behind it: to
        the next node if this one is used up. */
    method WriteChunk(npos: nat, ncap: nat, chunk: seq<Byte>)
      requires Standing(cur, position, npos, ncap) && |chunk| <= ncap
      modifies `data, `cur, `position, Repr
      ensures Linked() && Stored() && Follows(cur, position) && unchanged(`Repr)
      ensures position == old(position) + |chunk| <= capacity && (cur == null <==> position == capacity)
      ensures |chunk| == ncap && cur != null ==> Standing(cur, position, 0, cur.memory.Length)
      ensures |data| == |old(data)| == capacity && data == Overlay(old(data), old(position), chunk)
    {
      hide Off, Quot, Rem, Overlay, Block;
      PlaceOf(position);
      NextNode(cur, position, npos, ncap, |chunk|);
      PutChunk(cur, npos, chunk, Quot(position, nodeSize));
      if npos + |chunk| == nodeSize {
        cur := cur.next;
      }
      position := position + |chunk|;
    }

    /** The loop of Write, once there is room. */
    method WriteLoop(buf: seq<Byte>)
      requires Linked() && Stored() && buf != [] && position + |buf| <= capacity && cur == NodeAt(position)
      modifies `data, `cur, `position, Repr
      ensures Linked() && Stored() && Follows(cur, position) && unchanged(`Repr)
      ensures position == old(position) + |buf|
      ensures |data| == |old(data)| == capacity && data == Overlay(old(data), old(position), buf)
    {
      hide Off, Quot, Rem, Overlay, Wrote, Standing, Follows, Linked, Stored, NodeAt;
      SomewhereIn(position);
      StandsAt(cur, position);
      var npos := Rem(position, nodeSize);
      var ncap := cur.memory.Length - npos;
      var left, cp := |buf|, 0;
      WroteNone(data, position, buf);
      while left > 0
        invariant 0 <= cp && 0 <= left && cp + left == |buf| && position == old(position) + cp
        invariant Linked() && Stored() && Follows(cur, position) && unchanged(`Repr)
        invariant |data| == |old(data)| == capacity
        invariant Wrote(old(data), old(position), buf, cp, data)
        invariant left > 0 ==> npos >= 0 && ncap >= 0 && Standing(cur, position, npos, ncap)
        decreases left
      {
        ghost var before := data;
        NextNode(cur, position, npos, ncap, 0);
        var take := if ncap >= left then left else ncap;
        WriteChunk(npos, ncap, buf[cp..cp + take]);
        WroteMore(old(data), old(position), buf, cp, take, before, data);
        cp := cp + take;
        left := left - take;
        if left > 0 {
          ncap := cur.memory.Length;
          npos := 0;
        }
      }
      WroteAll(old(data), old(position), buf, data);
    }

    lemma SomewhereIn(p: nat)
      requires Linked() && Stored() && p < capacity
      ensures NodeAt(p) != null && |data| == capacity
    {
      PlaceOf(p);
    }

    /** Writes the bytes at the cursor, over what is there, and moves the cursor behind them. */
    method Write(buf: seq<Byte>)
      requires Valid()
      modifies this, Repr
      ensures Valid() && fresh(Repr - old(Repr)) && littleEndian == old(littleEndian)
      ensures Value() == FlatWrite(old(Value()), nodeSize, buf)
    {
      hide Off, Quot, Rem, Overlay, Written, Grown, Linked, Stored, NodeAt;
      CursorNode();
      WrittenNothing(Contents(), position);
      GrownEnough(capacity, position, nodeSize);
      if |buf| == 0 {
        return;
      }
      ghost var p0, size0 := position, size;
      AddFreeCapacity(|buf|);
      ghost var d1 := data;
      CursorNode();
      WriteLoop(buf);
      if position > size {
        size := position;
      }
      WrittenFlat(d1, size0, p0, buf);
      assert old(data)[..size0] == d1[..size0];
    }

    /** A stretch of the node of position p is that stretch of the flat array, and the node to go on
        with is the next one if this one is used up. */
    lemma ChunkIs(node: Node, npos: nat, n: nat, p: nat)
      requires Linked() && Stored() && p < capacity && npos == Rem(p, nodeSize)
      requires node == NodeAt(p) && npos + n <= nodeSize
      ensures node.memory.Length == nodeSize && p + n <= capacity
      ensures node.memory[npos..npos + n] == data[p..p + n]
      ensures NodeAt(p + n) == if npos + n == nodeSize then node.next else node
    {
      hide Off, Quot, Rem;
      PlaceOf(p);
      var k := Quot(p, nodeSize);
      NodeAtPlace(k, npos + n);
      BlockSlice(data, nodeSize, |nodes|, k, npos, n);
    }

    /** The bytes from p to q have been read. */
    ghost predicate Taken(p: nat, q: nat, buf: seq<Byte>)
      reads `data
    {
      p <= q <= |data| && buf == data[p..q]
    }

    /** One memcpy of a read loop, and the node to go on with: the next one if this one is used up, and
        none exactly at the capacity. */
    lemma ReadStep(node: Node, q: nat, npos: nat, ncap: nat, take: nat, p: nat, buf: seq<Byte>)
      requires Standing(node, q, npos, ncap) && take <= ncap && Taken(p, q, buf)
      ensures npos + take <= node.memory.Length && ncap > 0
      ensures Taken(p, q + take, buf + node.memory[npos..npos + take]) && q + take <= capacity
      ensures var next := if npos + take == nodeSize then node.next else node;
              && Follows(next, q + take) && (next == null <==> q + take == capacity)
              && (take == ncap && next != null ==>
                    Standing(next, q + take, 0, next.memory.Length) && next.memory.Length > 0)
    {
      hide Off, Quot, Rem;
      NextNode(node, q, npos, ncap, take);
      ChunkIs(node, npos, take, q);
      SliceJoin(data, p, q, q + take);
    }

    /** The reading loop: n bytes from position p on, and the node of the position behind them. Behind the
        capacity there is no node to go on with. */
    method ReadLoop(start: Node, p: nat, n: nat) returns (r: Result<seq<Byte>>, node: Node?)
      requires Linked() && Stored() && p < capacity && start == NodeAt(p)
      ensures |data| == capacity && r == if p + n <= capacity then Ok(data[p..p + n]) else Err(NullNode)
      ensures p + n <= capacity ==> Follows(node, p + n)
    {
      hide Off, Quot, Rem, Standing, Follows, Stored, Linked, NodeAt;
      StandsAt(start, p);
      node := start;
      var npos := Rem(p, nodeSize);
      var ncap := start.memory.Length - npos;
      var done: nat := 0;
      var buf := [];
      while done < n
        invariant done <= n && p + done <= capacity && Follows(node, p + done) && Taken(p, p + done, buf)
        invariant done < n ==> node != null && ncap >= 0 && npos >= 0 && Standing(node, p + done, npos, ncap)
        decreases n - done
      {
        var take := if n - done <= ncap then n - done else ncap;
        ReadStep(node, p + done, npos, ncap, take, p, buf);
        buf := buf + node.memory[npos..npos + take];
        if npos + take == nodeSize {
          node := node.next;
        }
        done := done + take;
        if done < n {
          if node == null {
            return Err(NullNode), null;
          }
          ncap := node.memory.Length;
          npos := 0;
        }
      }
      r := Ok(buf);
    }

    /** There is no node behind the capacity, and only there. */
    lemma CursorNode()
      requires Valid()
      ensures this !in Repr && nodeSize > 0 && capacity == Off(|nodes|, nodeSize) == |data|
      ensures cur == null <==> position == capacity
    {
      hide Off, Quot, Rem;
      if position < capacity {
        PlaceOf(position);
      }
    }

    /** Reads n bytes at the cursor. */
    method Read(n: nat) returns (r: Result<seq<Byte>>)
      requires Valid()
      modifies `cur, `position
      ensures Valid() && (r, Value()) == FlatRead(old(Value()), n)
      ensures r == if n > size - old(position) then Err(OutOfRange)
                   else if old(position) == capacity then Err(NullNode)
                   else Ok(Contents()[old(position)..old(position) + n])
      ensures Contents() == old(Contents()) && position == old(position) + if r.Ok? then n else 0
    {
      hide Off, Quot, Rem, Linked, Stored, NodeAt;
      CursorNode();
      if n > size - position {
        return Err(OutOfRange);
      }
      if cur == null {
        return Err(NullNode);
      }
      ghost var p := position;
      r, cur := ReadLoop(cur, position, n);
      position := position + n;
      PrefixSlice(data, size, p, p + n);
    }

    /** Node number `count` of the list, counted from the root; none behind the last. */
    method Walk(count: nat) returns (node: Node?)
      requires Linked()
      ensures node == if count < |nodes| then nodes[count] else null
    {
      node := root;
      var i := 0;
      while i < count
        invariant i <= count && node == if i < |nodes| then nodes[i] else null
      {
        if node == null {
          return;
        }
        node := node.next;
        i := i + 1;
      }
    }

    /** `_size - pos` in unsigned 64-bit arithmetic. */
    function Readable(pos: UInt64): (r: nat)
      reads `size
      ensures (r - (size - pos)) % WORD == 0 && (pos <= size ==> r == size - pos)
    {
      if pos <= size then size - pos else WORD - (pos - size)
    }

    /** Reads n bytes at `pos` without moving the cursor. The test for enough data wraps: from behind the
        contents whatever the memory holds is read, up to the capacity. */
    method ReadAt(n: nat, pos: UInt64) returns (r: Result<seq<Byte>>)
      requires Valid()
      ensures r == if n > Readable(pos) then Err(OutOfRange)
                   else if pos < capacity && pos + n <= capacity then Ok(data[pos..pos + n])
                   else Err(NullNode)
      ensures pos <= size ==> r == FlatRead(Value().(pos := pos), n).0
    {
      hide Off, Quot, Rem;
      if n > Readable(pos) {
        return Err(OutOfRange);
      }
      var node := Walk(Quot(pos, nodeSize));
      if node == null {
        WalkedOff(pos);
        return Err(NullNode);
      }
      WalkedTo(pos);
      r, node := ReadLoop(node, pos, n);
      if pos <= size {
        PrefixSlice(data, size, pos, pos + n);
      }
    }

    /** Walking as many nodes as lie before a position ends at its node, or runs off the list. */
    lemma WalkedTo(pos: nat)
      requires Linked() && Quot(pos, nodeSize) < |nodes|
      ensures pos < capacity && nodes[Quot(pos, nodeSize)] == NodeAt(pos)
    {
      hide Off, Quot, Rem;
      SplitPosition(pos, nodeSize);
      OffMono(Quot(pos, nodeSize), |nodes|, nodeSize);
    }

    lemma WalkedOff(pos: nat)
      requires Linked() && Quot(pos, nodeSize) >= |nodes|
      ensures pos >= capacity
    {
      hide Off, Quot, Rem;
      if pos < capacity {
        BlockBound(pos, |nodes|, nodeSize);
      }
    }

    /** The stretches show the bytes from p to q. */
    ghost predicate Shown(p: nat, q: nat, buffers: seq<Iovec>)
      reads `data, set v | v in buffers :: v.base
    {
      p <= q <= |data| && InBounds(buffers) && Gather(buffers) == data[p..q]
    }

    lemma NoBuffers(p: nat)
      requires p <= |data|
      ensures Shown(p, p, [])
    {
    }

    /** One more stretch, out of the node of position q, behind those of the bytes from p to q. */
    lemma OneBuffer(buffers: seq<Iovec>, node: Node, q: nat, npos: nat, ncap: nat, take: nat, p: nat)
      requires Standing(node, q, npos, ncap) && take <= ncap && Shown(p, q, buffers)
      ensures Shown(p, q + take, buffers + [Iovec(node.memory, npos, take)])
    {
      hide Off, Quot, Rem;
      PlaceOf(q);
      ChunkIs(node, npos, take, q);
      GatherMore(buffers, Iovec(node.memory, npos, take), data, p, q);
    }

    /** The loop of GetReadBuffers. */
    method BufferLoop(start: Node, p: nat, total: nat) returns (r: Result<seq<Iovec>>)
      requires Linked() && Stored() && p < capacity && start == NodeAt(p)
      ensures r.Err? <==> p + total > capacity
      ensures r.Err? ==> r.fault == NullNode
      ensures r.Ok? ==> |data| == capacity && Shown(p, p + total, r.value)
    {
      hide Off, Quot, Rem, Standing, Stored, Linked, NodeAt, Shown, Gather, Follows;
      StandsAt(start, p);
      NoBuffers(p);
      var node: Node? := start;
      var npos := Rem(p, nodeSize);
      var ncap := start.memory.Length - npos;
      var done: nat := 0;
      var buffers: seq<Iovec> := [];
      while done < total
        invariant done <= total && p + done <= capacity && Shown(p, p + done, buffers)
        invariant done < total ==> node != null && ncap >= 0 && npos >= 0 && Standing(node, p + done, npos, ncap)
        decreases total - done
      {
        var take := if total - done <= ncap then total - done else ncap;
        ReadStep(node, p + done, npos, ncap, take, p, data[p..p + done]);
        OneBuffer(buffers, node, p + done, npos, ncap, take, p);
        buffers := buffers + [Iovec(node.memory, npos, take)];
        if npos + take == nodeSize {
          node := node.next;
        }
        done := done + take;
        if done < total {
          if node == null {
            return Err(NullNode);
          }
          ncap := node.memory.Length;
          npos := 0;
        }
      }
      r := Ok(buffers);
    }

    lemma ShownIs(p: nat, q: nat, buffers: seq<Iovec>)
      requires Valid() && Shown(p, q, buffers) && q <= capacity
      ensures InBounds(buffers) && p <= q <= |data| && Gather(buffers) == data[p..q]
      ensures q <= size ==> Gather(buffers) == Contents()[p..q]
    {
      hide Off, Quot, Rem;
      if q <= size {
        PrefixSlice(data, size, p, q);
      }
    }

    /** The stretches of node memory that hold the next `len` readable bytes, or all if there are
        fewer: nothing is copied and the cursor stays. */
    method GetReadBuffers(len: nat) returns (buffers: seq<Iovec>, total: nat)
      requires Valid()
      ensures total == if size - position > len then len else size - position
      ensures InBounds(buffers) && Gather(buffers) == Contents()[position..position + total]
    {
      hide Off, Quot, Rem, Shown;
      total := if size - position > len then len else size - position;
      buffers := [];
      if total > 0 {
        PlaceOf(position);
        var r := BufferLoop(cur, position, total);
        buffers := r.value;
        ShownIs(position, position + total, buffers);
      }
    }

    /** The same from `pos` on, found by walking from the root; as in ReadAt, what is readable wraps. */
    method GetReadBuffersAt(len: nat, pos: UInt64) returns (r: Result<seq<Iovec>>, total: nat)
      requires Valid()
      ensures total == if Readable(pos) > len then len else Readable(pos)
      ensures r.Err? <==> total > 0 && (pos >= capacity || pos + total > capacity)
      ensures r.Err? ==> r.fault == NullNode
      ensures r.Ok? ==> InBounds(r.value) && Gather(r.value) == if total == 0 then [] else data[pos..pos + total]
      ensures pos <= size ==> r.Ok? && Gather(r.value) == Contents()[pos..pos + total]
    {
      hide Off, Quot, Rem, Shown;
      total := if Readable(pos) > len then len else Readable(pos);
      if total == 0 {
        return Ok([]), total;
      }
      var node := Walk(Quot(pos, nodeSize));
      if node == null {
        WalkedOff(pos);
        return Err(NullNode), total;
      }
      WalkedTo(pos);
      r := BufferLoop(node, pos, total);
      if r.Ok? {
        ShownIs(pos, pos + total, r.value);
      }
    }

    /** Moves the cursor to any position up to the capacity; moving it past what was written makes
        the bytes in between part of the contents, whatever they are. */
    method SetPosition(pos: nat) returns (ok: bool)
      requires Valid()
      modifies `cur, `position, `size
      ensures Valid() && (ok <==> pos <= capacity)
      ensures position == (if ok then pos else old(position))
      ensures size == (if ok && pos > old(size) then pos else old(size))
      ensures old(Contents()) <= Contents()
      ensures pos <= old(size) ==> Value() == old(Value()).(pos := pos)
    {
      hide Off, Quot, Rem, Linked, Stored, NodeAt;
      CursorNode();
      if pos > capacity {
        return false;
      }
      position := pos;
      if position > size {
        size := position;
      }
      cur := Seek(pos);
      ok := true;
    }

    /** The node to go on with at pos, found by walking from the root. */
    method Seek(pos: nat) returns (node: Node?)
      requires Linked() && pos <= capacity
      ensures node == NodeAt(pos)
    {
      hide Off, Quot, Rem;
      node := root;
      var left := pos;
      ghost var k: nat := 0;
      OffNext(0, nodeSize);
      while left > node.memory.Length
        invariant k < |nodes| && node == nodes[k] && 0 <= left && pos == Off(k, nodeSize) + left
        decreases left
      {
        OffNext(k, nodeSize);
        NextBlock(k, |nodes|, nodeSize, pos);
        left := left - node.memory.Length;
        node := node.next;
        k := k + 1;
      }
      NodeAtPlace(k, left);
      if left == node.memory.Length {
        node := node.next;
      }
    }

    /** Forgets the contents and all nodes but the first. */
    method Clear()
      requires Valid()
      modifies `cur, `position, `size, `capacity, `nodes, `data, root`next
      ensures Valid() && position == 0 && size == 0 && capacity == nodeSize
    {
      hide Off, Quot, Rem, Block, Linked, Stored, NodeAt;
      RootHolds();
      position, size := 0, 0;
      root.next := null;
      cur := root;
      capacity := nodeSize;
      nodes := [root];
      data := data[..nodeSize];
      RootAlone();
    }

    lemma RootHolds()
      requires Linked() && Stored()
      ensures this !in Repr && root in Repr && root.memory in Repr && root.memory.Length == nodeSize > 0
      ensures nodeSize <= |data| && root.memory[..] == data[..nodeSize]
    {
      hide Off, Quot, Rem, Block;
      assert root.memory[..] == Block(data, nodeSize, |nodes|, 0);
      FirstBlock(data, nodeSize, |nodes|);
    }

    lemma RootAlone()
      requires this !in Repr && root in Repr && root.memory in Repr && nodes == [root] && root.next == null
      requires root.memory.Length == nodeSize == capacity > 0 && data == root.memory[..]
      requires position == size == 0 && cur == root
      ensures Valid()
    {
      hide Off, Quot, Rem, Block;
      OffNext(0, nodeSize);
      SplitUnique(0, 0, nodeSize);
      FirstBlock(data, nodeSize, 1);
      assert data[..nodeSize] == data;
    }
  }

  lemma SliceJoin(s: seq<Byte>, a: nat, b: nat, c: nat)
    requires a <= b <= c <= |s|
    ensures s[a..b] + s[b..c] == s[a..c]
  {
  }

  lemma NextPlace(k: nat, at: nat, size: nat)
    requires at < size
    ensures Rem(Off(k, size) + at + (size - at), size) == 0
  {
    OffNext(k, size);
    SplitUnique(k + 1, 0, size);
  }

  lemma WrittenNothing(s: seq<Byte>, at: nat)
    requires at <= |s|
    ensures Written(s, at, []) == s
  {
    assert s[..at] + [] + s[at..] == s;
  }

  lemma WrittenFlat(d: seq<Byte>, size: nat, at: nat, buf: seq<Byte>)
    requires at <= size <= |d| && at + |buf| <= |d|
    ensures Overlay(d, at, buf)[..if at + |buf| > size then at + |buf| else size] == Written(d[..size], at, buf)
  {
  }

  lemma NextBlock(k: nat, n: nat, size: nat, p: nat)
    requires size > 0 && k < n && p > Off(k, size) && p <= Off(n, size) && p >= Off(k, size) + size
    ensures p > Off(k, size) + size ==> k + 1 < n
    ensures p < Off(n, size) ==> k + 1 < n
  {
    OffNext(k, size);
  }

  lemma FirstBlock(data: seq<Byte>, size: nat, n: nat)
    requires |data| == Off(n, size) && 0 < n
    ensures size <= |data| && Block(data, size, n, 0) == data[..size]
  {
    OffNext(0, size);
    OffMono(0, n, size);
  }

  /** cp bytes of buf have been written over d0 from p0 on. */
  ghost predicate Wrote(d0: seq<Byte>, p0: nat, buf: seq<Byte>, cp: nat, d: seq<Byte>) {
    cp <= |buf| && p0 + |buf| <= |d0| && d == Overlay(d0, p0, buf[..cp])
  }

  lemma WroteNone(d0: seq<Byte>, p0: nat, buf: seq<Byte>)
    requires p0 + |buf| <= |d0|
    ensures Wrote(d0, p0, buf, 0, d0)
  {
  }

  lemma WroteMore(d0: seq<Byte>, p0: nat, buf: seq<Byte>, cp: nat, n: nat, d: seq<Byte>, d': seq<Byte>)
    requires Wrote(d0, p0, buf, cp, d) && cp + n <= |buf| && d' == Overlay(d, p0 + cp, buf[cp..cp + n])
    ensures Wrote(d0, p0, buf, cp + n, d')
  {
    OverlayTwice(d0, p0, buf[..cp], buf[cp..cp + n]);
    assert buf[..cp] + buf[cp..cp + n] == buf[..cp + n];
  }

  lemma WroteAll(d0: seq<Byte>, p0: nat, buf: seq<Byte>, d: seq<Byte>)
    requires Wrote(d0, p0, buf, |buf|, d)
    ensures d == Overlay(d0, p0, buf)
  {
    assert buf[..|buf|] == buf;
  }

  /** Where a position at or before the end of n blocks is once there are more. */
  lemma GrownNode(p: nat, n: nat, n': nat, size: nat, atEnd: bool)
    requires size > 0 && n < n' && p <= Off(n, size) && (atEnd <==> p == Off(n, size))
    ensures p < Off(n', size) && if atEnd then Quot(p, size) == n else Quot(p, size) < n
  {
    hide Off, Quot, Rem;
    OffMono(n, n', size);
    if atEnd {
      SplitUnique(n, 0, size);
    } else {
      BlockBound(p, n, size);
    }
  }

  lemma CeilBounds(missing: nat, size: nat)
    requires missing > 0 && size > 0
    ensures CeilDiv(missing, size) > 0 && missing <= Off(CeilDiv(missing, size), size) < missing + size
  {
    SplitPosition(missing + size - 1, size);
  }
}
