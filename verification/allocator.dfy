/**
 * The free-list heap allocator of the virtual machine.
 *
 * The heap is a singly linked list of header-prefixed blocks that tiles the byte range
 * [start, top). A block is reusable exactly when its sweep id differs from the sweep id
 * of the current collection; there is no separate free flag. All addresses are byte
 * addresses.
 *
 * Quantifiers over block addresses are triggered on the header lookup `blocks[a]`. The fact
 * that a link leads to a block is stated through `Link`, so that the solver does not follow
 * the list from block to block on its own.
 */
module Allocator {
  import opened Wrappers

  /** Size of a machine word in bytes. */
  const WordSize: nat := 4

  /** Size in bytes of a block header (sweep id, next link, data size, pointer count),
      laid out as four 4-byte fields. The heap invariant and its lemmas rely only on its
      positivity and word alignment; the concrete inputs of the as-written lemmas at the end
      of this module are worked out for the value 16. */
  const HeaderSize: nat := 16

  /**
   * One block header together with the reference words of its payload.
   * `next` is the byte address of the following block; the last block of the list links
   * to the current heap top. `pointers` holds the payload words that are object references
   * (None is the null pointer): the header's pointerDataSize is |pointers| * WordSize bytes.
   */
  datatype Block = Block(sweepID: int, next: nat, dataSize: nat, pointers: seq<Option<nat>>)

  /** Rounds a data size up to a whole number of words. */
  function Align(n: nat): (r: nat)
    ensures r % WordSize == 0
    ensures n <= r < n + WordSize
  {
    (n + WordSize - 1) / WordSize * WordSize
  }

  /** Align gives the least word multiple that is at least n. */
  lemma AlignIsLeast(n: nat, m: nat)
    requires m % WordSize == 0 && n <= m
    ensures Align(n) <= m
  {
  }

  /** Aligning an aligned size changes nothing. */
  lemma AlignIdempotent(n: nat)
    ensures Align(Align(n)) == Align(n)
  {
  }

  /** Bytes taken by a block with the given data size, header included. */
  function SizeForAlloc(dataSize: nat): nat
  {
    dataSize + HeaderSize
  }

  /** A block may be split for a request when the rest after the request still has room
      for a header and a non-empty payload. */
  predicate CanSplit(b: Block, dataSize: nat)
  {
    b.dataSize > dataSize + HeaderSize
  }

  /** With word-aligned sizes, a split leaves a tail whose payload is at least one word. */
  lemma CanSplitLeavesWord(b: Block, n: nat)
    requires b.dataSize % WordSize == 0 && n % WordSize == 0
    ensures CanSplit(b, n) <==> b.dataSize >= SizeForAlloc(n) + WordSize
  {
    if CanSplit(b, n) {
      var tail := b.dataSize - SizeForAlloc(n);
      assert tail % WordSize == 0;
      assert tail > 0;
    }
  }

  /** A block can serve a request of `dataSize` bytes during sweep `id`: it is big enough
      and it was not stamped in that sweep. */
  predicate Fits(b: Block, dataSize: nat, id: int)
  {
    b.dataSize >= dataSize && b.sweepID != id
  }

  /** Some block of the heap can serve the request. */
  ghost predicate HasFit(blocks: map<nat, Block>, dataSize: nat, id: int)
  {
    exists a {:trigger blocks[a]} :: a in blocks && Fits(blocks[a], dataSize, id)
  }

  /** Byte address just past the block at `a`. */
  function End(a: nat, b: Block): nat
  {
    a + SizeForAlloc(b.dataSize)
  }

  /** `count` null reference words. */
  function Nulls(count: nat): seq<Option<nat>>
  {
    seq(count, _ => None)
  }

  /** The link of the block at `a`. Tiles states where links lead through this function, so
      that the fact is only unfolded for links a proof mentions. */
  function Link(blocks: map<nat, Block>, a: nat): nat
    requires a in blocks
  {
    blocks[a].next
  }

  /** Every block lies in [start, top) and links to the address right after its own bytes. */
  ghost predicate Bounded(blocks: map<nat, Block>, start: nat, top: nat)
  {
    forall a {:trigger blocks[a]} :: a in blocks ==>
      start <= a && blocks[a].next == End(a, blocks[a]) && blocks[a].next <= top
  }

  /** Every link leads to a block or to the heap top. */
  ghost predicate Linked(blocks: map<nat, Block>, top: nat)
  {
    forall a {:trigger Link(blocks, a)} :: a in blocks ==> Link(blocks, a) == top || Link(blocks, a) in blocks
  }

  /** No block begins inside another block's bytes. */
  ghost predicate Disjoint(blocks: map<nat, Block>)
  {
    forall a, c {:trigger blocks[a], blocks[c]} :: a in blocks && c in blocks && a < c ==> End(a, blocks[a]) <= c
  }

  /**
   * The block list tiles [start, top): the list starts at `start` (unless the heap is
   * empty), every block lies inside the range and links to the address right after its own
   * bytes, that address is the next block or the heap top, and no block begins inside
   * another block's bytes.
   */
  ghost predicate Tiles(blocks: map<nat, Block>, start: nat, top: nat)
  {
    start <= top &&
    (start < top ==> start in blocks) &&
    Bounded(blocks, start, top) && Linked(blocks, top) && Disjoint(blocks)
  }

  /** Every payload size is word-aligned. */
  ghost predicate Aligned(blocks: map<nat, Block>)
  {
    forall a {:trigger blocks[a]} :: a in blocks ==> blocks[a].dataSize % WordSize == 0
  }

  /** Every non-null reference word holds the address of a block. */
  ghost predicate Closed(blocks: map<nat, Block>)
  {
    forall a, k :: a in blocks && 0 <= k < |blocks[a].pointers| && blocks[a].pointers[k].Some? ==> blocks[a].pointers[k].value in blocks
  }

  /** No block carries a sweep id above `bound`. */
  ghost predicate StampsAtMost(blocks: map<nat, Block>, bound: int)
  {
    forall a {:trigger blocks[a]} :: a in blocks ==> blocks[a].sweepID <= bound
  }

  /** Same addresses, same links and sizes: only sweep ids and reference words may differ. */
  ghost predicate SameLayout(before: map<nat, Block>, after: map<nat, Block>)
  {
    after.Keys == before.Keys &&
    forall a {:trigger after[a]} :: a in before ==> after[a].next == before[a].next && after[a].dataSize == before[a].dataSize
  }

  /** The invariant of the heap globals. */
  ghost predicate HeapInv(start: nat, top: nat, limit: nat, searchStart: nat, blocks: map<nat, Block>)
  {
    Tiles(blocks, start, top) &&
    (top <= limit || top == start) &&
    (start == top ==> searchStart == start) &&
    (start < top ==> searchStart in blocks) &&
    Aligned(blocks) &&
    Closed(blocks)
  }

  /** Tiling means what it says: the byte ranges of the blocks cover [start, top) without a
      gap (and, by the last clause of Tiles, without overlap). */
  lemma TilesCover(blocks: map<nat, Block>, start: nat, top: nat, x: nat)
    requires Tiles(blocks, start, top)
    requires start <= x < top
    ensures exists a {:trigger blocks[a]} :: a in blocks && a <= x < End(a, blocks[a])
  {
    CoverFrom(blocks, start, top, x, start);
  }

  lemma {:induction false} CoverFrom(blocks: map<nat, Block>, start: nat, top: nat, x: nat, a: nat)
    requires Tiles(blocks, start, top)
    requires a in blocks && a <= x < top
    ensures exists c {:trigger blocks[c]} :: c in blocks && c <= x < End(c, blocks[c])
    decreases top - a
  {
    var b := blocks[a];
    if x >= End(a, b) {
      CoverFrom(blocks, start, top, x, Link(blocks, a));
    }
  }

  /** Changing only sweep ids and reference words, to ones that still name blocks, keeps the
      heap invariant. */
  lemma SameLayoutInv(start: nat, top: nat, limit: nat, searchStart: nat, before: map<nat, Block>, after: map<nat, Block>)
    requires HeapInv(start, top, limit, searchStart, before)
    requires SameLayout(before, after) && Closed(after)
    ensures HeapInv(start, top, limit, searchStart, after)
  {
    forall a, c | a in after && c in after && a < c
      ensures End(a, after[a]) <= c
    {
      var _ := before[a];
      var _ := before[c];
    }
    forall a | a in after
      ensures start <= a && after[a].next == End(a, after[a]) && after[a].next <= top
    {
      var _ := before[a];
    }
    forall a | a in after
      ensures Link(after, a) == top || Link(after, a) in after
    {
      assert Link(after, a) == Link(before, a);
    }
    forall a | a in after
      ensures after[a].dataSize % WordSize == 0
    {
      var _ := before[a];
    }
  }

  /** `after` is `before` with block `a` split for a request of n bytes: the head keeps the
      address and n bytes of payload and links to the new block right after them; the tail
      inherits the sweep id and the old link and holds the rest of the bytes; nothing else
      changes. */
  ghost predicate SplitInto(before: map<nat, Block>, after: map<nat, Block>, a: nat, n: nat)
    requires a in before && CanSplit(before[a], n)
  {
    var b := before[a];
    var t := a + SizeForAlloc(n);
    t !in before && after.Keys == before.Keys + {t} &&
    after[a] == b.(next := t, dataSize := n) &&
    after[t] == Block(b.sweepID, b.next, b.dataSize - SizeForAlloc(n), []) &&
    End(a, after[a]) == t && End(t, after[t]) == End(a, b) &&
    forall c {:trigger after[c]} :: c in before && c != a ==> after[c] == before[c]
  }

  /** The blocks obtained by splitting block `a` for a request of n bytes. */
  function SplitBlocks(blocks: map<nat, Block>, a: nat, n: nat): map<nat, Block>
    requires a in blocks && CanSplit(blocks[a], n)
  {
    var b := blocks[a];
    var t := a + SizeForAlloc(n);
    blocks[a := b.(next := t, dataSize := n)][t := Block(b.sweepID, b.next, b.dataSize - SizeForAlloc(n), [])]
  }

  /** The split point is a fresh address and the split does what SplitInto describes. */
  lemma SplitBlocksInto(start: nat, top: nat, blocks: map<nat, Block>, a: nat, n: nat)
    requires Tiles(blocks, start, top)
    requires a in blocks && CanSplit(blocks[a], n)
    ensures SplitInto(blocks, SplitBlocks(blocks, a, n), a, n)
  {
  }

  /** The head and the tail do not overlap each other or any other block. */
  lemma SplitNoOverlap(before: map<nat, Block>, after: map<nat, Block>, a: nat, n: nat)
    requires Disjoint(before)
    requires a in before && CanSplit(before[a], n) && SplitInto(before, after, a, n)
    ensures Disjoint(after)
  {
    var t := a + SizeForAlloc(n);
    forall c, d | c in after && d in after && c < d
      ensures End(c, after[c]) <= d
    {
      if c != t && d != t {
        var _ := before[c];
        var _ := before[d];
      } else if c == t {
        var _ := before[d];
        assert a < d;
      } else {
        var _ := before[c];
        if c != a {
          assert c < a;
        }
      }
    }
  }

  /** After a split every block still lies in [start, top) and links to its own end. */
  lemma SplitKeepsBounds(start: nat, top: nat, before: map<nat, Block>, after: map<nat, Block>, a: nat, n: nat)
    requires Bounded(before, start, top)
    requires a in before && CanSplit(before[a], n) && SplitInto(before, after, a, n)
    ensures Bounded(after, start, top)
  {
    var t := a + SizeForAlloc(n);
    forall c | c in after
      ensures start <= c && after[c].next == End(c, after[c]) && after[c].next <= top
    {
      if c != a && c != t {
        assert after[c] == before[c];
      }
    }
  }

  /** After a split every link still leads to a block or to the heap top: the head links to
      the tail, and the tail takes over the old link. */
  lemma SplitKeepsLinks(top: nat, before: map<nat, Block>, after: map<nat, Block>, a: nat, n: nat)
    requires Linked(before, top)
    requires a in before && CanSplit(before[a], n) && SplitInto(before, after, a, n)
    ensures Linked(after, top)
  {
    var t := a + SizeForAlloc(n);
    forall c | c in after
      ensures Link(after, c) == top || Link(after, c) in after
    {
      if c == t {
        assert Link(after, c) == Link(before, a);
      } else if c != a {
        assert Link(after, c) == Link(before, c);
      }
    }
  }

  /** The head and the tail tile the bytes of the block that was split, so the list still
      tiles [start, top). */
  lemma SplitKeepsTiling(start: nat, top: nat, before: map<nat, Block>, after: map<nat, Block>, a: nat, n: nat)
    requires Tiles(before, start, top)
    requires a in before && CanSplit(before[a], n) && SplitInto(before, after, a, n)
    ensures Tiles(after, start, top)
  {
    SplitNoOverlap(before, after, a, n);
    SplitKeepsBounds(start, top, before, after, a, n);
    SplitKeepsLinks(top, before, after, a, n);
  }

  /** The head's size is the aligned request and the tail is what remains of an aligned
      size, so every size stays word-aligned. */
  lemma SplitKeepsAligned(before: map<nat, Block>, after: map<nat, Block>, a: nat, n: nat)
    requires Aligned(before)
    requires a in before && n % WordSize == 0 && CanSplit(before[a], n) && SplitInto(before, after, a, n)
    ensures Aligned(after)
  {
    var t := a + SizeForAlloc(n);
    forall c | c in after
      ensures after[c].dataSize % WordSize == 0
    {
      if c != a && c != t {
        assert after[c] == before[c];
      }
    }
  }

  /** The head keeps its references and the tail holds none, so references still name
      blocks. */
  lemma SplitKeepsClosed(before: map<nat, Block>, after: map<nat, Block>, a: nat, n: nat)
    requires Closed(before)
    requires a in before && CanSplit(before[a], n) && SplitInto(before, after, a, n)
    ensures Closed(after)
  {
    var t := a + SizeForAlloc(n);
    forall c, k | c in after && 0 <= k < |after[c].pointers| && after[c].pointers[k].Some?
      ensures after[c].pointers[k].value in after
    {
      assert c != t;
      assert after[c].pointers == before[c].pointers;
    }
  }

  /** Splitting keeps the heap invariant. */
  lemma SplitKeepsInv(start: nat, top: nat, limit: nat, searchStart: nat, blocks: map<nat, Block>, a: nat, n: nat)
    requires HeapInv(start, top, limit, searchStart, blocks)
    requires a in blocks && n % WordSize == 0 && CanSplit(blocks[a], n)
    ensures SplitInto(blocks, SplitBlocks(blocks, a, n), a, n)
    ensures HeapInv(start, top, limit, searchStart, SplitBlocks(blocks, a, n))
  {
    var after := SplitBlocks(blocks, a, n);
    SplitBlocksInto(start, top, blocks, a, n);
    SplitKeepsTiling(start, top, blocks, after, a, n);
    SplitKeepsAligned(blocks, after, a, n);
    SplitKeepsClosed(blocks, after, a, n);
  }

  /** Carving a new block at `top` extends the tiling to the new block's end. */
  lemma AppendKeepsTiling(blocks: map<nat, Block>, start: nat, top: nat, nb: Block)
    requires Tiles(blocks, start, top)
    requires nb.next == End(top, nb)
    ensures top !in blocks
    ensures Tiles(blocks[top := nb], start, nb.next)
  {
    var b' := blocks[top := nb];
    forall c | c in blocks
      ensures c < top
    {
      var _ := blocks[c];
    }
    forall c | c in b'
      ensures start <= c && b'[c].next == End(c, b'[c]) && b'[c].next <= nb.next
    {
      if c != top {
        assert b'[c] == blocks[c];
      }
    }
    forall c | c in b'
      ensures Link(b', c) == nb.next || Link(b', c) in b'
    {
      if c != top {
        assert Link(b', c) == Link(blocks, c);
      }
    }
    forall c, d | c in b' && d in b' && c < d
      ensures End(c, b'[c]) <= d
    {
      var _ := blocks[c];
      if d != top {
        var _ := blocks[d];
      }
    }
  }

  /** Every block of `before` other than the one at `except` is still there, unchanged. */
  ghost predicate KeepsOthers(before: map<nat, Block>, after: map<nat, Block>, except: nat)
  {
    forall c {:trigger before[c]} :: c in before && c != except ==> c in after && after[c] == before[c]
  }

  /** Carving a new block at `top` keeps the heap invariant, with the top moved to the new
      block's end. */
  lemma AppendKeepsInv(start: nat, top: nat, limit: nat, searchStart: nat, blocks: map<nat, Block>, nb: Block)
    requires HeapInv(start, top, limit, searchStart, blocks)
    requires nb.next == End(top, nb) <= limit && nb.dataSize % WordSize == 0
    requires forall k :: 0 <= k < |nb.pointers| ==> nb.pointers[k].None?
    ensures top !in blocks
    ensures HeapInv(start, nb.next, limit, searchStart, blocks[top := nb])
    ensures KeepsOthers(blocks, blocks[top := nb], top)
    ensures forall bound :: StampsAtMost(blocks, bound) && nb.sweepID <= bound ==> StampsAtMost(blocks[top := nb], bound)
  {
    AppendKeepsTiling(blocks, start, top, nb);
    var b' := blocks[top := nb];
    forall c | c in b'
      ensures b'[c].dataSize % WordSize == 0
    {
      if c != top {
        assert b'[c] == blocks[c];
      }
    }
    forall c, k | c in b' && 0 <= k < |b'[c].pointers| && b'[c].pointers[k].Some?
      ensures b'[c].pointers[k].value in b'
    {
      assert c != top;
      assert b'[c].pointers == blocks[c].pointers;
    }
  }

  /** A reused block: stamped with the current sweep id, its reference words cleared. Once
      handed out it serves no further request of the same sweep, and its place in the list
      is kept. */
  function Reused(b: Block, id: int, pointerCount: nat): (r: Block)
    ensures forall n: nat :: !Fits(r, n, id)
    ensures r.next == b.next && r.dataSize == b.dataSize && |r.pointers| == pointerCount
  {
    b.(sweepID := id, pointers := Nulls(pointerCount))
  }

  /** Reusing a block in place keeps the heap invariant. */
  lemma ReuseKeepsInv(start: nat, top: nat, limit: nat, searchStart: nat, blocks: map<nat, Block>, a: nat, id: int, pointerCount: nat)
    requires HeapInv(start, top, limit, searchStart, blocks)
    requires a in blocks
    ensures HeapInv(start, top, limit, searchStart, blocks[a := Reused(blocks[a], id, pointerCount)])
  {
    var b' := blocks[a := Reused(blocks[a], id, pointerCount)];
    forall c | c in blocks
      ensures b'[c].next == blocks[c].next && b'[c].dataSize == blocks[c].dataSize
    {
    }
    forall c, k | c in b' && 0 <= k < |b'[c].pointers| && b'[c].pointers[k].Some?
      ensures b'[c].pointers[k].value in b'
    {
      assert c != a;
      assert b'[c].pointers == blocks[c].pointers;
    }
    SameLayoutInv(start, top, limit, searchStart, blocks, b');
  }

  /** Taking the block at `a` for reuse, after next-fit has split it or left it whole, leaves
      every other block as it was and adds no sweep id above the current one. */
  lemma ReuseFacts(before: map<nat, Block>, mid: map<nat, Block>, a: nat, n: nat, id: int, pointerCount: nat)
    requires a in before && Fits(before[a], n, id)
    requires CanSplit(before[a], n) ==> SplitInto(before, mid, a, n)
    requires !CanSplit(before[a], n) ==> mid == before
    ensures a in mid
    ensures KeepsOthers(before, mid[a := Reused(mid[a], id, pointerCount)], a)
    ensures StampsAtMost(before, id) ==> StampsAtMost(mid[a := Reused(mid[a], id, pointerCount)], id)
  {
    var after := mid[a := Reused(mid[a], id, pointerCount)];
    if StampsAtMost(before, id) {
      forall c | c in after
        ensures after[c].sweepID <= id
      {
        if c != a && c in before {
          assert after[c] == before[c];
        } else if c != a {
          assert after[c] == mid[c];
          assert c == a + SizeForAlloc(n);
          assert mid[c].sweepID == before[a].sweepID;
        }
      }
    }
  }

  /** The blocks after block `a` is taken for a request of n bytes during sweep `id`: split
      when the rest is big enough, then stamped, its reference words cleared. */
  function Taken(blocks: map<nat, Block>, a: nat, n: nat, id: int, pointerCount: nat): map<nat, Block>
    requires a in blocks
  {
    var mid := if CanSplit(blocks[a], n) then SplitBlocks(blocks, a, n) else blocks;
    mid[a := Reused(mid[a], id, pointerCount)]
  }

  /** Taking a block that fits: the taken block is stamped and keeps its address. When it is
      split, a new block holding the rest of its bytes appears right after the request,
      inherits the old stale id and link and so stays reusable; the taken block shrinks to
      the request and links to it. Otherwise the taken block keeps its size and link. */
  lemma TakenLeavesTail(start: nat, top: nat, blocks: map<nat, Block>, a: nat, n: nat, id: int, pointerCount: nat)
    requires Tiles(blocks, start, top)
    requires a in blocks && Fits(blocks[a], n, id)
    ensures var r := Taken(blocks, a, n, id, pointerCount);
      a in r && r[a].sweepID == id && |r[a].pointers| == pointerCount
    ensures var r, t := Taken(blocks, a, n, id, pointerCount), a + SizeForAlloc(n);
      CanSplit(blocks[a], n) ==>
        t !in blocks && r.Keys == blocks.Keys + {t} &&
        r[a].next == t && r[a].dataSize == n &&
        r[t] == Block(blocks[a].sweepID, blocks[a].next, blocks[a].dataSize - SizeForAlloc(n), []) &&
        Fits(r[t], r[t].dataSize, id)
    ensures var r := Taken(blocks, a, n, id, pointerCount);
      !CanSplit(blocks[a], n) ==>
        r.Keys == blocks.Keys && r[a].next == blocks[a].next && r[a].dataSize == blocks[a].dataSize
  {
    if CanSplit(blocks[a], n) {
      SplitBlocksInto(start, top, blocks, a, n);
    }
  }

  /** In a next-fit scan that began at `from` and is now at `cur`, the block at `a` has
      already been examined (the scan wraps from the last block to the first). */
  predicate ScannedBefore(from: nat, cur: nat, a: nat)
  {
    if from <= cur then from <= a < cur else from <= a || a < cur
  }

  /** The blocks a next-fit scan that began at `from` has not yet examined at `cur`. */
  ghost function Unscanned(blocks: map<nat, Block>, from: nat, cur: nat): set<nat>
  {
    set a | a in blocks && !ScannedBefore(from, cur, a)
  }

  /** The address the scan visits after `cur`: the following block, or the first block
      when `cur` is the last one. */
  function Successor(blocks: map<nat, Block>, start: nat, top: nat, cur: nat): nat
    requires cur in blocks
  {
    if Link(blocks, cur) == top then start else Link(blocks, cur)
  }

  /** One step of the scan examines exactly `cur`; when the step comes back to `from`,
      every block has been examined. */
  lemma ScanStep(blocks: map<nat, Block>, start: nat, top: nat, from: nat, cur: nat, a: nat)
    requires Tiles(blocks, start, top)
    requires from in blocks && cur in blocks && a in blocks
    ensures Successor(blocks, start, top, cur) in blocks
    ensures Successor(blocks, start, top, cur) != from ==>
      (ScannedBefore(from, Successor(blocks, start, top, cur), a) <==> ScannedBefore(from, cur, a) || a == cur)
    ensures Successor(blocks, start, top, cur) == from ==> ScannedBefore(from, cur, a) || a == cur
  {
    var bc, ba, bf := blocks[cur], blocks[a], blocks[from];
    assert start < top;
  }

  /**
   * The heap globals: `start` is heapStart, `top` is heapTop, `limit` is maxHeapAddress and
   * `searchStart` is the block where the next next-fit search begins. `blocks` maps each
   * block address to its header.
   */
  class Heap {
    var start: nat
    var top: nat
    var limit: nat
    var searchStart: nat
    var blocks: map<nat, Block>

    ghost predicate Valid()
      reads this
    {
      HeapInv(start, top, limit, searchStart, blocks)
    }

    /** The globals before initialisation: every address is the null address. */
    constructor ()
      ensures Valid()
      ensures start == top == limit == searchStart == 0 && blocks == map[]
    {
      start, top, limit, searchStart := 0, 0, 0, 0;
      blocks := map[];
    }

    /** Sets up an empty heap on [heapStart, maxAddress); may be called again to reset. */
    method InitHeap(heapStart: nat, maxAddress: nat)
      modifies this
      ensures Valid()
      ensures start == top == searchStart == heapStart && limit == maxAddress
      ensures blocks == map[]
    {
      start := heapStart;
      top := start;
      searchStart := start;
      limit := maxAddress;
      blocks := map[];
    }

    /**
     * Splits block `a` for a request of n bytes and returns the head block. The split point
     * is a + HeaderSize + n in bytes; the head's data size becomes n.
     */
    method Split(a: nat, n: nat) returns (head: nat)
      requires Valid() && a in blocks && n % WordSize == 0 && CanSplit(blocks[a], n)
      modifies this`blocks
      ensures Valid()
      ensures head == a
      // The relation is what the invariant lemmas reason from; the function gives callers the
      // map itself. SplitBlocksInto connects the two.
      ensures SplitInto(old(blocks), blocks, a, n)
      ensures blocks == SplitBlocks(old(blocks), a, n)
    {
      SplitKeepsInv(start, top, limit, searchStart, blocks, a, n);
      blocks := SplitBlocks(blocks, a, n);
      head := a;
    }

    /**
     * The search loop of next-fit: walks the list from searchStart, wrapping from the last
     * block to the first, and stops at the first block that fits or after one full circuit.
     */
    method Search(n: nat, id: int) returns (r: Option<nat>)
      requires Valid()
      ensures r.None? <==> !HasFit(blocks, n, id)
      ensures r.Some? ==> r.value in blocks && Fits(blocks[r.value], n, id)
      ensures r.Some? ==> forall a {:trigger blocks[a]} :: a in blocks && ScannedBefore(searchStart, r.value, a) ==> !Fits(blocks[a], n, id)
    {
      if top == start {
        return None;
      }
      var cur := searchStart;
      while !Fits(blocks[cur], n, id)
        invariant cur in blocks
        invariant forall a {:trigger blocks[a]} :: a in blocks && ScannedBefore(searchStart, cur, a) ==> !Fits(blocks[a], n, id)
        decreases Unscanned(blocks, searchStart, cur)
      {
        var nxt := Successor(blocks, start, top, cur);
        ScanStep(blocks, start, top, searchStart, cur, cur);
        if nxt == searchStart {
          forall a | a in blocks
            ensures !Fits(blocks[a], n, id)
          {
            ScanStep(blocks, start, top, searchStart, cur, a);
          }
          return None;
        }
        forall a | a in blocks
          ensures ScannedBefore(searchStart, nxt, a) <==> ScannedBefore(searchStart, cur, a) || a == cur
        {
          ScanStep(blocks, start, top, searchStart, cur, a);
        }
        assert cur in Unscanned(blocks, searchStart, cur) - Unscanned(blocks, searchStart, nxt);
        cur := nxt;
      }
      r := Some(cur);
    }

    /**
     * Next-fit: finds a reusable block, moves searchStart to it, and splits it when the rest
     * is big enough. Returns None when no block fits.
     */
    method NextFit(n: nat, id: int) returns (r: Option<nat>)
      requires Valid() && n % WordSize == 0
      modifies this`blocks, this`searchStart
      ensures Valid()
      ensures r.None? <==> !HasFit(old(blocks), n, id)
      ensures r.None? ==> blocks == old(blocks) && searchStart == old(searchStart)
      ensures r.Some? ==> r.value in old(blocks) && Fits(old(blocks)[r.value], n, id) && searchStart == r.value
      ensures r.Some? ==> forall a {:trigger old(blocks)[a]} :: a in old(blocks) && ScannedBefore(old(searchStart), r.value, a) ==> !Fits(old(blocks)[a], n, id)
      ensures r.Some? && CanSplit(old(blocks)[r.value], n) ==> SplitInto(old(blocks), blocks, r.value, n)
      ensures r.Some? && CanSplit(old(blocks)[r.value], n) ==> blocks == SplitBlocks(old(blocks), r.value, n)
      ensures r.Some? && !CanSplit(old(blocks)[r.value], n) ==> blocks == old(blocks)
    {
      r := Search(n, id);
      if r.None? {
        return;
      }
      var a := r.value;
      searchStart := a;
      if CanSplit(blocks[a], n) {
        a := Split(a, n);
      }
    }

    /** Takes the block at `a` for a new object: stamps it with sweep `id` and clears its
        reference words. */
    method Reuse(a: nat, pointerCount: nat, id: int)
      requires Valid() && a in blocks
      modifies this`blocks
      ensures Valid()
      ensures blocks == old(blocks)[a := Reused(old(blocks)[a], id, pointerCount)]
    {
      ReuseKeepsInv(start, top, limit, searchStart, blocks, a, id, pointerCount);
      blocks := blocks[a := Reused(blocks[a], id, pointerCount)];
    }

    /** Carves a new block of n bytes at the heap top, or returns None when it would run past
        the heap limit. */
    method Carve(n: nat, pointerCount: nat, id: int) returns (r: Option<nat>)
      requires Valid() && n % WordSize == 0
      modifies this`blocks, this`top
      ensures Valid()
      ensures r.Some? <==> old(top) + SizeForAlloc(n) <= limit
      ensures r.None? ==> blocks == old(blocks) && top == old(top)
      ensures r.Some? ==> r.value == old(top) && r.value !in old(blocks) && top == old(top) + SizeForAlloc(n)
      ensures r.Some? ==> blocks.Keys == old(blocks).Keys + {r.value}
      ensures r.Some? ==> blocks == old(blocks)[r.value := Block(id, top, n, Nulls(pointerCount))]
      ensures r.Some? ==> KeepsOthers(old(blocks), blocks, r.value)
      ensures StampsAtMost(old(blocks), id) ==> StampsAtMost(blocks, id)
    {
      if top + SizeForAlloc(n) > limit {
        return None;
      }
      var b := Block(id, top + SizeForAlloc(n), n, Nulls(pointerCount));
      AppendKeepsInv(start, top, limit, searchStart, blocks, b);
      blocks := blocks[top := b];
      r := Some(top);
      top := top + SizeForAlloc(n);
    }

    /**
     * Allocates a block for `dataSize` bytes whose first `pointerCount` words are references,
     * during sweep `id`. A reusable block found by next-fit is taken first; otherwise a new
     * block is carved at the heap top; None means out of memory.
     */
    method AllocBlock(dataSize: nat, pointerCount: nat, id: int) returns (r: Option<nat>)
      requires Valid()
      modifies this`blocks, this`searchStart, this`top
      ensures Valid()
      ensures r.Some? <==> HasFit(old(blocks), Align(dataSize), id) || old(top) + SizeForAlloc(Align(dataSize)) <= limit
      ensures r.None? ==> blocks == old(blocks) && top == old(top) && searchStart == old(searchStart)
      ensures r.Some? ==> r.value in blocks && blocks[r.value].sweepID == id && blocks[r.value].dataSize >= Align(dataSize)
      ensures r.Some? ==> blocks[r.value].pointers == Nulls(pointerCount)
      ensures HasFit(old(blocks), Align(dataSize), id) ==>
        r.Some? && r.value in old(blocks) && Fits(old(blocks)[r.value], Align(dataSize), id) &&
        top == old(top) && searchStart == r.value &&
        (CanSplit(old(blocks)[r.value], Align(dataSize)) ==> blocks[r.value].dataSize == Align(dataSize))
      ensures HasFit(old(blocks), Align(dataSize), id) ==>
        r.Some? && r.value in old(blocks) && blocks == Taken(old(blocks), r.value, Align(dataSize), id, pointerCount)
      ensures HasFit(old(blocks), Align(dataSize), id) ==>
        forall a {:trigger old(blocks)[a]} :: a in old(blocks) && ScannedBefore(old(searchStart), r.value, a) ==> !Fits(old(blocks)[a], Align(dataSize), id)
      ensures !HasFit(old(blocks), Align(dataSize), id) && r.Some? ==>
        r.value == old(top) && top == old(top) + SizeForAlloc(Align(dataSize)) &&
        blocks[r.value].dataSize == Align(dataSize) && blocks.Keys == old(blocks).Keys + {r.value} &&
        searchStart == old(searchStart)
      ensures r.Some? ==> KeepsOthers(old(blocks), blocks, r.value)
      ensures StampsAtMost(old(blocks), id) ==> StampsAtMost(blocks, id)
    {
      var n := Align(dataSize);
      r := NextFit(n, id);
      if r.Some? {
        ReuseFacts(old(blocks), blocks, r.value, n, id, pointerCount);
        Reuse(r.value, pointerCount, id);
      } else {
        r := Carve(n, pointerCount, id);
      }
    }
  }

  // The allocator as the source writes it, where it departs from the intended behaviour
  // modelled above. Each departure is paired with the lemma that exhibits it.

  /** Where split places the new header: `block + sizeForAlloc(n)` advances a header pointer,
      so the offset is counted in header-sized strides, not bytes. */
  function SplitAddressAsWritten(a: nat, n: nat): nat
  {
    a + HeaderSize * SizeForAlloc(n)
  }

  /** A 24-byte block split for a 4-byte request: the new header lands 320 bytes on, far
      past the 40 bytes the block spans, where the intended split puts it at byte 20. */
  lemma SplitAddressAsWrittenOverruns(a: nat)
    ensures CanSplit(Block(0, a + 40, 24, []), 4)
    ensures SplitAddressAsWritten(a, 4) == a + 320
    ensures SplitAddressAsWritten(a, 4) >= End(a, Block(0, a + 40, 24, []))
    ensures a + SizeForAlloc(4) < End(a, Block(0, a + 40, 24, []))
  {
  }

  /** The head of a split as the source leaves it: only `next` is rewritten, the data size
      is never reduced (and the function returns no value). */
  function SplitHeadAsWritten(b: Block, t: nat): Block
  {
    b.(next := t)
  }

  /** The head left by the source still spans the bytes of the tail it links to. */
  lemma SplitHeadAsWrittenOverlaps(a: nat, b: Block, n: nat)
    requires CanSplit(b, n)
    ensures var t := a + SizeForAlloc(n);
      a < t < End(a, SplitHeadAsWritten(b, t))
  {
  }

  /** One pass of the source's search loop body at block `cur`: it moves to heapStart when
      the link is null, stops with null when the link is searchStart, and otherwise keeps
      `cur`, since nothing else assigns currentBlock. */
  function SearchStepAsWritten(blocks: map<nat, Block>, start: nat, searchStart: nat, cur: nat): Option<nat>
    requires cur in blocks
  {
    if blocks[cur].next == 0 then Some(start)
    else if blocks[cur].next == searchStart then None
    else Some(cur)
  }

  /** On a tiled heap no link is null, so the wrap-around branch never runs, and a block
      whose link is not searchStart is revisited for ever: the loop makes no progress. */
  lemma SearchStepAsWrittenStalls(blocks: map<nat, Block>, start: nat, top: nat, searchStart: nat, cur: nat)
    requires Tiles(blocks, start, top) && cur in blocks
    requires Link(blocks, cur) != searchStart
    ensures SearchStepAsWritten(blocks, start, searchStart, cur) == Some(cur)
  {
    var _ := blocks[cur];
  }

  /** The source's loop guard: keep searching while the block is too small AND not stamped
      in this sweep. */
  predicate KeepsSearchingAsWritten(b: Block, n: nat, id: int)
  {
    b.dataSize < n && b.sweepID != id
  }

  /** The source's guard stops at every block stamped in this sweep, that is at every live
      block, whatever its size; the intended guard stops only at a block that fits. */
  lemma KeepsSearchingAsWrittenStopsOnLive(b: Block, n: nat, id: int)
    ensures !KeepsSearchingAsWritten(b, n, id) <==> Fits(b, n, id) || b.sweepID == id
    ensures b.sweepID == id ==> !KeepsSearchingAsWritten(b, n, id) && !Fits(b, n, id)
  {
  }

  /** The source's out-of-memory test: the top has reached the limit exactly. */
  predicate OutOfMemoryAsWritten(top: nat, limit: nat)
  {
    top == limit
  }

  /** With 4 bytes left below the limit, an 8-byte request passes the source's test and the
      new block runs 20 bytes past the limit. */
  lemma OutOfMemoryAsWrittenOverruns()
    ensures !OutOfMemoryAsWritten(96, 100)
    ensures 96 + SizeForAlloc(Align(8)) == 120 > 100
  {
  }

  /** Where the source links a fresh block: `newBlock + dataSize + sizeof(BlockHeader)`
      advances a header pointer, so the size is counted in header-sized strides. */
  function NextAddressAsWritten(top: nat, n: nat): nat
  {
    top + HeaderSize * SizeForAlloc(n)
  }

  /** The source's link, and with it the new heap top, always lies past the fresh block's
      end, leaving a gap that no block covers. */
  lemma NextAddressAsWrittenLeavesGap(top: nat, n: nat)
    ensures NextAddressAsWritten(top, n) > top + SizeForAlloc(n)
  {
  }

  /** A reused block as the source leaves it: only the pointer data is recorded; the sweep
      id is not updated. */
  function ReusedAsWritten(b: Block, pointerCount: nat): Block
  {
    b.(pointers := Nulls(pointerCount))
  }

  /** A block handed out by the source during sweep `id` still fits a request of that sweep,
      so the next allocation can hand out the same block again; the intended stamping makes
      it unavailable until the next sweep. */
  lemma ReusedAsWrittenStillFits(b: Block, n: nat, id: int, pointerCount: nat)
    requires Fits(b, n, id)
    ensures Fits(ReusedAsWritten(b, pointerCount), n, id)
    ensures !Fits(Reused(b, id, pointerCount), n, id)
  {
  }
}
