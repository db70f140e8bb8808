/**
 * The mark phase of the tracing collector.
 *
 * A collection does not free anything: `Sweep` starts a new sweep id and stamps every block
 * reachable from the roots with it. Blocks left with an older id are the garbage; the
 * allocator's next-fit search treats them as reusable (see Allocator.Fits).
 */
module GarbageCollector {
  import opened Wrappers
  import opened Allocator

  /** The reference graph of a heap: the reference words of each block. */
  type Graph = map<nat, seq<Option<nat>>>

  ghost function Refs(blocks: map<nat, Block>): (g: Graph)
    ensures g.Keys == blocks.Keys
  {
    map a | a in blocks :: blocks[a].pointers
  }

  /** Block `x` holds a reference to `y`. */
  ghost predicate Edge(g: Graph, x: nat, y: nat)
  {
    x in g && Some(y) in g[x]
  }

  /** `p` is a chain of references, each block holding a reference to the next. */
  ghost predicate IsPath(g: Graph, p: seq<nat>)
  {
    |p| > 0 && forall i {:trigger p[i]} :: 0 <= i < |p| - 1 ==> Edge(g, p[i], p[i + 1])
  }

  /** `y` can be reached from `x` by following references (in zero or more steps). */
  ghost predicate Reachable(g: Graph, x: nat, y: nat)
  {
    exists p {:trigger IsPath(g, p)} :: IsPath(g, p) && p[0] == x && p[|p| - 1] == y
  }

  /** `y` can be reached from one of the non-null roots. */
  ghost predicate ReachableFromRoots(g: Graph, roots: seq<Option<nat>>, y: nat)
  {
    exists j {:trigger roots[j]} :: 0 <= j < |roots| && roots[j].Some? && Reachable(g, roots[j].value, y)
  }

  /** Every block reaches itself. */
  lemma ReachRefl(g: Graph, x: nat)
    ensures Reachable(g, x, x)
  {
    assert IsPath(g, [x]);
  }

  /** Following one more reference from a reachable block reaches its target. */
  lemma ReachStep(g: Graph, r: nat, x: nat, y: nat)
    requires Reachable(g, r, x) && Edge(g, x, y)
    ensures Reachable(g, r, y)
  {
    var p :| IsPath(g, p) && p[0] == r && p[|p| - 1] == x;
    var q := p + [y];
    forall i | 0 <= i < |q| - 1
      ensures Edge(g, q[i], q[i + 1])
    {
      if i < |p| - 1 {
        assert q[i] == p[i] && q[i + 1] == p[i + 1];
      }
    }
    assert IsPath(g, q) && q[0] == r && q[|q| - 1] == y;
  }

  /**
   * Every block stamped `id` has all the blocks it references stamped `id` too, except for
   * references still waiting in `pending`.
   */
  ghost predicate StampClosedExcept(blocks: map<nat, Block>, id: int, pending: seq<Option<nat>>)
  {
    forall a, k ::
      (a in blocks && blocks[a].sweepID == id && 0 <= k < |blocks[a].pointers| &&
       blocks[a].pointers[k].Some? && blocks[a].pointers[k].value in blocks) ==>
      blocks[blocks[a].pointers[k].value].sweepID == id || blocks[a].pointers[k] in pending
  }

  /** The blocks stamped `id` are closed under references. */
  ghost predicate StampClosed(blocks: map<nat, Block>, id: int)
  {
    StampClosedExcept(blocks, id, [])
  }

  /** Everything reachable from a block stamped `id` is stamped `id` when the stamps are closed
      under references. */
  lemma {:induction false} StampClosedReach(blocks: map<nat, Block>, id: int, p: seq<nat>)
    requires Closed(blocks) && StampClosed(blocks, id)
    requires IsPath(Refs(blocks), p) && p[0] in blocks && blocks[p[0]].sweepID == id
    ensures p[|p| - 1] in blocks && blocks[p[|p| - 1]].sweepID == id
    decreases |p|
  {
    if |p| > 1 {
      var q := p[..|p| - 1];
      assert IsPath(Refs(blocks), q) by {
        forall i | 0 <= i < |q| - 1
          ensures Edge(Refs(blocks), q[i], q[i + 1])
        {
          assert q[i] == p[i] && q[i + 1] == p[i + 1];
        }
      }
      StampClosedReach(blocks, id, q);
      var x, y := p[|p| - 2], p[|p| - 1];
      assert Edge(Refs(blocks), p[|p| - 2], p[|p| - 1]);
      var k :| 0 <= k < |blocks[x].pointers| && blocks[x].pointers[k] == Some(y);
      assert blocks[x].pointers[k].value == y;
    }
  }

  /** Everything reachable from a stamped block is stamped, once the stamps are closed. */
  lemma StampClosedReachable(blocks: map<nat, Block>, id: int, r: nat, y: nat)
    requires Closed(blocks) && StampClosed(blocks, id)
    requires r in blocks && blocks[r].sweepID == id && Reachable(Refs(blocks), r, y)
    ensures y in blocks && blocks[y].sweepID == id
  {
    var p :| IsPath(Refs(blocks), p) && p[0] == r && p[|p| - 1] == y;
    StampClosedReach(blocks, id, p);
  }

  /** `after` differs from `before` at most in sweep ids, and every changed id is `id`. */
  ghost predicate Restamped(before: map<nat, Block>, after: map<nat, Block>, id: int)
  {
    after.Keys == before.Keys &&
    forall a {:trigger after[a]} :: a in before ==>
      after[a].next == before[a].next && after[a].dataSize == before[a].dataSize &&
      after[a].pointers == before[a].pointers &&
      (after[a].sweepID == before[a].sweepID || after[a].sweepID == id)
  }

  /** Restamping keeps the reference graph. */
  lemma RestampedRefs(before: map<nat, Block>, after: map<nat, Block>, id: int)
    requires Restamped(before, after, id)
    ensures Refs(after) == Refs(before)
  {
    forall a | a in before
      ensures Refs(after)[a] == Refs(before)[a]
    {
      var _ := after[a];
    }
  }

  /** Restamping keeps the heap invariant. */
  lemma RestampedInv(start: nat, top: nat, limit: nat, searchStart: nat, before: map<nat, Block>, after: map<nat, Block>, id: int)
    requires HeapInv(start, top, limit, searchStart, before)
    requires Restamped(before, after, id)
    ensures HeapInv(start, top, limit, searchStart, after)
  {
    forall a, k | a in after && 0 <= k < |after[a].pointers| && after[a].pointers[k].Some?
      ensures after[a].pointers[k].value in after
    {
      assert after[a].pointers == before[a].pointers;
    }
    SameLayoutInv(start, top, limit, searchStart, before, after);
  }

  /** Restamping with `id` never raises a sweep id above `id`'s bound. */
  lemma RestampedStamps(before: map<nat, Block>, after: map<nat, Block>, id: int)
    requires Restamped(before, after, id) && StampsAtMost(before, id)
    ensures StampsAtMost(after, id)
  {
    forall a | a in after
      ensures after[a].sweepID <= id
    {
      var _ := before[a];
    }
  }

  /**
   * The collector: the global sweep id and the heap whose blocks it stamps.
   */
  class Collector {
    var sweepID: int
    const heap: Heap

    ghost predicate Valid()
      reads this, heap
    {
      heap.Valid() && StampsAtMost(heap.blocks, sweepID)
    }

    /** The sweep id starts at 0, before any block has been allocated. */
    constructor (h: Heap)
      requires h.Valid() && StampsAtMost(h.blocks, 0)
      ensures Valid()
      ensures heap == h && sweepID == 0
    {
      heap := h;
      sweepID := 0;
    }

    /**
     * Marks the block `root` and everything reachable from it as alive in the current
     * sweep. A null reference and a block already stamped with the current id are left
     * alone; the second test is what stops the walk on cycles and shared blocks. Otherwise
     * the block is stamped and its references are followed (see Trace).
     */
    method Mark(root: Option<nat>)
      requires Valid()
      requires root.Some? ==> root.value in heap.blocks
      modifies heap`blocks
      ensures Valid()
      ensures Restamped(old(heap.blocks), heap.blocks, sweepID)
      ensures root.None? ==> heap.blocks == old(heap.blocks)
      ensures root.Some? && old(heap.blocks)[root.value].sweepID == sweepID ==> heap.blocks == old(heap.blocks)
      ensures root.Some? ==> heap.blocks[root.value].sweepID == sweepID
      ensures forall a {:trigger heap.blocks[a]} :: a in heap.blocks && heap.blocks[a].sweepID != old(heap.blocks)[a].sweepID ==>
        root.Some? && Reachable(Refs(old(heap.blocks)), root.value, a)
      ensures StampClosed(old(heap.blocks), sweepID) ==> StampClosed(heap.blocks, sweepID)
    {
      if root.None? {
        return;
      }
      var r := root.value;
      if heap.blocks[r].sweepID == sweepID {
        return;
      }
      ghost var g0 := heap.blocks;
      Trace(r);
      RestampedInv(heap.start, heap.top, heap.limit, heap.searchStart, g0, heap.blocks, sweepID);
      RestampedStamps(g0, heap.blocks, sweepID);
    }

    /**
     * The walk behind Mark, from an unstamped block `r`: stamps every block it reaches
     * through unstamped blocks. The recursion of the source is run with an explicit stack of
     * references still to visit; a null reference and a block already stamped are skipped.
     */
    method Trace(r: nat)
      requires r in heap.blocks && heap.blocks[r].sweepID != sweepID && Closed(heap.blocks)
      modifies heap`blocks
      ensures Restamped(old(heap.blocks), heap.blocks, sweepID)
      ensures heap.blocks[r].sweepID == sweepID
      ensures ChangedReached(old(heap.blocks), heap.blocks, Refs(old(heap.blocks)), r)
      ensures StampClosed(old(heap.blocks), sweepID) ==> StampClosed(heap.blocks, sweepID)
    {
      var root := Some(r);
      ghost var g0 := heap.blocks;
      ghost var g := Refs(g0);
      ReachRefl(g, r);
      var stack := [root];
      while stack != []
        invariant Restamped(g0, heap.blocks, sweepID)
        invariant AllReached(g, r, stack)
        invariant ChangedReached(g0, heap.blocks, g, r)
        invariant heap.blocks[r].sweepID == sweepID || root in stack
        invariant StampClosed(g0, sweepID) ==> StampClosedExcept(heap.blocks, sweepID, stack)
        decreases |Unstamped(heap.blocks, sweepID)|, |stack|
      {
        var top := stack[|stack| - 1];
        ghost var rest := stack[..|stack| - 1];
        assert stack == rest + [top];
        PopReached(g, r, rest, top);
        stack := stack[..|stack| - 1];
        if top.Some? && heap.blocks[top.value].sweepID != sweepID {
          var x := top.value;
          var b := heap.blocks[x];
          ghost var before := heap.blocks;
          heap.blocks := heap.blocks[x := b.(sweepID := sweepID)];
          StampStep(g0, before, heap.blocks, g, r, x, sweepID);
          if StampClosed(g0, sweepID) {
            StampStepClosed(before, heap.blocks, x, sweepID, rest);
          }
          PushReached(g0, g, r, x, rest);
          stack := stack + b.pointers;
        } else if StampClosed(g0, sweepID) {
          PopSkipClosed(heap.blocks, sweepID, rest, top);
        }
      }
    }

    /**
     * Starts a new sweep: increments the sweep id and marks the block each root refers to.
     * `roots` are the references held in the interpreter's pointer stack. Returns the new id.
     */
    method Sweep(roots: seq<Option<nat>>) returns (id: int)
      requires Valid()
      requires forall j :: 0 <= j < |roots| && roots[j].Some? ==> roots[j].value in heap.blocks
      modifies this`sweepID, heap`blocks
      ensures id == sweepID == old(sweepID) + 1
      ensures Valid()
      ensures Restamped(old(heap.blocks), heap.blocks, id)
      ensures forall a {:trigger heap.blocks[a]} :: a in heap.blocks ==>
        (heap.blocks[a].sweepID == id <==> ReachableFromRoots(Refs(old(heap.blocks)), roots, a))
      ensures forall a {:trigger heap.blocks[a]} :: a in heap.blocks && !ReachableFromRoots(Refs(old(heap.blocks)), roots, a) ==>
        heap.blocks[a].sweepID == old(heap.blocks)[a].sweepID < id
      ensures forall a {:trigger heap.blocks[a]} :: a in heap.blocks ==>
        (Fits(heap.blocks[a], heap.blocks[a].dataSize, id) <==> !ReachableFromRoots(Refs(old(heap.blocks)), roots, a))
    {
      sweepID := sweepID + 1;
      ghost var g0 := heap.blocks;
      ghost var g := Refs(g0);
      NothingStamped(g0, sweepID);
      for i := 0 to |roots|
        invariant sweepID == old(sweepID) + 1
        invariant Valid()
        invariant Restamped(g0, heap.blocks, sweepID)
        invariant StampClosed(heap.blocks, sweepID)
        invariant forall a {:trigger heap.blocks[a]} :: a in heap.blocks ==>
          (heap.blocks[a].sweepID == sweepID <==> ReachableFromRoots(g, roots[..i], a))
      {
        ghost var before := heap.blocks;
        Mark(roots[i]);
        RestampedRefs(before, heap.blocks, sweepID);
        RestampedRefs(g0, before, sweepID);
        SweepStep(g0, before, heap.blocks, roots, i, sweepID);
      }
      assert roots[..|roots|] == roots;
      id := sweepID;
      forall a | a in heap.blocks && !ReachableFromRoots(g, roots, a)
        ensures heap.blocks[a].sweepID == g0[a].sweepID < id
      {
        var _ := g0[a];
      }
    }
  }

  /** Every reference on the stack names a block reachable from `r`. */
  ghost predicate AllReached(g: Graph, r: nat, stack: seq<Option<nat>>)
  {
    forall j :: 0 <= j < |stack| && stack[j].Some? ==> stack[j].value in g && Reachable(g, r, stack[j].value)
  }

  /** Every block whose stamp changed since `g0` is reachable from `r`. */
  ghost predicate ChangedReached(g0: map<nat, Block>, blocks: map<nat, Block>, g: Graph, r: nat)
  {
    forall a {:trigger blocks[a]} :: a in blocks && a in g0 && blocks[a].sweepID != g0[a].sweepID ==> Reachable(g, r, a)
  }

  lemma PopReached(g: Graph, r: nat, rest: seq<Option<nat>>, top: Option<nat>)
    requires AllReached(g, r, rest + [top])
    ensures AllReached(g, r, rest)
    ensures top.Some? ==> top.value in g && Reachable(g, r, top.value)
  {
    assert (rest + [top])[|rest|] == top;
    forall j | 0 <= j < |rest| && rest[j].Some?
      ensures rest[j].value in g && Reachable(g, r, rest[j].value)
    {
      assert (rest + [top])[j] == rest[j];
    }
  }

  /** Pushing the references of a reachable block keeps the stack reachable. */
  lemma PushReached(g0: map<nat, Block>, g: Graph, r: nat, x: nat, rest: seq<Option<nat>>)
    requires Closed(g0) && g == Refs(g0)
    requires AllReached(g, r, rest) && x in g0 && Reachable(g, r, x)
    ensures AllReached(g, r, rest + g0[x].pointers)
  {
    var ps := g0[x].pointers;
    var s := rest + ps;
    forall j | 0 <= j < |s| && s[j].Some?
      ensures s[j].value in g && Reachable(g, r, s[j].value)
    {
      if j >= |rest| {
        var k := j - |rest|;
        assert s[j] == ps[k];
        assert g[x] == ps;
        assert Edge(g, x, ps[k].value);
        ReachStep(g, r, x, ps[k].value);
      } else {
        assert s[j] == rest[j];
      }
    }
  }

  /** Stamping a reachable block keeps the loop's bookkeeping and shrinks the unstamped
      blocks. */
  lemma StampStep(g0: map<nat, Block>, before: map<nat, Block>, after: map<nat, Block>, g: Graph, r: nat, x: nat, id: int)
    requires Restamped(g0, before, id) && ChangedReached(g0, before, g, r)
    requires x in before && before[x].sweepID != id && Reachable(g, r, x)
    requires after == before[x := before[x].(sweepID := id)]
    ensures Restamped(g0, after, id) && ChangedReached(g0, after, g, r)
    ensures after[x].pointers == g0[x].pointers
    ensures |Unstamped(after, id)| < |Unstamped(before, id)|
  {
    UnstampedShrinks(before, after, x, id);
    forall a | a in g0
      ensures after[a].next == g0[a].next && after[a].dataSize == g0[a].dataSize &&
        after[a].pointers == g0[a].pointers && (after[a].sweepID == g0[a].sweepID || after[a].sweepID == id)
    {
      var _ := before[a];
    }
    forall a | a in after && a in g0 && after[a].sweepID != g0[a].sweepID
      ensures Reachable(g, r, a)
    {
      var _ := before[a];
    }
  }

  /** Stamping the popped block keeps the stamps closed up to the stack, now that the block's
      references are pushed. */
  lemma StampStepClosed(before: map<nat, Block>, after: map<nat, Block>, x: nat, id: int, rest: seq<Option<nat>>)
    requires x in before && after == before[x := before[x].(sweepID := id)]
    requires StampClosedExcept(before, id, rest + [Some(x)])
    ensures StampClosedExcept(after, id, rest + before[x].pointers)
  {
    var ps := before[x].pointers;
    forall a, k | a in after && after[a].sweepID == id && 0 <= k < |after[a].pointers| &&
       after[a].pointers[k].Some? && after[a].pointers[k].value in after
      ensures after[after[a].pointers[k].value].sweepID == id || after[a].pointers[k] in rest + ps
    {
      var c := after[a].pointers[k];
      if a == x {
        assert c == ps[k];
        assert (rest + ps)[|rest| + k] == c;
      } else {
        assert before[a] == after[a];
        if c in rest + [Some(x)] && c != Some(x) {
          var j :| 0 <= j < |rest + [Some(x)]| && (rest + [Some(x)])[j] == c;
          assert j < |rest|;
          assert (rest + ps)[j] == c;
        }
      }
    }
  }

  /** Popping a null reference or an already stamped block keeps the stamps closed up to the
      rest of the stack. */
  lemma PopSkipClosed(blocks: map<nat, Block>, id: int, rest: seq<Option<nat>>, top: Option<nat>)
    requires top.Some? ==> top.value in blocks && blocks[top.value].sweepID == id
    requires StampClosedExcept(blocks, id, rest + [top])
    ensures StampClosedExcept(blocks, id, rest)
  {
    forall a, k | a in blocks && blocks[a].sweepID == id && 0 <= k < |blocks[a].pointers| &&
       blocks[a].pointers[k].Some? && blocks[a].pointers[k].value in blocks
      ensures blocks[blocks[a].pointers[k].value].sweepID == id || blocks[a].pointers[k] in rest
    {
      var c := blocks[a].pointers[k];
      if c in rest + [top] && c != top {
        var j :| 0 <= j < |rest + [top]| && (rest + [top])[j] == c;
        assert j < |rest|;
        assert rest[j] == c;
      }
    }
  }

  /** The blocks not stamped `id`. */
  ghost function Unstamped(blocks: map<nat, Block>, id: int): set<nat>
  {
    set a | a in blocks && blocks[a].sweepID != id
  }

  /** Stamping an unstamped block removes exactly that block from the unstamped ones. */
  lemma UnstampedShrinks(before: map<nat, Block>, after: map<nat, Block>, x: nat, id: int)
    requires x in before && before[x].sweepID != id
    requires after == before[x := before[x].(sweepID := id)]
    ensures Unstamped(after, id) == Unstamped(before, id) - {x}
    ensures |Unstamped(after, id)| < |Unstamped(before, id)|
  {
    assert x in Unstamped(before, id);
  }

  /** With every id below the new one, nothing is stamped yet: the stamps are trivially
      closed and no block counts as reached. */
  lemma NothingStamped(blocks: map<nat, Block>, id: int)
    requires StampsAtMost(blocks, id - 1)
    ensures StampClosed(blocks, id)
    ensures forall a {:trigger blocks[a]} :: a in blocks ==> blocks[a].sweepID != id
  {
  }

  /** A block reached from roots[..i], or from roots[i], is reached from roots[..i + 1]. */
  lemma StampedReached(g: Graph, roots: seq<Option<nat>>, i: nat, earlier: bool, a: nat)
    requires i < |roots|
    requires earlier ==> ReachableFromRoots(g, roots[..i], a)
    requires !earlier ==> roots[i].Some? && Reachable(g, roots[i].value, a)
    ensures ReachableFromRoots(g, roots[..i + 1], a)
  {
    if earlier {
      var j :| 0 <= j < |roots[..i]| && roots[..i][j].Some? && Reachable(g, roots[..i][j].value, a);
      assert roots[..i + 1][j] == roots[..i][j];
    } else {
      assert roots[..i + 1][i] == roots[i];
    }
  }

  /** A block reached from roots[..i + 1] is stamped once roots[i] is marked. */
  lemma ReachedStamped(g0: map<nat, Block>, before: map<nat, Block>, after: map<nat, Block>, roots: seq<Option<nat>>, i: nat, id: int, a: nat)
    requires i < |roots| && a in after && a in before
    requires Closed(after) && Refs(after) == Refs(g0)
    requires StampClosed(after, id)
    requires roots[i].Some? ==> roots[i].value in after && after[roots[i].value].sweepID == id
    requires ReachableFromRoots(Refs(g0), roots[..i], a) ==> before[a].sweepID == id
    requires before[a].sweepID == id ==> after[a].sweepID == id
    requires ReachableFromRoots(Refs(g0), roots[..i + 1], a)
    ensures after[a].sweepID == id
  {
    var g := Refs(g0);
    var j :| 0 <= j < |roots[..i + 1]| && roots[..i + 1][j].Some? && Reachable(g, roots[..i + 1][j].value, a);
    if j < i {
      assert roots[..i][j] == roots[..i + 1][j];
    } else {
      StampClosedReachable(after, id, roots[i].value, a);
    }
  }

  /** One root of a sweep: after marking `roots[i]`, the stamped blocks are those reachable
      from roots[..i + 1]. */
  lemma SweepStep(g0: map<nat, Block>, before: map<nat, Block>, after: map<nat, Block>, roots: seq<Option<nat>>, i: nat, id: int)
    requires i < |roots|
    requires Closed(after) && Refs(after) == Refs(g0) && Refs(before) == Refs(g0)
    requires after.Keys == before.Keys
    requires StampClosed(after, id)
    requires roots[i].Some? ==> roots[i].value in after && after[roots[i].value].sweepID == id
    requires forall a {:trigger before[a]} :: a in before ==>
      (before[a].sweepID == id <==> ReachableFromRoots(Refs(g0), roots[..i], a))
    requires forall a {:trigger after[a]} :: a in after && after[a].sweepID != before[a].sweepID ==>
      roots[i].Some? && Reachable(Refs(g0), roots[i].value, a)
    requires forall a {:trigger after[a]} :: a in after && before[a].sweepID == id ==> after[a].sweepID == id
    ensures forall a {:trigger after[a]} :: a in after ==>
      (after[a].sweepID == id <==> ReachableFromRoots(Refs(g0), roots[..i + 1], a))
  {
    forall a | a in after
      ensures after[a].sweepID == id <==> ReachableFromRoots(Refs(g0), roots[..i + 1], a)
    {
      var _ := before[a];
      if after[a].sweepID == id {
        StampedReached(Refs(g0), roots, i, before[a].sweepID == id, a);
      }
      if ReachableFromRoots(Refs(g0), roots[..i + 1], a) {
        ReachedStamped(g0, before, after, roots, i, id, a);
      }
    }
  }
}
