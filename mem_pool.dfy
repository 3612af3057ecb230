/** The pool object of DynamicMemoryPool/memPool.c: its list heads are an
    array updated in place, its hint and budget are fields, and each
    operation is proved to perform one step of the MemPoolSpec state
    machine. */
module MemPool {
  import opened Wrappers
  import opened MemPoolSizing
  import opened MemPoolSpec
  import MemPoolLaws

  /** struct mempool_alloc. The list heads `free` are a fixed array of
      `cfg.maxIndex` lists; each list is the sequence of blocks reached
      from its head through `next`. */
  class Allocator {
    const cfg: Config
    const free: array<seq<Block>>
    var maxIndex: int
    var maxFreeIndex: int
    var currentFreeIndex: int

    /** The abstract pool this object stands for. */
    function State(): Pool
      reads this, free
    {
      Pool(free[..], maxIndex, maxFreeIndex, currentFreeIndex)
    }

    ghost predicate Valid()
      reads this, free
    {
      MemPoolSpec.Valid(cfg, State())
    }

    /** The body of MemPoolCreate after both mallocs succeed: zeroed record
        (hint 0, unlimited budget), all list heads NULL, then
        AllocatorMaxFreeSet when a capacity is given. */
    constructor Create(size: int, config: Config)
      requires config.maxIndex >= 1
      ensures Valid() && cfg == config && State() == Created(config, size)
      ensures fresh(free)
    {
      cfg := config;
      free := new seq<Block>[config.maxIndex](_ => []);
      maxIndex := 0;
      maxFreeIndex := AllocatorMaxFreeUnlimited;
      currentFreeIndex := 0;
      new;
      assert free[..] == seq(config.maxIndex, _ => []);
      if size != AllocatorMaxFreeUnlimited {
        MaxFreeSet(size);
      }
      MemPoolLaws.CreatedValid(config, size);
    }

    /** AllocatorMaxFreeSet: the ceiling becomes the capacity in boundary
        units and the remaining budget moves by the change, clamped. */
    method MaxFreeSet(size: int)
      modifies this
      ensures State() == MaxFreeSetSpec(cfg, old(State()), size)
    {
      var m := Align(size, Pow2(cfg.boundaryIndex)) / Pow2(cfg.boundaryIndex);
      currentFreeIndex := currentFreeIndex + m;
      currentFreeIndex := currentFreeIndex - maxFreeIndex;
      maxFreeIndex := m;
      if currentFreeIndex > m {
        currentFreeIndex := m;
      }
    }

    /** AllocatorAlloc. `sys` is what malloc returns if the pool has no
        block to give. */
    method Alloc(size: int, sys: Option<nat>) returns (g: Grant)
      requires Valid() && size >= 0
      modifies this, free
      ensures Valid()
      ensures (State(), g) == AllocSpec(cfg, old(State()), size, sys)
    {
      ghost var p := State();
      SizeClassFits(cfg.boundaryIndex, cfg.minAlloc, size);
      var boundary := Pow2(cfg.boundaryIndex);
      var bytes := Align(size + MemNodeSize(), boundary);
      if bytes < cfg.minAlloc {
        bytes := cfg.minAlloc;
      }
      var index := bytes / boundary - 1;
      assert index == RequestClass(cfg, size);
      var found := false;
      if index > cfg.uint32Max {
        g := TooLarge;
      } else if index <= maxIndex {
        var i := ScanBuckets(index);
        if free[i] != [] {
          g := TakeBucketHead(i);
          found := true;
        }
      } else if free[0] != [] {
        var k := FirstFitOverflow(index);
        if k < |free[0]| {
          g := TakeOverflow(k);
          found := true;
        }
      }
      if index <= cfg.uint32Max && !found {
        match sys
        case None =>
          g := OutOfMemory;
        case Some(a) =>
          g := Carved(Block(a, index));
      }
      MemPoolLaws.AllocValid(cfg, p, size, sys);
    }

    /** The upward scan from bucket `index` to the hint. */
    method ScanBuckets(index: int) returns (i: int)
      requires Valid() && 0 <= index <= maxIndex
      ensures i == ScanUp(free[..], index, maxIndex)
    {
      var top := maxIndex;
      i := index;
      while free[i] == [] && i < top
        invariant index <= i <= top
        invariant ScanUp(free[..], i, top) == ScanUp(free[..], index, top)
        decreases top - i
      {
        i := i + 1;
      }
    }

    /** Unlink the head of bucket `i` and restore its class to the budget.
        When that empties the bucket at the hint, the hint is lowered by a
        do-while that steps down at least once; the C evaluates
        `*ref == NULL` before `max_index > 0` and so reads free[-1] when the
        hint reaches -1, which does not change the result. */
    method TakeBucketHead(i: int) returns (g: Grant)
      requires Valid() && 0 <= i <= maxIndex && free[i] != []
      modifies this, free
      ensures (State(), g) == TakeHead(old(State()), i)
    {
      var top := maxIndex;
      var node := free[i][0];
      free[i] := free[i][1..];
      if free[i] == [] && i >= top {
        var m := top - 1;
        while m > 0 && free[m] == []
          invariant -1 <= m < top
          invariant LowerHint(free[..], m + 1) == LowerHint(free[..], top)
        {
          m := m - 1;
        }
        maxIndex := m;
      }
      currentFreeIndex := currentFreeIndex + node.index;
      if currentFreeIndex > maxFreeIndex {
        currentFreeIndex := maxFreeIndex;
      }
      g := Recycled(node);
    }

    /** The first-fit walk of bucket 0. */
    method FirstFitOverflow(index: int) returns (k: nat)
      requires Valid()
      ensures k == FirstFit(free[0], index, 0)
    {
      var list := free[0];
      k := 0;
      while k < |list| && index > list[k].index
        invariant 0 <= k <= |list|
        invariant FirstFit(list, index, k) == FirstFit(list, index, 0)
        decreases |list| - k
      {
        k := k + 1;
      }
    }

    /** Unlink the block at position `k` of bucket 0 and restore its class
        to the budget. */
    method TakeOverflow(k: nat) returns (g: Grant)
      requires Valid() && k < |free[0]|
      modifies this, free
      ensures (State(), g) == TakeFromOverflow(old(State()), k)
    {
      var list := free[0];
      var node := list[k];
      free[0] := list[..k] + list[k + 1..];
      currentFreeIndex := currentFreeIndex + node.index;
      if currentFreeIndex > maxFreeIndex {
        currentFreeIndex := maxFreeIndex;
      }
      g := Recycled(node);
    }

    /** AllocatorFree of the chain that starts at the released block and
        follows `next`: each block is evicted onto the side list, or pushed
        onto the head of its list; the hint and the budget are kept in
        locals and written back after the loop. Returns the side list, whose
        blocks go back to the system. */
    method Release(chain: seq<Block>) returns (evicted: seq<Block>)
      requires Valid() && chain != [] && ChainOk(cfg, State(), chain)
      modifies this, free
      ensures Valid()
      ensures (State(), evicted) == ReleaseSpec(cfg, old(State()), chain)
    {
      ghost var p := State();
      evicted := ReleaseLoop(chain);
      MemPoolLaws.ReleaseValid(cfg, p, chain);
    }

    /** The loop of AllocatorFree, which needs only the shape of the pool
        and blocks of non-negative class. */
    method ReleaseLoop(chain: seq<Block>) returns (evicted: seq<Block>)
      requires free.Length == cfg.maxIndex >= 1
      requires forall j :: 0 <= j < |chain| ==> chain[j].index >= 0
      modifies this, free
      ensures (State(), evicted) == ReleaseSpec(cfg, old(State()), chain)
    {
      ghost var p := State();
      var top := maxIndex;
      var maxFree := maxFreeIndex;
      var cur := currentFreeIndex;
      var freelist: seq<Block> := [];
      var n := 0;
      while n < |chain|
        invariant 0 <= n <= |chain|
        invariant maxFreeIndex == maxFree == p.maxFreeIndex
        invariant ReleaseChain(cfg, Pool(free[..], top, maxFree, cur), chain[n..], freelist)
                  == ReleaseSpec(cfg, p, chain)
      {
        var node := chain[n];
        var index := node.index;
        ghost var q := Pool(free[..], top, maxFree, cur);
        ghost var fl := freelist;
        assert chain[n..][0] == node && chain[n..][1..] == chain[n + 1..];
        if maxFree != AllocatorMaxFreeUnlimited && index > cur {
          freelist := [node] + freelist;
        } else if index < cfg.maxIndex {
          if free[index] == [] && index > top {
            top := index;
          }
          free[index] := [node] + free[index];
          if cur >= index {
            cur := cur - index;
          } else {
            cur := 0;
          }
        } else {
          free[0] := [node] + free[0];
          if cur >= index {
            cur := cur - index;
          } else {
            cur := 0;
          }
        }
        assert (Pool(free[..], top, maxFree, cur), freelist) ==
               (ReleaseStep(cfg, q, node).0,
                if ReleaseStep(cfg, q, node).1 then [node] + fl else fl);
        n := n + 1;
      }
      maxIndex := top;
      currentFreeIndex := cur;
      evicted := freelist;
    }

    /** AllocatorDestroy as written: buckets 0 to `max_index - 1` are walked,
        each list freed block by block. The inner loop tests `Next->next`
        before `Next != NULL`, so it needs every bucket it visits to be
        non-empty. Returns the blocks freed, in order. */
    method Destroy() returns (released: seq<Block>)
      requires maxIndex <= free.Length && DestroySurvives(State())
      ensures released == DestroyReleased(State())
    {
      released := [];
      var i := 0;
      while i < maxIndex
        invariant 0 <= i <= if maxIndex < 0 then 0 else maxIndex
        invariant released == Flatten(free[..i])
      {
        var list := free[i];
        var k := 0;
        while k + 1 < |list|
          invariant 0 <= k < |list|
          invariant released == Flatten(free[..i]) + list[..k]
        {
          released := released + [list[k]];
          k := k + 1;
        }
        released := released + [list[k]];
        assert list[..k] + [list[k]] == list;
        MemPoolLaws.FlattenSnoc(free[..], i);
        i := i + 1;
      }
      assert free[..i] == State().free[..if maxIndex < 0 then 0 else maxIndex];
    }

    /** AllocatorDestroy as intended: every bucket is walked, empty ones
        included, so each block the pool holds is freed exactly once. */
    method DestroyAll() returns (released: seq<Block>)
      ensures released == Flatten(free[..])
      ensures multiset(released) == Held(State())
    {
      released := [];
      var i := 0;
      while i < free.Length
        invariant 0 <= i <= free.Length
        invariant released == Flatten(free[..i])
      {
        var list := free[i];
        var k := 0;
        while k < |list|
          invariant 0 <= k <= |list|
          invariant released == Flatten(free[..i]) + list[..k]
        {
          released := released + [list[k]];
          k := k + 1;
        }
        assert list[..k] == list;
        MemPoolLaws.FlattenSnoc(free[..], i);
        i := i + 1;
      }
      assert free[..i] == free[..];
    }
  }

  /** MemPoolCreate: NULL when either malloc fails (`recordOk` for the
      record, `headsOk` for the list heads), otherwise a valid empty pool of
      the given configuration and capacity. */
  method MemPoolCreate(size: int, config: Config, recordOk: bool, headsOk: bool)
    returns (a: Allocator?)
    requires config.maxIndex >= 1
    ensures a == null <==> !(recordOk && headsOk)
    ensures a != null ==> fresh(a) && a.Valid() && a.cfg == config && a.State() == Created(config, size)
  {
    if !recordOk || !headsOk {
      return null;
    }
    a := new Allocator.Create(size, config);
  }

  /** MemPoolCreateDefault: the default configuration with an unlimited
      budget, or NULL when either malloc fails. */
  method MemPoolCreateDefault(recordOk: bool, headsOk: bool) returns (a: Allocator?)
    ensures a == null <==> !(recordOk && headsOk)
    ensures a != null ==> fresh(a) && a.Valid() && a.cfg == DefaultConfig() &&
                          a.State() == Created(DefaultConfig(), AllocatorMaxFreeUnlimited)
  {
    if !recordOk || !headsOk {
      return null;
    }
    a := new Allocator.Create(AllocatorMaxFreeUnlimited, DefaultConfig());
  }
}
