/** The state machine behind AllocatorAlloc and AllocatorFree
    (DynamicMemoryPool/memPool.c), with each pool operation taken as one
    atomic step under the pool lock. Blocks are records of an arena,
    identified by their address; a free list is a sequence whose element 0
    is the list head. */
module MemPoolSpec {
  import opened Wrappers
  import opened MemPoolSizing

  /** A block header: `addr` stands for the block's address, `index` for its
      size class in boundary units (mempool_block.index). */
  datatype Block = Block(addr: nat, index: int)

  /** The fixed part of a pool: m_max_index (number of list heads),
      m_min_alloc, m_uint32_max and m_boundary_index. */
  datatype Config = Config(maxIndex: int, minAlloc: int, uint32Max: int, boundaryIndex: nat)

  /** The part of a pool that allocation and release change: the list heads
      `free`, the hint `max_index`, and the budget `max_free_index` and
      `current_free_index`, all in boundary units. */
  datatype Pool = Pool(free: seq<seq<Block>>, maxIndex: int, maxFreeIndex: int, currentFreeIndex: int)

  /** What AllocatorAlloc hands back: NULL for a class above m_uint32_max or
      a failed malloc, otherwise a recycled or a freshly carved block. */
  datatype Grant = TooLarge | OutOfMemory | Recycled(block: Block) | Carved(block: Block)

  /** The size class of a request under the pool's configuration. */
  function RequestClass(c: Config, size: int): int {
    SizeClass(c.boundaryIndex, c.minAlloc, size)
  }

  // ---------------------------------------------------------------------
  // Contents of the lists

  /** All free blocks, bucket 0 first. */
  function Flatten(free: seq<seq<Block>>): seq<Block> {
    if free == [] then [] else Flatten(free[..|free| - 1]) + free[|free| - 1]
  }

  /** The blocks the pool holds, as a multiset. */
  function Held(p: Pool): multiset<Block> {
    multiset(Flatten(p.free))
  }

  /** Sum of the classes of a list of blocks. */
  function SumIndex(s: seq<Block>): int {
    if s == [] then 0 else s[0].index + SumIndex(s[1..])
  }

  /** Sum of the classes of all retained blocks. */
  function Retained(p: Pool): int {
    SumIndex(Flatten(p.free))
  }

  // ---------------------------------------------------------------------
  // The invariant AllocatorAlloc and AllocatorFree keep

  /** A block may sit in bucket `i` when `i` is its class, or, in bucket 0,
      when its class is 0 or at least m_max_index. */
  predicate InBucket(c: Config, b: Block, i: int) {
    0 <= b.index <= c.uint32Max &&
    (if i == 0 then b.index == 0 || b.index >= c.maxIndex else b.index == i)
  }

  predicate Shape(c: Config, p: Pool) {
    c.maxIndex >= 1 && |p.free| == c.maxIndex && -1 <= p.maxIndex < c.maxIndex
  }

  /** Every block sits in a bucket it may occupy. */
  predicate Members(c: Config, free: seq<seq<Block>>) {
    forall i, j :: 0 <= i < |free| && 0 <= j < |free[i]| ==> InBucket(c, free[i][j], i)
  }

  /** The hint never undercounts: every non-empty bucket from 1 up is at
      most `max_index`, and a positive `max_index` names a non-empty bucket.
      Bucket 0 is not covered: the hint may be -1 or 0 with bucket 0 in use. */
  predicate HintOk(p: Pool) {
    (forall i :: 1 <= i < |p.free| && p.free[i] != [] ==> i <= p.maxIndex) &&
    (1 <= p.maxIndex < |p.free| ==> p.free[p.maxIndex] != [])
  }

  /** Budget conservation: with a finite budget, what is left plus what is
      retained is the budget; an unlimited budget keeps `current_free_index`
      at 0. (A negative budget, from a negative capacity, retains nothing.) */
  predicate BudgetOk(p: Pool) {
    if p.maxFreeIndex == AllocatorMaxFreeUnlimited then p.currentFreeIndex == 0
    else
      p.currentFreeIndex + Retained(p) == p.maxFreeIndex &&
      p.currentFreeIndex >= (if p.maxFreeIndex < 0 then p.maxFreeIndex else 0)
  }

  /** No block is held twice. */
  predicate NoDuplicates(m: multiset<Block>) {
    forall b :: b in m ==> m[b] == 1
  }

  predicate Valid(c: Config, p: Pool) {
    Shape(c, p) && Members(c, p.free) && HintOk(p) && BudgetOk(p) && NoDuplicates(Held(p))
  }

  // ---------------------------------------------------------------------
  // AllocatorAlloc

  /** The upward bucket scan: the first non-empty bucket from `i` to `top`,
      or `top` when all of them are empty. */
  function ScanUp(free: seq<seq<Block>>, i: int, top: int): (j: int)
    requires 0 <= i <= top < |free|
    ensures i <= j <= top
    ensures forall k :: i <= k < j ==> free[k] == []
    ensures free[j] != [] || j == top
    decreases top - i
  {
    if free[i] == [] && i < top then ScanUp(free, i + 1, top) else i
  }

  /** The hint-lowering do-while started at `top`: step down at least once,
      and keep stepping while the bucket is empty and the hint positive.
      Started at 0 it ends at -1. */
  function LowerHint(free: seq<seq<Block>>, top: int): (m: int)
    requires 0 <= top < |free|
    ensures -1 <= m < top
    ensures top >= 1 ==> m >= 0
    ensures m >= 1 ==> free[m] != []
    ensures forall k :: m < k < top && k >= 1 ==> free[k] == []
    decreases top
  {
    var m := top - 1;
    if m > 0 && free[m] == [] then LowerHint(free, m) else m
  }

  /** The first-fit walk of bucket 0 from position `k`: the first block whose
      class is at least `index`, or the list's length when there is none. */
  function FirstFit(list: seq<Block>, index: int, k: nat): (r: nat)
    requires k <= |list|
    ensures k <= r <= |list|
    ensures forall j :: k <= j < r ==> list[j].index < index
    ensures r < |list| ==> list[r].index >= index
    decreases |list| - k
  {
    if k < |list| && index > list[k].index then FirstFit(list, index, k + 1) else k
  }

  /** `current_free_index += index`, then clamped to `max_free_index`. */
  function Restore(cur: int, maxFree: int, index: int): int {
    if cur + index > maxFree then maxFree else cur + index
  }

  /** Detach the head of bucket `i`; when that empties the top bucket, lower
      the hint. */
  function TakeHead(p: Pool, i: int): (Pool, Grant)
    requires 0 <= p.maxIndex < |p.free| && 0 <= i <= p.maxIndex && p.free[i] != []
  {
    var node := p.free[i][0];
    var free' := p.free[i := p.free[i][1..]];
    var max' := if free'[i] == [] && i >= p.maxIndex then LowerHint(free', p.maxIndex) else p.maxIndex;
    (Pool(free', max', p.maxFreeIndex, Restore(p.currentFreeIndex, p.maxFreeIndex, node.index)),
     Recycled(node))
  }

  /** Unlink the block at position `k` of bucket 0. */
  function TakeFromOverflow(p: Pool, k: nat): (Pool, Grant)
    requires |p.free| >= 1 && k < |p.free[0]|
  {
    var list := p.free[0];
    var node := list[k];
    (Pool(p.free[0 := list[..k] + list[k + 1..]], p.maxIndex, p.maxFreeIndex,
          Restore(p.currentFreeIndex, p.maxFreeIndex, node.index)),
     Recycled(node))
  }

  /** Carve a fresh block from the system; `sys` is what malloc returns.
      Nothing in the pool changes. */
  function Carve(p: Pool, index: int, sys: Option<nat>): (Pool, Grant) {
    match sys
    case None => (p, OutOfMemory)
    case Some(a) => (p, Carved(Block(a, index)))
  }

  /** AllocatorAlloc: the new pool and the grant for a request of `size`
      bytes, given the block malloc would return if the pool has none. */
  function AllocSpec(c: Config, p: Pool, size: int, sys: Option<nat>): (Pool, Grant)
    requires Shape(c, p) && size >= 0
  {
    var index := RequestClass(c, size);
    SizeClassFits(c.boundaryIndex, c.minAlloc, size);
    if index > c.uint32Max then (p, TooLarge)
    else if index <= p.maxIndex then
      var i := ScanUp(p.free, index, p.maxIndex);
      if p.free[i] != [] then TakeHead(p, i) else Carve(p, index, sys)
    else if p.free[0] != [] then
      var k := FirstFit(p.free[0], index, 0);
      if k < |p.free[0]| then TakeFromOverflow(p, k) else Carve(p, index, sys)
    else Carve(p, index, sys)
  }

  // ---------------------------------------------------------------------
  // AllocatorFree

  /** The blocks of a release chain are blocks of this pool that are not
      free already, each named once. */
  predicate ChainOk(c: Config, p: Pool, chain: seq<Block>) {
    (forall j :: 0 <= j < |chain| ==> 0 <= chain[j].index <= c.uint32Max) &&
    (forall j :: 0 <= j < |chain| ==> chain[j] !in Held(p)) &&
    NoDuplicates(multiset(chain))
  }

  /** Whether a released block of class `index` goes back to the system. */
  predicate Evicts(p: Pool, index: int) {
    p.maxFreeIndex != AllocatorMaxFreeUnlimited && index > p.currentFreeIndex
  }

  /** One pass of the release loop: evict the block, or push it onto the
      head of its bucket (bucket 0 for classes of m_max_index and above),
      raising the hint and charging the budget. */
  function ReleaseStep(c: Config, p: Pool, b: Block): (r: (Pool, bool))
    requires |p.free| == c.maxIndex >= 1 && b.index >= 0
    ensures |r.0.free| == |p.free| && r.0.maxFreeIndex == p.maxFreeIndex
    ensures -1 <= p.maxIndex < |p.free| ==> -1 <= r.0.maxIndex < |p.free|
  {
    if Evicts(p, b.index) then (p, true)
    else
      var t := if b.index < c.maxIndex then b.index else 0;
      var max' := if b.index < c.maxIndex && p.free[t] == [] && b.index > p.maxIndex
                  then b.index else p.maxIndex;
      var cur' := if p.currentFreeIndex >= b.index then p.currentFreeIndex - b.index else 0;
      (Pool(p.free[t := [b] + p.free[t]], max', p.maxFreeIndex, cur'), false)
  }

  /** The release loop over the rest of the chain; evicted blocks are pushed
      onto the head of the side list `freelist`. */
  function ReleaseChain(c: Config, p: Pool, chain: seq<Block>, freelist: seq<Block>): (r: (Pool, seq<Block>))
    requires |p.free| == c.maxIndex >= 1
    requires forall j :: 0 <= j < |chain| ==> chain[j].index >= 0
    ensures |r.0.free| == |p.free| && r.0.maxFreeIndex == p.maxFreeIndex
    ensures Shape(c, p) ==> Shape(c, r.0)
    decreases |chain|
  {
    if chain == [] then (p, freelist)
    else
      var r := ReleaseStep(c, p, chain[0]);
      ReleaseChain(c, r.0, chain[1..], if r.1 then [chain[0]] + freelist else freelist)
  }

  /** AllocatorFree of a chain: the new pool and the side list of blocks
      returned to the system, last evicted first. */
  function ReleaseSpec(c: Config, p: Pool, chain: seq<Block>): (r: (Pool, seq<Block>))
    requires |p.free| == c.maxIndex >= 1
    requires forall j :: 0 <= j < |chain| ==> chain[j].index >= 0
    ensures Shape(c, p) ==> Shape(c, r.0)
  {
    ReleaseChain(c, p, chain, [])
  }

  // ---------------------------------------------------------------------
  // AllocatorMaxFreeSet and creation

  /** The budget, in boundary units, of a capacity of `size` bytes. */
  function BudgetUnits(c: Config, size: int): int {
    Align(size, Pow2(c.boundaryIndex)) / Pow2(c.boundaryIndex)
  }

  /** AllocatorMaxFreeSet: move the remaining budget by the change of the
      ceiling, then clamp it to the new ceiling. */
  function MaxFreeSetSpec(c: Config, p: Pool, size: int): Pool {
    var m := BudgetUnits(c, size);
    var cur := p.currentFreeIndex + m - p.maxFreeIndex;
    p.(maxFreeIndex := m, currentFreeIndex := if cur > m then m else cur)
  }

  /** The state MemPoolCreate leaves: empty lists, hint 0, and the budget of
      `size` when it is not ALLOCATOR_MAX_FREE_UNLIMITED. */
  function Created(c: Config, size: int): Pool
    requires c.maxIndex >= 1
  {
    var empty := Pool(seq(c.maxIndex, _ => []), 0, AllocatorMaxFreeUnlimited, 0);
    if size != AllocatorMaxFreeUnlimited then MaxFreeSetSpec(c, empty, size) else empty
  }

  /** The configuration of MemPoolCreateDefault. */
  function DefaultConfig(): Config {
    Config(DefaultMaxIndex, DefaultMinAlloc, DefaultUint32Max, DefaultBoundaryIndex)
  }

  // ---------------------------------------------------------------------
  // AllocatorDestroy

  /** AllocatorDestroy dereferences each list head before testing it, so it
      only survives when every bucket it visits is non-empty. */
  predicate DestroySurvives(p: Pool) {
    forall i :: 0 <= i < p.maxIndex && i < |p.free| ==> p.free[i] != []
  }

  /** The blocks AllocatorDestroy returns to the system: buckets below
      `max_index`, in list order. */
  function DestroyReleased(p: Pool): seq<Block>
    requires p.maxIndex <= |p.free|
  {
    Flatten(p.free[..if p.maxIndex < 0 then 0 else p.maxIndex])
  }
}
