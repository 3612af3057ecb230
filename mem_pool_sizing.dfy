/** The sizing macros and default constants of the dynamic memory pool
    (DynamicMemoryPool/memPool.h) and the size-class computation that
    AllocatorAlloc performs before it touches any list. */
module MemPoolSizing {

  /** DEFAULT_MAX_INDEX: number of free-list heads of a default pool. */
  const DefaultMaxIndex: int := 256
  /** DEFAULT_MIN_ALLOC: smallest block, in bytes, a default pool carves. */
  const DefaultMinAlloc: int := 8192
  /** DEFAULT_UINT32_MAX: largest size class, in boundary units, a default pool serves. */
  const DefaultUint32Max: int := 2048
  /** DEFAULT_BOUNDARY_INDEX: block sizes grow in steps of 2^12 = 4096 bytes. */
  const DefaultBoundaryIndex: nat := 12
  /** ALLOCATOR_MAX_FREE_UNLIMITED: a retention budget of 0 means "no limit". */
  const AllocatorMaxFreeUnlimited: int := 0

  /** sizeof(mempool_block) on an LP64 glibc target built without PRINTF:
      a 40-byte mutex, next, ref, index (padded to 8), m_pool and m_bData. */
  const BlockStructSize: int := 80
  /** sizeof(mempool_alloc) on the same target: three ints (padded), the mutex,
      owner, free, five ints (padded) and six function pointers. */
  const AllocatorStructSize: int := 144

  /** 2^k, the value of `1 << k`. */
  function Pow2(k: nat): (r: int)
    ensures r >= 1
  {
    if k == 0 then 1 else 2 * Pow2(k - 1)
  }

  /** ALIGN(size, b): `(size + b - 1) & ~(b - 1)`. For a power of two `b` the
      mask clears the low bits, which is rounding down to a multiple of `b`;
      Dafny's `/` rounds toward negative infinity for a positive divisor, as
      the two's-complement mask does, so negative sizes agree too. */
  function Align(size: int, b: int): int
    requires b >= 1
  {
    ((size + b - 1) / b) * b
  }

  /** ALIGN_DEFAULT(size): ALIGN(size, 8). */
  function AlignDefault(size: int): int {
    Align(size, 8)
  }

  /** MEMNODE_T_SIZE: the block header that precedes every payload. */
  function MemNodeSize(): int {
    AlignDefault(BlockStructSize)
  }

  /** SIZEOF_ALLOCATOR_T: the bytes MemPoolCreate asks for the pool record. */
  function SizeofAllocator(): int {
    AlignDefault(AllocatorStructSize)
  }

  /** ALIGN yields the least multiple of `b` that is at least `size`. */
  lemma AlignIsLeastMultiple(size: int, b: int)
    requires b >= 1
    ensures Align(size, b) % b == 0
    ensures size <= Align(size, b) < size + b
    ensures forall m :: size <= m * b ==> Align(size, b) <= m * b
  {
    var q := (size + b - 1) / b;
    var r := (size + b - 1) % b;
    assert size + b - 1 == q * b + r && 0 <= r < b;
    assert Align(size, b) == q * b;
    DivModUnique(q * b, b, q, 0);
    forall m | size <= m * b
      ensures q * b <= m * b
    {
      MulMonotone(m + 1, q, b);
      MulMonotone(q, m, b);
    }
  }

  /** Euclidean division has exactly one quotient and remainder. */
  lemma DivModUnique(x: int, b: int, q: int, r: int)
    requires b >= 1 && x == q * b + r && 0 <= r < b
    ensures x / b == q && x % b == r
  {
    var q' := x / b;
    MulMonotone(q' + 1, q, b);
    MulMonotone(q + 1, q', b);
  }

  /** Multiplying by a positive factor keeps the order; `(x + 1) * b` is `x * b + b`. */
  lemma MulMonotone(x: int, y: int, b: int)
    requires b >= 1
    ensures x <= y ==> x * b <= y * b
    ensures (x + 1) * b == x * b + b && (y + 1) * b == y * b + b
  {
    assert y * b - x * b == (y - x) * b;
  }

  /** ALIGN is monotone in the size. */
  lemma AlignMonotone(s1: int, s2: int, b: int)
    requires b >= 1 && s1 <= s2
    ensures Align(s1, b) <= Align(s2, b)
  {
    AlignIsLeastMultiple(s1, b);
    AlignIsLeastMultiple(s2, b);
    var q2 := (s2 + b - 1) / b;
    assert Align(s2, b) == q2 * b;
    assert s1 <= q2 * b;
  }

  /** ALIGN_DEFAULT rounds to a multiple of 8, so both header sizes are
      multiples of 8 and no smaller than the structs they cover. */
  lemma HeaderSizesAreAligned()
    ensures MemNodeSize() % 8 == 0 && MemNodeSize() >= BlockStructSize
    ensures SizeofAllocator() % 8 == 0 && SizeofAllocator() >= AllocatorStructSize
  {
    AlignIsLeastMultiple(BlockStructSize, 8);
    AlignIsLeastMultiple(AllocatorStructSize, 8);
  }

  /** The bytes AllocatorAlloc would carve for a request of `size` bytes:
      header plus payload rounded up to the boundary, raised to the minimum. */
  function BlockBytes(boundaryIndex: nat, minAlloc: int, size: int): int {
    var aligned := Align(size + MemNodeSize(), Pow2(boundaryIndex));
    if aligned < minAlloc then minAlloc else aligned
  }

  /** The size class (the block's `index`) of a request of `size` bytes:
      its carved size in boundary units, minus one. */
  function SizeClass(boundaryIndex: nat, minAlloc: int, size: int): int {
    BlockBytes(boundaryIndex, minAlloc, size) / Pow2(boundaryIndex) - 1
  }

  /** A larger request never maps to a smaller class. */
  lemma SizeClassMonotone(boundaryIndex: nat, minAlloc: int, s1: int, s2: int)
    requires s1 <= s2
    ensures SizeClass(boundaryIndex, minAlloc, s1) <= SizeClass(boundaryIndex, minAlloc, s2)
  {
    var b := Pow2(boundaryIndex);
    AlignMonotone(s1 + MemNodeSize(), s2 + MemNodeSize(), b);
    var t1 := BlockBytes(boundaryIndex, minAlloc, s1);
    var t2 := BlockBytes(boundaryIndex, minAlloc, s2);
    assert t1 <= t2;
    DivMonotone(t1, t2, b);
  }

  lemma DivMonotone(x: int, y: int, b: int)
    requires b >= 1 && x <= y
    ensures x / b <= y / b
  {
    MulMonotone(y / b + 1, x / b, b);
  }

  /** A block of the computed class has room for the header and the payload,
      counting only whole boundary units, and the carved bytes cover it; the
      class of a non-negative request is never negative. */
  lemma SizeClassFits(boundaryIndex: nat, minAlloc: int, size: int)
    requires size >= 0
    ensures var c := SizeClass(boundaryIndex, minAlloc, size);
      c >= 0 &&
      size + MemNodeSize() <= (c + 1) * Pow2(boundaryIndex) <= BlockBytes(boundaryIndex, minAlloc, size)
  {
    var b := Pow2(boundaryIndex);
    var need := size + MemNodeSize();
    AlignIsLeastMultiple(need, b);
    HeaderSizesAreAligned();
    ClassArith(need, b, Align(need, b), BlockBytes(boundaryIndex, minAlloc, size));
  }

  /** Whole units of `b` in `t`, when `t` is at least a positive multiple of
      `b` that covers `need`, are at least one and still cover `need`. */
  lemma ClassArith(need: int, b: int, aligned: int, t: int)
    requires b >= 1 && 1 <= need <= aligned <= t && aligned % b == 0
    ensures t / b >= 1 && need <= (t / b) * b <= t
  {
    var m := aligned / b;
    assert aligned == m * b;
    MulMonotone(m, 0, b);
    DivMonotone(aligned, t, b);
    MulMonotone(m, t / b, b);
    assert t == (t / b) * b + t % b;
  }

  /** With the default configuration the smallest class is 1 (8192 bytes), and
      a request is too large exactly when it needs more than 2049 units. */
  lemma DefaultClassBounds(size: int)
    requires size >= 0
    ensures SizeClass(DefaultBoundaryIndex, DefaultMinAlloc, size) >= 1
    ensures SizeClass(DefaultBoundaryIndex, DefaultMinAlloc, 0) == 1
    ensures SizeClass(DefaultBoundaryIndex, DefaultMinAlloc, size) <= DefaultUint32Max
            <==> size + MemNodeSize() <= (DefaultUint32Max + 1) * Pow2(DefaultBoundaryIndex)
  {
    var b := Pow2(DefaultBoundaryIndex);
    assert b == 4096;
    HeaderSizesAreAligned();
    var aligned := Align(size + MemNodeSize(), b);
    AlignIsLeastMultiple(size + MemNodeSize(), b);
    assert Align(0 + MemNodeSize(), b) == 4096;
    var t := BlockBytes(DefaultBoundaryIndex, DefaultMinAlloc, size);
    assert t >= 8192;
    DivMonotone(8192, t, b);
    var m := aligned / b;
    assert aligned == m * b;
    DivModUnique(aligned, b, m, 0);
    MulMonotone(m, 2049, b);
    MulMonotone(2050, m, b);
    DivModUnique(8192, b, 2, 0);
  }
}
