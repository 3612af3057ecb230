/** What AllocatorAlloc and AllocatorFree guarantee, proved on the state
    machine of MemPoolSpec. */
module MemPoolLaws {
  import opened Wrappers
  import opened MemPoolSizing
  import opened MemPoolSpec

  // ---------------------------------------------------------------------
  // Bookkeeping over the lists

  lemma {:induction false} FlattenConcat(a: seq<seq<Block>>, b: seq<seq<Block>>)
    ensures Flatten(a + b) == Flatten(a) + Flatten(b)
    decreases |b|
  {
    if b == [] {
      assert a + b == a;
    } else {
      var n := |b| - 1;
      var ab := a + b;
      assert ab[..|ab| - 1] == a + b[..n] && ab[|ab| - 1] == b[n];
      FlattenConcat(a, b[..n]);
      assert Flatten(ab) == (Flatten(a) + Flatten(b[..n])) + b[n];
      assert Flatten(b) == Flatten(b[..n]) + b[n];
    }
  }

  /** Replacing bucket `i` by `s` replaces its blocks in the flattened view. */
  lemma FlattenUpdate(free: seq<seq<Block>>, i: int, s: seq<Block>)
    requires 0 <= i < |free|
    ensures Flatten(free) == Flatten(free[..i]) + free[i] + Flatten(free[i + 1..])
    ensures Flatten(free[i := s]) == Flatten(free[..i]) + s + Flatten(free[i + 1..])
  {
    var g := free[i := s];
    assert Flatten([free[i]]) == free[i] by { assert [free[i]][..0] == []; }
    assert Flatten([s]) == s by { assert [s][..0] == []; }
    assert free == free[..i] + [free[i]] + free[i + 1..];
    assert g == free[..i] + [s] + free[i + 1..];
    FlattenConcat(free[..i] + [free[i]], free[i + 1..]);
    FlattenConcat(free[..i], [free[i]]);
    FlattenConcat(free[..i] + [s], free[i + 1..]);
    FlattenConcat(free[..i], [s]);
  }

  lemma {:induction false} SumIndexConcat(a: seq<Block>, b: seq<Block>)
    ensures SumIndex(a + b) == SumIndex(a) + SumIndex(b)
    decreases |a|
  {
    if a == [] {
      assert a + b == b;
    } else {
      assert (a + b)[1..] == a[1..] + b;
      SumIndexConcat(a[1..], b);
    }
  }

  /** Walking one more bucket appends its list. */
  lemma FlattenSnoc(free: seq<seq<Block>>, i: int)
    requires 0 <= i < |free|
    ensures Flatten(free[..i + 1]) == Flatten(free[..i]) + free[i]
  {
    assert free[..i + 1][..i] == free[..i];
  }

  /** The blocks of the pool after bucket `i` becomes `s`. */
  lemma UpdateHeld(free: seq<seq<Block>>, i: int, s: seq<Block>)
    requires 0 <= i < |free|
    ensures multiset(Flatten(free[i := s])) + multiset(free[i]) == multiset(Flatten(free)) + multiset(s)
  {
    FlattenUpdate(free, i, s);
  }

  /** The class sum of the pool after bucket `i` becomes `s`. */
  lemma UpdateRetained(free: seq<seq<Block>>, i: int, s: seq<Block>)
    requires 0 <= i < |free|
    ensures SumIndex(Flatten(free[i := s])) == SumIndex(Flatten(free)) - SumIndex(free[i]) + SumIndex(s)
  {
    FlattenUpdate(free, i, s);
    var pre, post := Flatten(free[..i]), Flatten(free[i + 1..]);
    SumIndexConcat(pre + free[i], post);
    SumIndexConcat(pre, free[i]);
    SumIndexConcat(pre + s, post);
    SumIndexConcat(pre, s);
  }

  /** Replacing bucket `i` by `rest`, which lacks exactly `x`, takes `x` out
      of the pool. */
  lemma ReplaceHeld(free: seq<seq<Block>>, i: int, x: Block, rest: seq<Block>)
    requires 0 <= i < |free| && multiset(free[i]) == multiset(rest) + multiset{x}
    ensures multiset(Flatten(free[i := rest])) + multiset{x} == multiset(Flatten(free))
  {
    UpdateHeld(free, i, rest);
    MultisetCancel(multiset(Flatten(free[i := rest])) + multiset{x}, multiset(Flatten(free)), multiset(rest));
  }

  /** Replacing bucket `i` by `rest`, which lacks exactly `x`, takes the
      class of `x` out of the class sum. */
  lemma ReplaceRetained(free: seq<seq<Block>>, i: int, x: Block, rest: seq<Block>)
    requires 0 <= i < |free| && SumIndex(free[i]) == SumIndex(rest) + x.index
    ensures SumIndex(Flatten(free[i := rest])) + x.index == SumIndex(Flatten(free))
  {
    UpdateRetained(free, i, rest);
  }

  lemma {:induction false} SumIndexNonNeg(s: seq<Block>)
    requires forall j :: 0 <= j < |s| ==> s[j].index >= 0
    ensures SumIndex(s) >= 0
    decreases |s|
  {
    if s != [] {
      SumIndexNonNeg(s[1..]);
    }
  }

  lemma {:induction false} FlattenSumNonNeg(free: seq<seq<Block>>)
    requires forall i, j :: 0 <= i < |free| && 0 <= j < |free[i]| ==> free[i][j].index >= 0
    ensures SumIndex(Flatten(free)) >= 0
    decreases |free|
  {
    if free != [] {
      var n := |free| - 1;
      FlattenSumNonNeg(free[..n]);
      SumIndexNonNeg(free[n]);
      SumIndexConcat(Flatten(free[..n]), free[n]);
    }
  }

  lemma RetainedNonNeg(c: Config, free: seq<seq<Block>>)
    requires Members(c, free)
    ensures SumIndex(Flatten(free)) >= 0
  {
    FlattenSumNonNeg(free);
  }

  lemma {:induction false} FlattenOfEmpty(free: seq<seq<Block>>)
    requires forall i :: 0 <= i < |free| ==> free[i] == []
    ensures Flatten(free) == []
    decreases |free|
  {
    if free != [] {
      FlattenOfEmpty(free[..|free| - 1]);
    }
  }

  /** With a finite, non-negative budget the retained classes never exceed
      the ceiling, and the remaining budget stays within [0, ceiling]. */
  lemma RetainedWithinBudget(c: Config, p: Pool)
    requires Valid(c, p) && p.maxFreeIndex > 0
    ensures 0 <= Retained(p) <= p.maxFreeIndex
    ensures 0 <= p.currentFreeIndex <= p.maxFreeIndex
  {
    RetainedNonNeg(c, p.free);
  }

  lemma MembersUpdate(c: Config, free: seq<seq<Block>>, i: int, s: seq<Block>)
    requires Members(c, free) && 0 <= i < |free|
    requires forall j :: 0 <= j < |s| ==> InBucket(c, s[j], i)
    ensures Members(c, free[i := s])
  {
  }

  lemma NoDuplicatesSub(a: multiset<Block>, b: multiset<Block>)
    requires a <= b && NoDuplicates(b)
    ensures NoDuplicates(a)
  {
  }

  lemma NoDuplicatesAdd(a: multiset<Block>, x: Block)
    requires NoDuplicates(a) && x !in a
    ensures NoDuplicates(a + multiset{x})
  {
  }

  // ---------------------------------------------------------------------
  // AllocatorAlloc keeps the invariant

  lemma TakeHeadHint(p: Pool, i: int)
    requires 0 <= p.maxIndex < |p.free| && 0 <= i <= p.maxIndex && p.free[i] != [] && HintOk(p)
    ensures var p' := TakeHead(p, i).0;
      HintOk(p') && -1 <= p'.maxIndex <= p.maxIndex && p'.free == p.free[i := p.free[i][1..]]
  {
    var free' := p.free[i := p.free[i][1..]];
    var p' := TakeHead(p, i).0;
    forall k | 1 <= k < |free'| && free'[k] != []
      ensures k <= p'.maxIndex
    {
      if k != i {
        assert p.free[k] == free'[k];
      }
    }
  }

  lemma MultisetCancel(a: multiset<Block>, b: multiset<Block>, t: multiset<Block>)
    requires a + t == b + t
    ensures a == b
  {
    assert forall x :: a[x] == (a + t)[x] - t[x];
  }

  /** Removing the block at position `k` of bucket `i` takes exactly that
      block, and its class, out of the pool. */
  lemma RemoveCounts(free: seq<seq<Block>>, i: int, k: int)
    requires 0 <= i < |free| && 0 <= k < |free[i]|
    ensures var list := free[i];
      var free' := free[i := list[..k] + list[k + 1..]];
      multiset(Flatten(free')) + multiset{list[k]} == multiset(Flatten(free)) &&
      SumIndex(Flatten(free')) + list[k].index == SumIndex(Flatten(free))
  {
    var list := free[i];
    var rest := list[..k] + list[k + 1..];
    SplitAtSum(list, k);
    SplitAtMultiset(list, k);
    ReplaceHeld(free, i, list[k], rest);
    ReplaceRetained(free, i, list[k], rest);
  }

  /** Taking position `k` out of a list takes out that block's class. */
  lemma SplitAtSum(list: seq<Block>, k: int)
    requires 0 <= k < |list|
    ensures SumIndex(list) == SumIndex(list[..k] + list[k + 1..]) + list[k].index
  {
    var pre, x, post := list[..k], list[k], list[k + 1..];
    assert list[k..] == [x] + post;
    assert list == pre + list[k..];
    SplitSum(pre, x, post);
  }

  /** Taking position `k` out of a list takes out that block. */
  lemma SplitAtMultiset(list: seq<Block>, k: int)
    requires 0 <= k < |list|
    ensures multiset(list) == multiset(list[..k] + list[k + 1..]) + multiset{list[k]}
  {
    var pre, x, post := list[..k], list[k], list[k + 1..];
    assert list[k..] == [x] + post;
    assert list == pre + list[k..];
    SplitMultiset(pre, x, post);
  }

  lemma SplitMultiset(pre: seq<Block>, x: Block, post: seq<Block>)
    ensures multiset(pre + ([x] + post)) == multiset(pre + post) + multiset{x}
  {
  }

  lemma SplitSum(pre: seq<Block>, x: Block, post: seq<Block>)
    ensures SumIndex(pre + ([x] + post)) == SumIndex(pre + post) + x.index
  {
    var tail := [x] + post;
    assert tail[1..] == post;
    SumIndexConcat(pre, tail);
    SumIndexConcat(pre, post);
  }

  /** Taking the head of bucket `i` takes exactly that block, and its
      class, out of the pool. */
  lemma HeadCounts(free: seq<seq<Block>>, i: int)
    requires 0 <= i < |free| && free[i] != []
    ensures multiset(Flatten(free[i := free[i][1..]])) + multiset{free[i][0]} == multiset(Flatten(free))
    ensures SumIndex(Flatten(free[i := free[i][1..]])) + free[i][0].index == SumIndex(Flatten(free))
  {
    var x, rest := free[i][0], free[i][1..];
    assert free[i] == [x] + rest;
    ReplaceHeld(free, i, x, rest);
    ReplaceRetained(free, i, x, rest);
  }

  lemma TakeHeadValid(c: Config, p: Pool, i: int)
    requires Valid(c, p) && 0 <= i <= p.maxIndex && p.free[i] != []
    ensures var (p', g) := TakeHead(p, i);
      Valid(c, p') && g == Recycled(p.free[i][0]) &&
      Held(p') + multiset{p.free[i][0]} == Held(p) &&
      p'.maxFreeIndex == p.maxFreeIndex &&
      (p.maxFreeIndex != AllocatorMaxFreeUnlimited ==>
         p'.currentFreeIndex == p.currentFreeIndex + p.free[i][0].index)
  {
    var p' := TakeHead(p, i).0;
    var node := p.free[i][0];
    var tail := p.free[i][1..];
    TakeHeadHint(p, i);
    HeadCounts(p.free, i);
    assert Held(p') == multiset(Flatten(p.free[i := tail]));
    assert Retained(p') == SumIndex(Flatten(p.free[i := tail]));
    assert InBucket(c, p.free[i][0], i);
    forall j | 0 <= j < |tail|
      ensures InBucket(c, tail[j], i)
    {
      assert tail[j] == p.free[i][j + 1];
    }
    MembersUpdate(c, p.free, i, tail);
    NoDuplicatesSub(Held(p'), Held(p));
    RetainedNonNeg(c, p'.free);
  }

  lemma TakeFromOverflowCounts(p: Pool, k: nat)
    requires |p.free| >= 1 && k < |p.free[0]|
    ensures var p' := TakeFromOverflow(p, k).0;
      Held(p') + multiset{p.free[0][k]} == Held(p) &&
      Retained(p') == Retained(p) - p.free[0][k].index
  {
    RemoveCounts(p.free, 0, k);
  }

  lemma TakeFromOverflowValid(c: Config, p: Pool, k: nat)
    requires Valid(c, p) && k < |p.free[0]|
    ensures var (p', g) := TakeFromOverflow(p, k);
      Valid(c, p') && g == Recycled(p.free[0][k]) &&
      Held(p') + multiset{p.free[0][k]} == Held(p) &&
      p'.maxIndex == p.maxIndex && p'.maxFreeIndex == p.maxFreeIndex &&
      (p.maxFreeIndex != AllocatorMaxFreeUnlimited ==>
         p'.currentFreeIndex == p.currentFreeIndex + p.free[0][k].index)
  {
    var p' := TakeFromOverflow(p, k).0;
    var list := p.free[0];
    var rest := list[..k] + list[k + 1..];
    TakeFromOverflowCounts(p, k);
    assert InBucket(c, list[k], 0);
    forall j | 0 <= j < |rest|
      ensures InBucket(c, rest[j], 0)
    {
      assert rest[j] == if j < k then list[j] else list[j + 1];
    }
    MembersUpdate(c, p.free, 0, rest);
    assert p'.free == p.free[0 := rest];
    assert HintOk(p') by {
      assert forall i :: 1 <= i < |p.free| ==> p'.free[i] == p.free[i];
    }
    NoDuplicatesSub(Held(p'), Held(p));
    RetainedNonNeg(c, p'.free);
  }

  /** AllocatorAlloc keeps the pool valid and does not touch the ceiling. */
  lemma AllocValid(c: Config, p: Pool, size: int, sys: Option<nat>)
    requires Valid(c, p) && size >= 0
    ensures var p' := AllocSpec(c, p, size, sys).0;
      Valid(c, p') && p'.maxFreeIndex == p.maxFreeIndex
  {
    var index := RequestClass(c, size);
    SizeClassFits(c.boundaryIndex, c.minAlloc, size);
    var r := AllocSpec(c, p, size, sys);
    if index > c.uint32Max {
      assert r.0 == p;
    } else if index <= p.maxIndex {
      var i := ScanUp(p.free, index, p.maxIndex);
      if p.free[i] != [] {
        assert r == TakeHead(p, i);
        TakeHeadValid(c, p, i);
      } else {
        assert r.0 == p;
      }
    } else if p.free[0] != [] {
      var k := FirstFit(p.free[0], index, 0);
      if k < |p.free[0]| {
        assert r == TakeFromOverflow(p, k);
        TakeFromOverflowValid(c, p, k);
      } else {
        assert r.0 == p;
      }
    } else {
      assert r.0 == p;
    }
  }

  /** The grant of AllocatorAlloc is as the source promises: NULL exactly
      for a class above m_uint32_max (nothing touched) or a failed malloc; a
      recycled block of at least the requested class, which leaves the pool
      and gives its class back to the budget; or a carved block of exactly
      the requested class, with the pool untouched. */
  lemma AllocGrant(c: Config, p: Pool, size: int, sys: Option<nat>)
    requires Valid(c, p) && size >= 0
    ensures var (p', g) := AllocSpec(c, p, size, sys);
      (g == TooLarge <==> RequestClass(c, size) > c.uint32Max) &&
      (g.TooLarge? || g.OutOfMemory? || g.Carved? ==> p' == p) &&
      (g.OutOfMemory? ==> sys == None) &&
      (g.Carved? ==> sys.Some? && g.block == Block(sys.value, RequestClass(c, size))) &&
      (g.Recycled? ==>
         g.block.index >= RequestClass(c, size) &&
         g.block in Held(p) && g.block !in Held(p') &&
         Held(p') + multiset{g.block} == Held(p) &&
         (p.maxFreeIndex != AllocatorMaxFreeUnlimited ==>
            p'.currentFreeIndex == p.currentFreeIndex + g.block.index))
  {
    var index := RequestClass(c, size);
    SizeClassFits(c.boundaryIndex, c.minAlloc, size);
    var r := AllocSpec(c, p, size, sys);
    if index > c.uint32Max {
      assert r == (p, TooLarge);
    } else if index <= p.maxIndex {
      var i := ScanUp(p.free, index, p.maxIndex);
      if p.free[i] != [] {
        assert r == TakeHead(p, i);
        HeadGrant(c, p, i, index);
      } else {
        assert r == Carve(p, index, sys);
      }
    } else if p.free[0] != [] {
      var k := FirstFit(p.free[0], index, 0);
      if k < |p.free[0]| {
        assert r == TakeFromOverflow(p, k);
        OverflowGrant(c, p, k, index);
      } else {
        assert r == Carve(p, index, sys);
      }
    } else {
      assert r == Carve(p, index, sys);
    }
  }

  /** A recycled grant: a held block of at least class `index` that leaves
      the pool and gives its class back to the budget. */
  ghost predicate RecycledFrom(p: Pool, r: (Pool, Grant), index: int) {
    var (p', g) := r;
    g.Recycled? && g.block.index >= index &&
    g.block in Held(p) && g.block !in Held(p') &&
    Held(p') + multiset{g.block} == Held(p) &&
    (p.maxFreeIndex != AllocatorMaxFreeUnlimited ==>
       p'.currentFreeIndex == p.currentFreeIndex + g.block.index)
  }

  lemma HeadGrant(c: Config, p: Pool, i: int, index: int)
    requires Valid(c, p) && 0 <= index <= i <= p.maxIndex && p.free[i] != []
    ensures RecycledFrom(p, TakeHead(p, i), index)
  {
    TakeHeadValid(c, p, i);
    assert InBucket(c, p.free[i][0], i);
    InHeld(p.free, i, 0);
  }

  lemma OverflowGrant(c: Config, p: Pool, k: nat, index: int)
    requires Valid(c, p) && k < |p.free[0]| && p.free[0][k].index >= index
    ensures RecycledFrom(p, TakeFromOverflow(p, k), index)
  {
    TakeFromOverflowValid(c, p, k);
    InHeld(p.free, 0, k);
  }

  /** Every block of a bucket is held by the pool. */
  lemma InHeld(free: seq<seq<Block>>, i: int, k: int)
    requires 0 <= i < |free| && 0 <= k < |free[i]|
    ensures free[i][k] in multiset(Flatten(free))
  {
    FlattenUpdate(free, i, free[i]);
    assert free[i][k] in multiset(free[i]);
  }

  // ---------------------------------------------------------------------
  // AllocatorFree keeps the invariant

  lemma ReleaseStepHint(c: Config, p: Pool, b: Block)
    requires Shape(c, p) && HintOk(p) && b.index >= 0 && !Evicts(p, b.index)
    ensures HintOk(ReleaseStep(c, p, b).0)
  {
    var t := if b.index < c.maxIndex then b.index else 0;
    var p' := ReleaseStep(c, p, b).0;
    assert p'.free == p.free[t := [b] + p.free[t]];
    forall k | 1 <= k < |p'.free| && p'.free[k] != []
      ensures k <= p'.maxIndex
    {
      if k != t {
        assert p.free[k] == p'.free[k];
      }
    }
  }

  lemma ReleaseStepCounts(c: Config, p: Pool, b: Block)
    requires Shape(c, p) && b.index >= 0 && !Evicts(p, b.index)
    ensures var p' := ReleaseStep(c, p, b).0;
      Held(p') == Held(p) + multiset{b} && Retained(p') == Retained(p) + b.index
  {
    var t := if b.index < c.maxIndex then b.index else 0;
    var s := [b] + p.free[t];
    UpdateHeld(p.free, t, s);
    UpdateRetained(p.free, t, s);
    assert s[1..] == p.free[t];
    assert SumIndex(s) == b.index + SumIndex(p.free[t]);
    assert multiset(s) == multiset{b} + multiset(p.free[t]);
    MultisetCancel(multiset(Flatten(p.free[t := s])), multiset(Flatten(p.free)) + multiset{b}, multiset(p.free[t]));
    assert ReleaseStep(c, p, b).0.free == p.free[t := s];
  }

  lemma ReleaseStepValid(c: Config, p: Pool, b: Block)
    requires Valid(c, p) && 0 <= b.index <= c.uint32Max && b !in Held(p)
    ensures var (p', evicted) := ReleaseStep(c, p, b);
      Valid(c, p') &&
      (evicted <==> Evicts(p, b.index)) &&
      (evicted ==> p' == p) &&
      (!evicted ==> Held(p') == Held(p) + multiset{b})
  {
    var (p', evicted) := ReleaseStep(c, p, b);
    if !evicted {
      var t := if b.index < c.maxIndex then b.index else 0;
      var s := [b] + p.free[t];
      forall j | 0 <= j < |s|
        ensures InBucket(c, s[j], t)
      {
        if j > 0 {
          assert s[j] == p.free[t][j - 1];
        }
      }
      MembersUpdate(c, p.free, t, s);
      assert p'.free == p.free[t := s];
      ReleaseStepHint(c, p, b);
      ReleaseStepCounts(c, p, b);
      NoDuplicatesAdd(Held(p), b);
      RetainedNonNeg(c, p.free);
    }
  }

  /** What is left of a valid chain after its head is released is a valid
      chain of the new pool. */
  lemma ChainTail(c: Config, p: Pool, p1: Pool, chain: seq<Block>)
    requires ChainOk(c, p, chain) && chain != []
    requires Held(p1) <= Held(p) + multiset{chain[0]}
    ensures ChainOk(c, p1, chain[1..])
    ensures multiset(chain) == multiset{chain[0]} + multiset(chain[1..])
  {
    var rest := chain[1..];
    assert chain == [chain[0]] + rest;
    assert chain[0] !in rest by {
      assert multiset(chain)[chain[0]] == 1 + multiset(rest)[chain[0]];
    }
    forall j | 0 <= j < |rest|
      ensures rest[j] !in Held(p1)
    {
      var x := rest[j];
      assert x == chain[j + 1] && x !in Held(p) && x != chain[0];
      assert (Held(p) + multiset{chain[0]})[x] == 0;
    }
    NoDuplicatesSub(multiset(rest), multiset(chain));
  }

  lemma {:induction false} ReleaseChainValid(c: Config, p: Pool, chain: seq<Block>, freelist: seq<Block>)
    requires Valid(c, p) && ChainOk(c, p, chain)
    ensures var (p', fl) := ReleaseChain(c, p, chain, freelist);
      Valid(c, p') &&
      Held(p') + multiset(fl) == Held(p) + multiset(chain) + multiset(freelist) &&
      multiset(fl) <= multiset(chain) + multiset(freelist)
    decreases |chain|
  {
    if chain != [] {
      var b := chain[0];
      var (p1, evicted) := ReleaseStep(c, p, b);
      ReleaseStepValid(c, p, b);
      ChainTail(c, p, p1, chain);
      var fl1 := if evicted then [b] + freelist else freelist;
      ReleaseChainValid(c, p1, chain[1..], fl1);
    }
  }

  /** AllocatorFree of a chain keeps the pool valid and accounts for every
      block of the chain exactly once: retained in a bucket or returned to
      the system on the side list; no block the pool held leaves it. */
  lemma ReleaseValid(c: Config, p: Pool, chain: seq<Block>)
    requires Valid(c, p) && ChainOk(c, p, chain)
    ensures var (p', evicted) := ReleaseSpec(c, p, chain);
      Valid(c, p') && p'.maxFreeIndex == p.maxFreeIndex &&
      Held(p') + multiset(evicted) == Held(p) + multiset(chain) &&
      multiset(evicted) <= multiset(chain) &&
      Held(p) <= Held(p')
  {
    var (p', evicted) := ReleaseSpec(c, p, chain);
    ReleaseChainValid(c, p, chain, []);
    forall x | x in Held(p)
      ensures Held(p)[x] <= Held(p')[x]
    {
      forall j | 0 <= j < |chain|
        ensures chain[j] != x
      {
      }
      assert multiset(chain)[x] == 0;
      assert (Held(p') + multiset(evicted))[x] == (Held(p) + multiset(chain))[x];
    }
  }

  /** Releasing one block: it is returned to the system exactly when the
      budget is finite and its class exceeds what is left; otherwise it
      becomes the head of bucket `index` (of bucket 0 for classes of
      m_max_index and above), the budget is charged its class (floored at
      0), and the hint rises to `index` only if that bucket was empty and
      above the hint. */
  lemma ReleaseOne(c: Config, p: Pool, b: Block)
    requires Valid(c, p) && ChainOk(c, p, [b])
    ensures var (p', evicted) := ReleaseSpec(c, p, [b]);
      var t := if b.index < c.maxIndex then b.index else 0;
      (evicted == [b] <==> Evicts(p, b.index)) &&
      (evicted == [] <==> !Evicts(p, b.index)) &&
      (Evicts(p, b.index) ==> p' == p) &&
      (!Evicts(p, b.index) ==>
         p'.free == p.free[t := [b] + p.free[t]] &&
         p'.currentFreeIndex == (if p.currentFreeIndex >= b.index then p.currentFreeIndex - b.index else 0) &&
         p'.maxIndex == (if b.index < c.maxIndex && p.free[t] == [] && b.index > p.maxIndex
                         then b.index else p.maxIndex))
  {
    var (p1, evicted) := ReleaseStep(c, p, b);
    var fl: seq<Block> := if evicted then [b] else [];
    assert [b][0] == b && [b][1..] == [] && [b] + [] == [b];
    assert ReleaseChain(c, p, [b], []) == ReleaseChain(c, p1, [], fl);
    assert ReleaseChain(c, p1, [], fl) == (p1, fl);
  }

  lemma {:induction false} UnlimitedChain(c: Config, p: Pool, chain: seq<Block>, freelist: seq<Block>)
    requires |p.free| == c.maxIndex >= 1 && p.maxFreeIndex == AllocatorMaxFreeUnlimited
    requires forall j :: 0 <= j < |chain| ==> chain[j].index >= 0
    ensures var (p', fl) := ReleaseChain(c, p, chain, freelist);
      fl == freelist && (p.currentFreeIndex == 0 ==> p'.currentFreeIndex == 0)
    decreases |chain|
  {
    if chain != [] {
      UnlimitedChain(c, ReleaseStep(c, p, chain[0]).0, chain[1..], freelist);
    }
  }

  /** With an unlimited budget nothing is ever returned to the system and
      the remaining budget stays 0. */
  lemma UnlimitedRetainsAll(c: Config, p: Pool, chain: seq<Block>)
    requires Valid(c, p) && ChainOk(c, p, chain) && p.maxFreeIndex == AllocatorMaxFreeUnlimited
    ensures var (p', evicted) := ReleaseSpec(c, p, chain);
      evicted == [] && p'.currentFreeIndex == 0 && Held(p') == Held(p) + multiset(chain)
  {
    UnlimitedChain(c, p, chain, []);
    ReleaseValid(c, p, chain);
  }

  // ---------------------------------------------------------------------
  // Reuse

  /** LIFO reuse: releasing a retained block and then asking for a request
      of its class hands back that same block, and leaves the lists and the
      remaining budget as they were before the release. */
  lemma ReleaseThenAllocReuses(c: Config, p: Pool, b: Block, size: int, sys: Option<nat>)
    requires Valid(c, p) && ChainOk(c, p, [b]) && !Evicts(p, b.index)
    requires size >= 0 && RequestClass(c, size) == b.index
    ensures var p1 := ReleaseSpec(c, p, [b]).0;
      var (p2, g) := AllocSpec(c, p1, size, sys);
      g == Recycled(b) && p2.free == p.free && p2.currentFreeIndex == p.currentFreeIndex
  {
    ReleaseOne(c, p, b);
    RetainedNonNeg(c, p.free);
    var p1 := ReleaseSpec(c, p, [b]).0;
    var t := if b.index < c.maxIndex then b.index else 0;
    assert b.index <= p1.maxIndex ==> t == b.index;
    assert b.index > p1.maxIndex ==> t == 0;
    AllocAfterPush(c, p1, b, size, sys, p.free, p.currentFreeIndex);
  }

  /** The allocation half of LIFO reuse: after `b` was pushed onto the head
      of bucket `t` of `free`, a request of its class takes it back off,
      which restores `free` and the budget. */
  lemma AllocAfterPush(c: Config, p1: Pool, b: Block, size: int, sys: Option<nat>, free: seq<seq<Block>>, cur: int)
    requires Shape(c, p1) && size >= 0 && RequestClass(c, size) == b.index && 0 <= b.index <= c.uint32Max
    requires var t := if b.index < c.maxIndex then b.index else 0;
      |free| == |p1.free| && p1.free == free[t := [b] + free[t]] &&
      (b.index <= p1.maxIndex ==> t == b.index) && (b.index > p1.maxIndex ==> t == 0)
    requires Restore(p1.currentFreeIndex, p1.maxFreeIndex, b.index) == cur
    ensures var (p2, g) := AllocSpec(c, p1, size, sys);
      g == Recycled(b) && p2.free == free && p2.currentFreeIndex == cur
  {
    var t := if b.index < c.maxIndex then b.index else 0;
    assert p1.free[t][0] == b && p1.free[t][1..] == free[t];
    UpdateBack(free, t, [b] + free[t]);
    if b.index <= p1.maxIndex {
      ReuseFromBucket(c, p1, b, size, sys);
    } else {
      ReuseFromOverflow(c, p1, b, size, sys);
      assert p1.free[0][..0] + p1.free[0][1..] == free[0];
    }
  }

  /** A request whose bucket, at or below the hint, has `b` at its head
      takes `b` from there. */
  lemma ReuseFromBucket(c: Config, p1: Pool, b: Block, size: int, sys: Option<nat>)
    requires Shape(c, p1) && size >= 0 && RequestClass(c, size) == b.index <= c.uint32Max
    requires 0 <= b.index <= p1.maxIndex && p1.free[b.index] != [] && p1.free[b.index][0] == b
    ensures AllocSpec(c, p1, size, sys) == TakeHead(p1, b.index)
  {
    assert ScanUp(p1.free, b.index, p1.maxIndex) == b.index;
  }

  /** A request above the hint whose first block in bucket 0 is `b`, of
      exactly the requested class, takes `b` from there. */
  lemma ReuseFromOverflow(c: Config, p1: Pool, b: Block, size: int, sys: Option<nat>)
    requires Shape(c, p1) && size >= 0 && RequestClass(c, size) == b.index <= c.uint32Max
    requires b.index > p1.maxIndex && p1.free[0] != [] && p1.free[0][0] == b
    ensures AllocSpec(c, p1, size, sys) == TakeFromOverflow(p1, 0)
  {
    assert FirstFit(p1.free[0], b.index, 0) == 0;
  }

  /** Writing an element back over an update restores the sequence. */
  lemma UpdateBack<T>(s: seq<T>, t: int, x: T)
    requires 0 <= t < |s|
    ensures s[t := x][t := s[t]] == s
  {
  }

  // ---------------------------------------------------------------------
  // Creation

  /** MemPoolCreate leaves a valid, empty pool with hint 0; a non-zero
      capacity becomes a budget of ALIGN(Size, B) >> boundary units, fully
      available, and a positive capacity is a finite budget of at least one
      unit; a capacity of 0 leaves the budget unlimited. */
  lemma CreatedValid(c: Config, size: int)
    requires c.maxIndex >= 1
    ensures var p := Created(c, size);
      Valid(c, p) && Held(p) == multiset{} && p.maxIndex == 0 &&
      (size != AllocatorMaxFreeUnlimited ==>
         p.maxFreeIndex == p.currentFreeIndex == BudgetUnits(c, size)) &&
      (size == AllocatorMaxFreeUnlimited ==> p.maxFreeIndex == p.currentFreeIndex == 0) &&
      (size > 0 ==> p.maxFreeIndex >= 1)
  {
    var p := Created(c, size);
    FlattenOfEmpty(p.free);
    var b := Pow2(c.boundaryIndex);
    AlignIsLeastMultiple(size, b);
    var m := Align(size, b) / b;
    DivModUnique(Align(size, b), b, m, 0);
    MulMonotone(m, 0, b);
  }

  /** Re-setting a finite budget to another finite ceiling keeps the
      conservation law: what is left plus what is retained is the new
      ceiling. */
  lemma MaxFreeSetKeepsBudget(c: Config, p: Pool, size: int)
    requires Valid(c, p) && p.maxFreeIndex != AllocatorMaxFreeUnlimited
    requires BudgetUnits(c, size) != AllocatorMaxFreeUnlimited
    ensures var r := MaxFreeSetSpec(c, p, size);
      r.free == p.free && r.maxFreeIndex == BudgetUnits(c, size) &&
      r.currentFreeIndex + Retained(r) == r.maxFreeIndex
  {
    RetainedNonNeg(c, p.free);
  }

  // ---------------------------------------------------------------------
  // AllocatorDestroy

  /** AllocatorDestroy stops below the hint, so whenever the hint is
      positive the head of the top bucket, which the pool holds, is never
      freed. */
  lemma DestroyLeaksTopBucket(c: Config, p: Pool)
    requires Valid(c, p) && p.maxIndex >= 1
    ensures p.free[p.maxIndex] != []
    ensures p.free[p.maxIndex][0] in Held(p)
    ensures p.free[p.maxIndex][0] !in multiset(DestroyReleased(p))
  {
    var m := p.maxIndex;
    var x := p.free[m][0];
    assert p.free == p.free[..m] + p.free[m..];
    FlattenConcat(p.free[..m], p.free[m..]);
    FlattenUpdate(p.free[m..], 0, p.free[m]);
    assert x in multiset(Flatten(p.free[m..]));
    assert Held(p) == multiset(DestroyReleased(p)) + multiset(Flatten(p.free[m..]));
  }

  /** A valid pool on which AllocatorDestroy dereferences an empty list
      head: a single block of class 2 sets the hint to 2 and leaves buckets
      0 and 1 empty. */
  lemma DestroyCanCrash()
    ensures var c := SmallConfig();
      var p := Pool([[], [], [Block(5, 2)]] + seq(5, _ => []), 2, AllocatorMaxFreeUnlimited, 0);
      Valid(c, p) && !DestroySurvives(p)
  {
    var c := SmallConfig();
    var p := Pool([[], [], [Block(5, 2)]] + seq(5, _ => []), 2, AllocatorMaxFreeUnlimited, 0);
    assert Flatten(p.free) == [Block(5, 2)] by {
      FlattenUpdate(p.free, 2, []);
      FlattenOfEmpty(p.free[..2]);
      FlattenOfEmpty(p.free[3..]);
    }
    assert Members(c, p.free) by {
      forall i, j | 0 <= i < |p.free| && 0 <= j < |p.free[i]|
        ensures InBucket(c, p.free[i][j], i)
      {
        assert i == 2 && j == 0;
      }
    }
    assert p.free[0] == [];
  }

  // ---------------------------------------------------------------------
  // Edge cases kept as written

  /** A configuration with 128-byte boundaries in which a 10-byte request
      (plus the 80-byte header) is class 0. */
  function SmallConfig(): Config {
    Config(8, 128, 64, 7)
  }

  lemma SmallConfigClass()
    ensures RequestClass(SmallConfig(), 10) == 0
  {
    assert Pow2(7) == 128 by {
      assert Pow2(1) == 2 && Pow2(2) == 4 && Pow2(3) == 8 && Pow2(4) == 16;
      assert Pow2(5) == 32 && Pow2(6) == 64;
    }
    assert MemNodeSize() == 80;
    DivModUnique(90 + 127, 128, 1, 89);
  }

  /** Emptying bucket 0 while the hint is 0 steps the hint down to -1 (the
      do-while reads free[-1] on the way); the pool stays valid. */
  lemma HintCanReachMinusOne()
    ensures var c := SmallConfig();
      var p := Pool([[Block(1, 0)]] + seq(7, _ => []), 0, AllocatorMaxFreeUnlimited, 0);
      Valid(c, p) &&
      AllocSpec(c, p, 10, None) == (Pool(seq(8, _ => []), -1, AllocatorMaxFreeUnlimited, 0), Recycled(Block(1, 0)))
  {
    var c := SmallConfig();
    var p := Pool([[Block(1, 0)]] + seq(7, _ => []), 0, AllocatorMaxFreeUnlimited, 0);
    SmallConfigClass();
    assert p.free[0] == [Block(1, 0)];
    var emptied := p.free[0 := p.free[0][1..]];
    assert emptied == seq(8, _ => []) by {
      forall k | 0 <= k < 8
        ensures emptied[k] == []
      {
      }
    }
    assert Flatten(p.free) == [Block(1, 0)] by {
      FlattenUpdate(p.free, 0, []);
      FlattenOfEmpty(p.free[..0]);
      FlattenOfEmpty(p.free[1..]);
    }
    assert Members(c, p.free) by {
      forall i, j | 0 <= i < |p.free| && 0 <= j < |p.free[i]|
        ensures InBucket(c, p.free[i][j], i)
      {
        assert i == 0 && j == 0;
      }
    }
    assert ScanUp(p.free, 0, 0) == 0;
  }

  /** Bucket 0 is searched first-fit in list order, and release pushes onto
      its head without sorting: with a class-12 block released after a
      class-9 block, a class-9 request gets the class-12 block. */
  lemma OverflowIsFirstFitNotBestFit()
    ensures var c := SmallConfig();
      var p := Pool([[Block(2, 12), Block(1, 9)]] + seq(7, _ => []), 0, AllocatorMaxFreeUnlimited, 0);
      var size := 1100;
      RequestClass(c, size) == 9 &&
      AllocSpec(c, p, size, None).1 == Recycled(Block(2, 12))
  {
    var c := SmallConfig();
    var size := 1100;
    assert Pow2(7) == 128 by {
      assert Pow2(1) == 2 && Pow2(2) == 4 && Pow2(3) == 8 && Pow2(4) == 16;
      assert Pow2(5) == 32 && Pow2(6) == 64;
    }
    assert MemNodeSize() == 80;
    DivModUnique(size + 80 + 127, 128, 10, 27);
    DivModUnique(1280, 128, 10, 0);
  }
}
