/** The byte-granular `mem_pool<POOL_SIZE>` and its `mem_allocator` from
    main.cpp. The pool holds one `is_reserved` flag per byte of its arena;
    `allocate` finds a run with `std::search_n` and reserves it with
    `std::fill_n`, `deallocate` clears a run with `std::fill_n`. */
module BytePool {
  import opened Basics
  import opened StdAlgorithms
  import opened ByteSpec

  /** `STATIC_POOL_SIZE`, the size of the pool that adapters use by default,
      and the default `POOL_SIZE`. */
  const STATIC_POOL_SIZE: nat := 100

  /** `mem_pool<POOL_SIZE>`: an arena of `isReserved.Length` bytes starting
      at `base`, and one flag per byte. */
  class MemPool {
    const base: nat
    const isReserved: array<bool>

    /** `bool is_reserved[POOL_SIZE]` is a C++ array, so `POOL_SIZE > 0`. */
    predicate Valid()
    {
      isReserved.Length > 0
    }

    /** `mem_pool()`: every flag starts free (`is_reserved[POOL_SIZE]{}`). */
    constructor (base: nat, poolSize: nat)
      requires poolSize > 0
      ensures Valid() && this.base == base
      ensures fresh(isReserved) && isReserved.Length == poolSize
      ensures forall k :: 0 <= k < poolSize ==> !isReserved[k]
    {
      this.base := base;
      isReserved := new bool[poolSize](_ => false);
    }

    /** `allocate(bytes_cnt, alignment)`: `std::search_n` for `bytes_cnt`
        free flags, `nullptr` when it reaches the end, otherwise `fill_n`
        with `true` and the address of the run. `alignment` is not used:
        the result and the new table are the same for every alignment. */
    method Allocate(bytes: SizeT, alignment: SizeT) returns (p: Option<nat>)
      requires Valid()
      modifies isReserved
      ensures p == AllocateResult(base, old(isReserved[..]), bytes)
      ensures isReserved[..] == AllocateTable(old(isReserved[..]), bytes)
    {
      ghost var s := isReserved[..];
      var it := SearchN(isReserved, bytes);
      assert isReserved[..] == s;
      if it == isReserved.Length {
        assert AllocateIndex(s, bytes).None?;
        return None;
      }
      LowestFreeRunIs(s, bytes, it);
      FillRange(isReserved, it, it + bytes, true);
      return Some(base + it);
    }

    /** `deallocate(ptr, bytes_cnt, alignment)`: a no-op for `nullptr` or
        zero bytes; otherwise `fill_n` with `false` from index
        `ptr - pool`. The caller keeps the run inside the arena (`fill_n`
        past `is_reserved` is undefined behaviour). */
    method Deallocate(p: Option<nat>, bytes: SizeT, alignment: SizeT)
      requires Valid() && DeallocateAllowed(base, isReserved.Length, p, bytes)
      modifies isReserved
      ensures isReserved[..] == DeallocateTable(base, old(isReserved[..]), p, bytes)
    {
      if p.None? || bytes == 0 {
        return;
      }
      var index := p.value - base;
      FillRange(isReserved, index, index + bytes, false);
    }
  }

  /** `mem_allocator<T, MEM_POOL>`: a reference to one pool and `sizeof(T)`;
      it holds no state of its own. */
  class MemAllocator {
    const pool: MemPool
    const elemSize: SizeT

    /** `mem_allocator(MEM_POOL &)`. */
    constructor (pool: MemPool, elemSize: SizeT)
      requires elemSize > 0
      ensures this.pool == pool && this.elemSize == elemSize
    {
      this.pool := pool;
      this.elemSize := elemSize;
    }

    /** The converting constructor from `mem_allocator<U>`: keeps the other
        adapter's pool. */
    constructor Rebind(other: MemAllocator, elemSize: SizeT)
      requires elemSize > 0
      ensures this.pool == other.pool && this.elemSize == elemSize
      ensures Equals(other) && other.Equals(this)
    {
      this.pool := other.pool;
      this.elemSize := elemSize;
    }

    /** `allocate(n)`: asks the pool for `n * sizeof(T)` bytes (computed in
        `std::size_t`) at the default alignment. A null answer is reported on
        the console and returned as it is. */
    method Allocate(n: SizeT) returns (p: Option<nat>)
      requires pool.Valid()
      modifies pool.isReserved
      ensures p == AllocateResult(pool.base, old(pool.isReserved[..]), MulSizeT(n, elemSize))
      ensures pool.isReserved[..] == AllocateTable(old(pool.isReserved[..]), MulSizeT(n, elemSize))
    {
      p := pool.Allocate(MulSizeT(n, elemSize), MAX_ALIGN);
    }

    /** `deallocate(ptr, sz)`: forwards `sz` to the pool as a byte count,
        not multiplied by `sizeof(T)`. */
    method Deallocate(p: Option<nat>, sz: SizeT)
      requires pool.Valid() && DeallocateAllowed(pool.base, pool.isReserved.Length, p, sz)
      modifies pool.isReserved
      ensures pool.isReserved[..] == DeallocateTable(pool.base, old(pool.isReserved[..]), p, sz)
    {
      pool.Deallocate(p, sz, MAX_ALIGN);
    }

    /** `operator ==`: both adapters use the same pool object. */
    function Equals(other: MemAllocator): (r: bool)
      ensures r <==> pool == other.pool
    {
      pool == other.pool
    }

    /** `operator !=`: the negation of `==`. */
    function NotEquals(other: MemAllocator): (r: bool)
      ensures r <==> !Equals(other)
    {
      !Equals(other)
    }
  }

  /** Adapter equality is an equivalence, as the Allocator requirements ask
      of `==`, and `!=` is its negation read either way round. */
  lemma EqualsIsEquivalence(a: MemAllocator, b: MemAllocator, c: MemAllocator)
    ensures a.Equals(a)
    ensures a.Equals(b) <==> b.Equals(a)
    ensures a.Equals(b) && b.Equals(c) ==> a.Equals(c)
    ensures a.NotEquals(b) <==> !b.Equals(a)
  {
  }

  /** `static mem_pool<STATIC_POOL_SIZE> static_pool`: a pool of
      `STATIC_POOL_SIZE` free bytes. */
  method StaticPool(base: nat) returns (pool: MemPool)
    ensures fresh(pool) && fresh(pool.isReserved) && pool.Valid() && pool.base == base
    ensures pool.isReserved.Length == STATIC_POOL_SIZE
    ensures forall k :: 0 <= k < STATIC_POOL_SIZE ==> !pool.isReserved[k]
  {
    pool := new MemPool(base, STATIC_POOL_SIZE);
  }
}
