/** `memmanagment::mem_pool` and `memmanagment::mem_allocator` from
    lib/memmanagment.hpp. The pool's table of `chunk_info` flags is an array
    changed in place by the source's own loops; each method is proved to
    leave exactly the table that ChunkSpec describes. */
module ChunkPool {
  import opened Basics
  import opened StdAlgorithms
  import opened ChunkSpec

  /** `mem_pool<POOL_SIZE, CHUNK_SIZE>`: an arena of `ChunksCnt` chunks of
      `chunkSize` bytes starting at `geom.base`, and one flag per chunk. */
  class MemPool {
    const geom: Geometry
    const chunkInfo: array<bool>

    predicate Valid()
    {
      geom.Valid() && chunkInfo.Length == ChunksCnt(geom)
    }

    /** `mem_pool()`: every chunk starts free (`chunk_info_t{false}`). */
    constructor (base: nat, poolSize: nat, chunkSize: nat)
      requires 0 < chunkSize <= poolSize
      ensures Valid() && geom == Geometry(base, chunkSize, poolSize)
      ensures fresh(chunkInfo) && chunkInfo.Length == DivWithRound(poolSize, chunkSize)
      ensures forall k :: 0 <= k < chunkInfo.Length ==> !chunkInfo[k]
    {
      geom := Geometry(base, chunkSize, poolSize);
      chunkInfo := new bool[DivWithRound(poolSize, chunkSize)](_ => false);
    }

    /** The body of `allocate`'s loop for candidate `it`, up to the point
        where it writes flags: `std::align` on the chunk, then either the
        single-chunk path or the range check and `std::all_of` over the
        chunks after `it`. */
    method Examine(it: nat, bytes: SizeT, alignment: SizeT) returns (f: Fit)
      requires Valid() && it < chunkInfo.Length && bytes > 0 && alignment > 0
      ensures f == TryChunk(geom, chunkInfo[..], it, bytes, alignment)
    {
      var n := chunkInfo.Length;
      var ptr := geom.ChunkAddr(it);
      var space := geom.chunkSize;
      var aligned := Align(alignment, ptr, space);
      if aligned.None? {
        return NoFit;
      }
      ptr, space := aligned.value.ptr, aligned.value.space;
      if bytes <= space {
        return InChunk(ptr);
      }
      var additional := DivWithRound(bytes - space, geom.chunkSize);
      if n - it >= additional {
        var rangeEnd := it + additional + 1;
        // Guard: the source goes on with rangeEnd == n + 1 and reads (and
        // may write) the flag one past the table.
        if rangeEnd <= n {
          var free := AllOfFree(chunkInfo, it + 1, rangeEnd);
          if free {
            return Spanning(ptr, rangeEnd);
          }
        }
      }
      return NoFit;
    }

    /** `allocate(bytes_cnt, alignment)`: zero bytes give the arena base;
        otherwise the candidates (chunk 0, then each next free chunk, found
        by `std::find_if`) are tried in ascending order and the first that
        fits is committed: flag `it` set to `false` on the single-chunk path,
        `[it, rangeEnd)` filled with `true` on the spanning path. */
    method Allocate(bytes: SizeT, alignment: SizeT) returns (p: Option<nat>)
      requires Valid() && alignment > 0
      modifies chunkInfo
      ensures p == AllocateResult(geom, old(chunkInfo[..]), bytes, alignment)
      ensures chunkInfo[..] == AllocateTable(geom, old(chunkInfo[..]), bytes, alignment)
    {
      if bytes == 0 {
        return Some(geom.base);
      }
      ghost var s := chunkInfo[..];
      var n := chunkInfo.Length;
      var it := 0;
      while it != n
        invariant it <= n
        invariant chunkInfo[..] == s
        invariant it < n ==> IsCandidate(s, it)
        invariant FirstFit(geom, s, bytes, alignment, 0) == FirstFit(geom, s, bytes, alignment, it)
        decreases n - it
      {
        var f := Examine(it, bytes, alignment);
        match f {
          case InChunk(ptr) =>
            AcceptCandidate(geom, s, bytes, alignment, it);
            chunkInfo[it] := false;
            return Some(ptr);
          case Spanning(ptr, rangeEnd) =>
            AcceptCandidate(geom, s, bytes, alignment, it);
            FillRange(chunkInfo, it, rangeEnd, true);
            return Some(ptr);
          case NoFit =>
        }
        var next := FindFree(chunkInfo, it + 1);
        FirstFitSkip(geom, s, bytes, alignment, it, next);
        it := next;
      }
      return None;
    }

    /** `deallocate(ptr, bytes_cnt, alignment)`: a no-op for `nullptr` or zero
        bytes; otherwise frees the flags from the chunk holding `ptr` to the
        chunk holding `ptr + bytes_cnt`. The alignment is not used. */
    method Deallocate(p: Option<nat>, bytes: SizeT, alignment: SizeT)
      requires Valid()
      requires p.Some? && bytes > 0 ==> geom.base <= p.value && ChunkIndexByPtr(geom, p.value) < chunkInfo.Length
      modifies chunkInfo
      ensures chunkInfo[..] == DeallocateTable(geom, old(chunkInfo[..]), p, bytes)
    {
      if p.None? || bytes == 0 {
        return;
      }
      var first := ChunkIndexByPtr(geom, p.value);
      var last := ChunkIndexByPtr(geom, p.value + bytes);
      ChunkAddrMonotone(geom, first, last + 1);
      var count := last - first + 1;
      // Guard: the source's fill_n writes past the table when last == n.
      if first + count > chunkInfo.Length {
        count := chunkInfo.Length - first;
      }
      FillRange(chunkInfo, first, first + count, false);
    }
  }

  /** `sizeof(T)` and `alignof(T)` of an adapter's element type. */
  datatype Layout = Layout(size: SizeT, align: SizeT)
  {
    predicate Valid()
    {
      size > 0 && align > 0
    }
  }

  /** What `mem_allocator::allocate` does: return a pointer, or report the
      failure and end the process with `exit(EXIT_FAILURE)`. */
  datatype AdapterResult = Allocated(ptr: nat) | Terminated

  /** `mem_allocator<T, MEM_POOL>`: a reference to one pool and the layout of
      the element type `T`; it holds no state of its own. */
  class MemAllocator {
    const pool: MemPool
    const layout: Layout

    /** `mem_allocator(MEM_POOL &)`. */
    constructor (pool: MemPool, layout: Layout)
      ensures this.pool == pool && this.layout == layout
    {
      this.pool := pool;
      this.layout := layout;
    }

    /** The converting constructor from an adapter of another element type:
        keeps the other adapter's pool. */
    constructor Rebind(other: MemAllocator, layout: Layout)
      ensures this.pool == other.pool && this.layout == layout
      ensures Equals(other) && other.Equals(this)
    {
      this.pool := other.pool;
      this.layout := layout;
    }

    /** `allocate(n)`: asks the pool for `n * sizeof(T)` bytes (computed in
        `std::size_t`) at `alignof(T)`; a null answer terminates the process. */
    method Allocate(n: SizeT) returns (r: AdapterResult)
      requires pool.Valid() && layout.Valid()
      modifies pool.chunkInfo
      ensures var q := AllocateResult(pool.geom, old(pool.chunkInfo[..]), MulSizeT(n, layout.size), layout.align);
              r == if q.None? then Terminated else Allocated(q.value)
      ensures pool.chunkInfo[..]
              == AllocateTable(pool.geom, old(pool.chunkInfo[..]), MulSizeT(n, layout.size), layout.align)
    {
      var p := pool.Allocate(MulSizeT(n, layout.size), layout.align);
      if p.None? {
        return Terminated;
      }
      return Allocated(p.value);
    }

    /** `deallocate(ptr, n)`: gives `n * sizeof(T)` bytes back to the pool,
        passing no alignment, so the pool sees its default `MAX_ALIGN`. */
    method Deallocate(p: Option<nat>, n: SizeT)
      requires pool.Valid()
      requires p.Some? && MulSizeT(n, layout.size) > 0 ==>
                 pool.geom.base <= p.value && ChunkIndexByPtr(pool.geom, p.value) < pool.chunkInfo.Length
      modifies pool.chunkInfo
      ensures pool.chunkInfo[..] == DeallocateTable(pool.geom, old(pool.chunkInfo[..]), p, MulSizeT(n, layout.size))
    {
      pool.Deallocate(p, MulSizeT(n, layout.size), MAX_ALIGN);
    }

    /** `operator ==`: the two adapters use the same pool object, whatever
        their element types. */
    function Equals(other: MemAllocator): (r: bool)
      ensures r <==> pool == other.pool
    {
      pool == other.pool
    }

    /** `operator !=`: the negation of `==`. */
    function NotEquals(other: MemAllocator): (r: bool)
      ensures r <==> !Equals(other)
    {
      !Equals(other)
    }
  }

  /** Adapter equality is an equivalence, as the Allocator requirements ask
      of `==`, and `!=` is its negation read either way round. */
  lemma EqualsIsEquivalence(a: MemAllocator, b: MemAllocator, c: MemAllocator)
    ensures a.Equals(a)
    ensures a.Equals(b) <==> b.Equals(a)
    ensures a.Equals(b) && b.Equals(c) ==> a.Equals(c)
    ensures a.NotEquals(b) <==> !b.Equals(a)
  {
  }
}
