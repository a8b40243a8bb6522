/** What the byte-granular pool of main.cpp computes, as functions on its
    table of `is_reserved` flags (one per byte of the arena). BytePool's
    methods are proved to produce exactly these values. */
module ByteSpec {
  import opened Basics
  import opened StdAlgorithms
  import opened Arith

  /** The lowest `j >= from` at which `count` consecutive free flags start:
      what `std::search_n(begin + from, end, count, false)` finds. */
  function LowestFreeRun(s: seq<bool>, count: nat, from: nat): (r: Option<nat>)
    decreases |s| - from
    ensures r.Some? ==> from <= r.value < |s| && FreeRun(s, r.value, count)
    ensures forall j :: from <= j < |s| && (r.None? || j < r.value) ==> !FreeRun(s, j, count)
  {
    if from >= |s| then None
    else if FreeRun(s, from, count) then Some(from)
    else LowestFreeRun(s, count, from + 1)
  }

  /** A run found by a scan from the table start, below which no run
      exists, is the lowest one. */
  lemma LowestFreeRunIs(s: seq<bool>, count: nat, k: nat)
    requires k < |s| && FreeRun(s, k, count)
    requires forall j :: 0 <= j < k ==> !FreeRun(s, j, count)
    ensures LowestFreeRun(s, count, 0) == Some(k)
  {
  }

  /** The table offset `allocate(bytes)` hands out, if any. */
  function AllocateIndex(s: seq<bool>, bytes: nat): (r: Option<nat>)
    requires |s| > 0
    ensures bytes == 0 ==> r == Some(0)
    ensures r.Some? ==> r.value < |s| && r.value + bytes <= |s| && AllFree(s, r.value, r.value + bytes)
    ensures r.Some? ==> forall j :: 0 <= j < r.value ==> !FreeRun(s, j, bytes)
    ensures r.None? <==> forall j :: 0 <= j < |s| ==> !FreeRun(s, j, bytes)
  {
    assert FreeRun(s, 0, 0);
    LowestFreeRun(s, bytes, 0)
  }

  /** `allocate(bytes, alignment)` of main.cpp:26-41: the address of the
      lowest run of `bytes` free flags, or `nullptr` when there is none. The
      alignment is not an argument: it has no effect. */
  function AllocateResult(base: nat, s: seq<bool>, bytes: nat): (r: Option<nat>)
    requires |s| > 0
    ensures bytes == 0 ==> r == Some(base)
    ensures r.Some? ==> base <= r.value && r.value - base + bytes <= |s|
                        && AllFree(s, r.value - base, r.value - base + bytes)
    ensures r.Some? ==> forall j :: 0 <= j < r.value - base ==> !FreeRun(s, j, bytes)
    ensures r.None? <==> forall j :: 0 <= j < |s| ==> !FreeRun(s, j, bytes)
  {
    match AllocateIndex(s, bytes)
    case None => None
    case Some(i) => Some(base + i)
  }

  /** The flags after `allocate(bytes, alignment)`: the run it hands out
      becomes reserved, every other flag keeps its value, and a failed or
      empty request changes nothing. */
  function AllocateTable(s: seq<bool>, bytes: nat): (r: seq<bool>)
    requires |s| > 0
    ensures |r| == |s|
    ensures AllocateIndex(s, bytes).None? || bytes == 0 ==> r == s
    ensures AllocateIndex(s, bytes).Some? ==>
              var i := AllocateIndex(s, bytes).value;
              forall k :: 0 <= k < |s| ==> r[k] == (if i <= k < i + bytes then true else s[k])
  {
    match AllocateIndex(s, bytes)
    case None => s
    case Some(i) => Filled(s, i, i + bytes, true)
  }

  /** What `deallocate(ptr, bytes_cnt, alignment)` demands of its caller:
      a non-null, non-empty release lies inside the arena. */
  predicate DeallocateAllowed(base: nat, n: nat, p: Option<nat>, bytes: nat)
    ensures p.None? || bytes == 0 ==> DeallocateAllowed(base, n, p, bytes)
    ensures DeallocateAllowed(base, n, p, bytes) && p.Some? && bytes > 0 ==> base <= p.value < base + n
  {
    p.Some? && bytes > 0 ==> base <= p.value && p.value - base + bytes <= n
  }

  /** The flags after `deallocate(ptr, bytes_cnt, alignment)` of
      main.cpp:43-54: nothing changes for `nullptr` or zero bytes; otherwise
      the `bytes` flags from offset `ptr - base` become free and no other
      flag changes. */
  function DeallocateTable(base: nat, s: seq<bool>, p: Option<nat>, bytes: nat): (r: seq<bool>)
    requires DeallocateAllowed(base, |s|, p, bytes)
    ensures |r| == |s|
    ensures p.None? || bytes == 0 ==> r == s
    ensures p.Some? && bytes > 0 ==>
              forall k :: 0 <= k < |s| ==>
                r[k] == (if p.value - base <= k < p.value - base + bytes then false else s[k])
  {
    if p.None? || bytes == 0 then s
    else Filled(s, p.value - base, p.value - base + bytes, false)
  }

  /** Round trip: `allocate(n)` followed at once by `deallocate(p, n)` on its
      result leaves the table exactly as it was, whether the allocation
      succeeded or not. */
  lemma RoundTrip(base: nat, s: seq<bool>, bytes: nat)
    requires |s| > 0
    ensures DeallocateAllowed(base, |s|, AllocateResult(base, s, bytes), bytes)
    ensures DeallocateTable(base, AllocateTable(s, bytes), AllocateResult(base, s, bytes), bytes) == s
  {
    var r := AllocateIndex(s, bytes);
    if r.Some? && bytes > 0 {
      FillThenClear(s, r.value, r.value + bytes);
    }
  }

  /** All flags in `[lo, hi)` are reserved: a range some earlier allocation
      still holds. */
  predicate AllReserved(s: seq<bool>, lo: nat, hi: nat)
    requires lo <= hi <= |s|
  {
    forall k :: lo <= k < hi ==> s[k]
  }

  /** Non-overlap: the range a successful allocation hands out shares no
      byte with any non-empty range that is still reserved. */
  lemma AllocationAvoidsReserved(base: nat, s: seq<bool>, bytes: nat, lo: nat, hi: nat)
    requires |s| > 0 && lo < hi <= |s| && AllReserved(s, lo, hi)
    requires AllocateResult(base, s, bytes).Some?
    ensures var i := AllocateResult(base, s, bytes).value - base;
            i + bytes <= lo || hi <= i
  {
    var i := AllocateResult(base, s, bytes).value - base;
    var k := if i < lo then lo else i;
    if k < i + bytes && k < hi {
      ReservedFlag(s, lo, hi, k);
      assert false;
    }
  }

  lemma ReservedFlag(s: seq<bool>, lo: nat, hi: nat, k: nat)
    requires lo <= k < hi <= |s| && AllReserved(s, lo, hi)
    ensures s[k]
  {
  }

  /** Two successive allocations hand out disjoint ranges. */
  lemma SuccessiveAllocationsDisjoint(base: nat, s: seq<bool>, b1: nat, b2: nat)
    requires |s| > 0 && b1 > 0
    requires AllocateResult(base, s, b1).Some?
    requires AllocateResult(base, AllocateTable(s, b1), b2).Some?
    ensures var i := AllocateResult(base, s, b1).value - base;
            var j := AllocateResult(base, AllocateTable(s, b1), b2).value - base;
            j + b2 <= i || i + b1 <= j
  {
    var i := AllocateResult(base, s, b1).value - base;
    var t := AllocateTable(s, b1);
    assert AllReserved(t, i, i + b1);
    AllocationAvoidsReserved(base, t, b2, i, i + b1);
  }

  /** Element-count adapter, main.cpp:76-89: `allocate(n)` reserves
      `n * elemSize` flags but `deallocate(p, n)` frees only `n`, so with
      elements of more than one byte the tail of the range stays reserved
      after the round trip, although it was free before. (When
      `n * elemSize` wraps in `std::size_t` the adapter asks for fewer bytes
      than it means to; that case is left to `MulSizeT`.) */
  lemma AdapterDeallocateLeaks(base: nat, s: seq<bool>, n: SizeT, elemSize: SizeT)
    requires |s| > 0 && n > 0 && elemSize > 1 && n * elemSize < SIZE_T_MODULUS
    requires AllocateResult(base, s, MulSizeT(n, elemSize)).Some?
    ensures var bytes := MulSizeT(n, elemSize);
            var p := AllocateResult(base, s, bytes);
            var i := p.value - base;
            && DeallocateAllowed(base, |s|, p, n)
            && n < bytes
            && var u := DeallocateTable(base, AllocateTable(s, bytes), p, n);
               && (forall k :: i <= k < i + n ==> !u[k])
               && (forall k :: i + n <= k < i + bytes ==> u[k] && !s[k])
  {
    MulMonoStrict(1, elemSize, n);
  }

  /** With one-byte elements the adapter's round trip is exact. */
  lemma AdapterByteRoundTrip(base: nat, s: seq<bool>, n: SizeT)
    requires |s| > 0
    ensures MulSizeT(n, 1) == n
    ensures DeallocateTable(base, AllocateTable(s, MulSizeT(n, 1)), AllocateResult(base, s, MulSizeT(n, 1)), n) == s
  {
    RoundTrip(base, s, n);
  }
}
