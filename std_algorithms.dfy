/** The parts of the C++ standard library that both pools run over their
    table of reservation flags (`true` = reserved, `false` = free):
    `std::find_if`, `std::all_of`, `std::search_n` and `std::fill` /
    `std::fill_n`, each as a loop over an `array<bool>`. */
module StdAlgorithms {

  /** Every flag in `[lo, hi)` is free. */
  predicate AllFree(s: seq<bool>, lo: nat, hi: nat)
    requires lo <= hi <= |s|
  {
    forall k :: lo <= k < hi ==> !s[k]
  }

  /** `count` consecutive free flags start at `start` and fit in the table. */
  predicate FreeRun(s: seq<bool>, start: nat, count: nat)
  {
    start + count <= |s| && AllFree(s, start, start + count)
  }

  /** The table after writing `v` to every flag in `[lo, hi)`. */
  function Filled(s: seq<bool>, lo: nat, hi: nat, v: bool): (r: seq<bool>)
    requires lo <= hi <= |s|
    ensures |r| == |s|
    ensures forall k :: 0 <= k < |s| ==> r[k] == (if lo <= k < hi then v else s[k])
  {
    s[..lo] + seq(hi - lo, _ => v) + s[hi..]
  }

  /** Reserving a free run and then freeing the same run restores the table. */
  lemma {:induction false} FillThenClear(s: seq<bool>, lo: nat, hi: nat)
    requires lo <= hi <= |s| && AllFree(s, lo, hi)
    ensures Filled(Filled(s, lo, hi, true), lo, hi, false) == s
  {
    var t := Filled(Filled(s, lo, hi, true), lo, hi, false);
    assert |t| == |s|;
    forall k | 0 <= k < |s| ensures t[k] == s[k] {
    }
  }

  /** `std::find_if(from, end, is_free)`: the index of the first free flag at
      or after `from`, or the table length when there is none. */
  method FindFree(a: array<bool>, from: nat) returns (k: nat)
    requires from <= a.Length
    ensures from <= k <= a.Length
    ensures k < a.Length ==> !a[k]
    ensures forall j :: from <= j < k ==> a[j]
  {
    k := from;
    while k < a.Length && a[k]
      invariant from <= k <= a.Length
      invariant forall j :: from <= j < k ==> a[j]
    {
      k := k + 1;
    }
  }

  /** `std::all_of(lo, hi, is_free)`. */
  method AllOfFree(a: array<bool>, lo: nat, hi: nat) returns (b: bool)
    requires lo <= hi <= a.Length
    ensures b <==> AllFree(a[..], lo, hi)
  {
    var k := lo;
    while k < hi
      invariant lo <= k <= hi
      invariant AllFree(a[..], lo, k)
    {
      if a[k] {
        return false;
      }
      k := k + 1;
    }
    return true;
  }

  /** `std::search_n(begin, end, count, false)`: the start of the lowest run
      of `count` free flags; `begin` (0) when `count` is 0; `end` (the table
      length) when no run exists. */
  method SearchN(a: array<bool>, count: nat) returns (k: nat)
    ensures k <= a.Length
    ensures count == 0 ==> k == 0
    ensures k < a.Length ==> FreeRun(a[..], k, count)
    ensures forall j :: 0 <= j < k ==> !FreeRun(a[..], j, count)
    ensures k == a.Length && count > 0 ==> forall j :: !FreeRun(a[..], j, count)
  {
    if count == 0 {
      return 0;
    }
    k := 0;
    while k + count <= a.Length
      invariant k <= a.Length
      invariant forall j :: 0 <= j < k ==> !FreeRun(a[..], j, count)
    {
      var free := AllOfFree(a, k, k + count);
      if free {
        return;
      }
      k := k + 1;
    }
    k := a.Length;
  }

  /** `std::fill(lo, hi, v)`, and `std::fill_n(lo, hi - lo, v)`. */
  method FillRange(a: array<bool>, lo: nat, hi: nat, v: bool)
    requires lo <= hi <= a.Length
    modifies a
    ensures a[..] == Filled(old(a[..]), lo, hi, v)
  {
    var k := lo;
    while k < hi
      invariant lo <= k <= hi
      invariant a[..] == Filled(old(a[..]), lo, k, v)
    {
      a[k] := v;
      k := k + 1;
    }
  }
}
