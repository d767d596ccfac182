/**
 Bitmaps (src/lib/kernel/bitmap.c).  The pure functions on `seq<bool>` are the
 specification the page allocator, the swap table and the free map are stated
 with; the class carries the loops.
 */
module Bitmaps {

  /** BITMAP_ERROR is `None`. */
  datatype Option<+T> = None | Some(value: T)

  // ----- the specification on bit sequences -----

  /** All of the `cnt` bits from `i` on have the value `value`. */
  predicate Group(bits: seq<bool>, i: nat, cnt: nat, value: bool)
  {
    i + cnt <= |bits| && forall k :: i <= k < i + cnt ==> bits[k] == value
  }

  function SetRange(bits: seq<bool>, start: nat, cnt: nat, value: bool): (r: seq<bool>)
    requires start + cnt <= |bits|
    ensures |r| == |bits|
    ensures forall k :: 0 <= k < |bits| ==> r[k] == if start <= k < start + cnt then value else bits[k]
  {
    bits[..start] + seq(cnt, _ => value) + bits[start + cnt..]
  }

  /** The first group of `cnt` equal bits at or after `start`. */
  function Scan(bits: seq<bool>, start: nat, cnt: nat, value: bool): (r: Option<nat>)
    requires start <= |bits|
    ensures r.Some? ==> start <= r.value && Group(bits, r.value, cnt, value)
    ensures r.Some? ==> forall i :: start <= i < r.value ==> !Group(bits, i, cnt, value)
    ensures r.None? ==> forall i :: start <= i ==> !Group(bits, i, cnt, value)
    decreases |bits| - start
  {
    if Group(bits, start, cnt, value) then Some(start)
    else if start == |bits| then None
    else Scan(bits, start + 1, cnt, value)
  }

  lemma {:induction false} ScanUnique(bits: seq<bool>, start: nat, cnt: nat, value: bool, i: nat)
    requires start <= i && Group(bits, i, cnt, value)
    requires forall k :: start <= k < i ==> !Group(bits, k, cnt, value)
    ensures Scan(bits, start, cnt, value) == Some(i)
    decreases i - start
  {
    if start < i {
      ScanUnique(bits, start + 1, cnt, value, i);
    }
  }

  /** What scan-and-flip leaves behind. */
  function Flipped(bits: seq<bool>, start: nat, cnt: nat, value: bool): (r: seq<bool>)
    requires start <= |bits|
    ensures |r| == |bits|
  {
    match Scan(bits, start, cnt, value)
    case None => bits
    case Some(i) => SetRange(bits, i, cnt, !value)
  }

  /** Releasing exactly what scan-and-flip took restores every bit. */
  lemma FlipThenRelease(bits: seq<bool>, start: nat, cnt: nat, value: bool)
    requires start <= |bits| && Scan(bits, start, cnt, value).Some?
    ensures SetRange(Flipped(bits, start, cnt, value), Scan(bits, start, cnt, value).value, cnt, value) == bits
  {
    var i := Scan(bits, start, cnt, value).value;
    var f := Flipped(bits, start, cnt, value);
    var r := SetRange(f, i, cnt, value);
    assert forall k :: 0 <= k < |bits| ==> r[k] == bits[k];
  }

  function Count(bits: seq<bool>, value: bool): (n: nat)
    ensures n <= |bits|
  {
    if bits == [] then 0 else Count(bits[..|bits| - 1], value) + if bits[|bits| - 1] == value then 1 else 0
  }

  // ----- the bitmap object -----

  class Bitmap {
    const bits: array<bool>

    /** bitmap_create: all bits false. */
    constructor (n: nat)
      ensures fresh(bits) && bits[..] == seq(n, _ => false)
    {
      bits := new bool[n](_ => false);
    }

    method SetMultiple(start: nat, cnt: nat, value: bool)
      requires start + cnt <= bits.Length
      modifies bits
      ensures bits[..] == SetRange(old(bits[..]), start, cnt, value)
    {
      for i := 0 to cnt
        invariant bits[..] == SetRange(old(bits[..]), start, i, value)
      {
        bits[start + i] := value;
      }
    }

    method CountRange(start: nat, cnt: nat, value: bool) returns (n: nat)
      requires start + cnt <= bits.Length
      ensures n == Count(bits[start..start + cnt], value)
    {
      n := 0;
      for i := 0 to cnt
        invariant n == Count(bits[start..start + i], value)
      {
        assert bits[start..start + i + 1][..i] == bits[start..start + i];
        if bits[start + i] == value {
          n := n + 1;
        }
      }
    }

    method Contains(start: nat, cnt: nat, value: bool) returns (b: bool)
      requires start + cnt <= bits.Length
      ensures b <==> !Group(bits[..], start, cnt, !value)
    {
      for i := 0 to cnt
        invariant Group(bits[..], start, i, !value)
      {
        if bits[start + i] == value {
          return true;
        }
      }
      return false;
    }

    method ScanFor(start: nat, cnt: nat, value: bool) returns (r: Option<nat>)
      requires start <= bits.Length
      ensures r == Scan(bits[..], start, cnt, value)
    {
      if cnt <= bits.Length {
        var last := bits.Length - cnt;
        var i := start;
        while i <= last
          invariant start <= i
          invariant forall k :: start <= k < i ==> !Group(bits[..], k, cnt, value)
        {
          var c := Contains(i, cnt, !value);
          if !c {
            ScanUnique(bits[..], start, cnt, value, i);
            return Some(i);
          }
          i := i + 1;
        }
      }
      return None;
    }

    method ScanAndFlip(start: nat, cnt: nat, value: bool) returns (r: Option<nat>)
      requires start <= bits.Length
      modifies bits
      ensures r == Scan(old(bits[..]), start, cnt, value)
      ensures bits[..] == Flipped(old(bits[..]), start, cnt, value)
    {
      r := ScanFor(start, cnt, value);
      if r.Some? {
        SetMultiple(r.value, cnt, !value);
      }
    }
  }
}
