/**
 Heapsort and binary search (src/lib/stdlib.c).  Elements are opaque values;
 heap indexes are 1-based as in the source.
 */
module Heapsort {
  import opened Bitmaps

  type Compare<!T> = (T, T) -> int

  /** strcmp-style results of a total preorder. */
  ghost predicate Preorder<T(!new)>(cmp: Compare<T>)
  {
    && (forall x, y :: cmp(x, y) > 0 <==> cmp(y, x) < 0)
    && (forall x, y, z :: cmp(x, y) <= 0 && cmp(y, z) <= 0 ==> cmp(x, z) <= 0)
  }

  ghost predicate Ordered<T>(cmp: Compare<T>, s: seq<T>)
  {
    forall i, j :: 0 <= i < j < |s| ==> cmp(s[i], s[j]) <= 0
  }

  // ----- heaps -----

  /** Node `j` is no larger than its parent. */
  predicate Below<T>(cmp: Compare<T>, s: seq<T>, j: nat, parent: nat)
  {
    1 <= parent <= |s| && 1 <= j <= |s| && cmp(s[j - 1], s[parent - 1]) <= 0
  }

  /** Nodes `lo..cnt` are no smaller than their children. */
  ghost predicate Heap<T>(cmp: Compare<T>, s: seq<T>, lo: nat, cnt: nat)
  {
    cnt <= |s| && forall j :: 2 <= j <= cnt && j / 2 >= lo ==> Below(cmp, s, j, j / 2)
  }

  /** The same but for node `i`, which is on its way down: its children are
      no larger than its parent. */
  ghost predicate HeapBut<T>(cmp: Compare<T>, s: seq<T>, lo: nat, cnt: nat, i: nat)
  {
    && cnt <= |s| && 1 <= i
    && (forall j :: 2 <= j <= cnt && j / 2 >= lo && j / 2 != i ==> Below(cmp, s, j, j / 2))
    && (forall j :: 2 <= j <= cnt && j / 2 == i && i / 2 >= lo && i >= 2 ==> Below(cmp, s, j, i / 2))
  }

  function Swapped<T>(s: seq<T>, a: nat, b: nat): (r: seq<T>)
    requires 1 <= a <= |s| && 1 <= b <= |s|
  {
    s[a - 1 := s[b - 1]][b - 1 := s[a - 1]]
  }

  lemma SwappedSame<T>(s: seq<T>, a: nat, b: nat, cnt: nat)
    requires 1 <= a <= cnt && 1 <= b <= cnt <= |s|
    ensures |Swapped(s, a, b)| == |s| && multiset(Swapped(s, a, b)[..cnt]) == multiset(s[..cnt])
    ensures Swapped(s, a, b)[cnt..] == s[cnt..]
  {
    var p := s[..cnt];
    assert Swapped(s, a, b)[..cnt] == p[a - 1 := p[b - 1]][b - 1 := p[a - 1]];
  }

  /** The largest among a node and its children. */
  ghost predicate LargestOf<T>(cmp: Compare<T>, s: seq<T>, i: nat, cnt: nat, max: nat)
  {
    && 1 <= i <= cnt <= |s| && 1 <= max <= cnt && (max == i || max == 2 * i || max == 2 * i + 1)
    && Below(cmp, s, i, max) && (2 * i <= cnt ==> Below(cmp, s, 2 * i, max))
    && (2 * i + 1 <= cnt ==> Below(cmp, s, 2 * i + 1, max))
  }

  /** The element has found its place. */
  lemma FloatStops<T(!new)>(cmp: Compare<T>, s: seq<T>, lo: nat, cnt: nat, i: nat)
    requires Preorder(cmp) && HeapBut(cmp, s, lo, cnt, i) && LargestOf(cmp, s, i, cnt, i)
    ensures Heap(cmp, s, lo, cnt)
  {
    forall j | 2 <= j <= cnt && j / 2 >= lo ensures Below(cmp, s, j, j / 2) {
      if j / 2 == i {
        assert j == 2 * i || j == 2 * i + 1;
      }
    }
  }

  /** The element moves down by one node. */
  lemma FloatDown<T(!new)>(cmp: Compare<T>, s: seq<T>, lo: nat, cnt: nat, i: nat, max: nat)
    requires Preorder(cmp) && HeapBut(cmp, s, lo, cnt, i) && LargestOf(cmp, s, i, cnt, max) && max != i && lo <= i
    ensures HeapBut(cmp, Swapped(s, i, max), lo, cnt, max)
  {
    var r := Swapped(s, i, max);
    assert max / 2 == i;
    forall j | 2 <= j <= cnt && j / 2 >= lo && j / 2 != max ensures Below(cmp, r, j, j / 2) {
      if j / 2 == i {
        assert j == 2 * i || j == 2 * i + 1;
      } else if j == i {
        assert Below(cmp, s, max, i / 2);
      } else {
        assert Below(cmp, s, j, j / 2);
      }
    }
    forall j | 2 <= j <= cnt && j / 2 == max ensures Below(cmp, r, j, i) {
      assert Below(cmp, s, j, max);
    }
  }

  /** The root of a heap is its largest element. */
  lemma {:induction false} RootIsLargest<T(!new)>(cmp: Compare<T>, s: seq<T>, cnt: nat, j: nat)
    requires Preorder(cmp) && Heap(cmp, s, 1, cnt) && 1 <= j <= cnt
    ensures Below(cmp, s, j, 1)
    decreases j
  {
    if j == 1 {
      assert cmp(s[0], s[0]) <= 0;
    } else {
      RootIsLargest(cmp, s, cnt, j / 2);
      assert Below(cmp, s, j, j / 2);
    }
  }

  // ----- the sorted part -----

  /** The suffix is in order and nothing before it is larger. */
  ghost predicate Done<T>(cmp: Compare<T>, s: seq<T>, cnt: nat)
  {
    && cnt <= |s| && Ordered(cmp, s[cnt..])
    && forall x, y :: x in s[..cnt] && y in s[cnt..] ==> cmp(x, y) <= 0
  }

  /** Moving the largest of the heap to its end makes the sorted part longer. */
  lemma TakeLargest<T(!new)>(cmp: Compare<T>, s: seq<T>, cnt: nat)
    requires Preorder(cmp) && Heap(cmp, s, 1, cnt) && Done(cmp, s, cnt) && cnt >= 1
    ensures Done(cmp, Swapped(s, 1, cnt), cnt - 1) && Heap(cmp, Swapped(s, 1, cnt), 2, cnt - 1)
  {
    var r := Swapped(s, 1, cnt);
    SwappedSame(s, 1, cnt, cnt);
    assert r[cnt - 1..] == [s[0]] + s[cnt..];
    assert s[0] in s[..cnt];
    forall x | x in r[..cnt - 1] ensures x in s[..cnt] && cmp(x, s[0]) <= 0 {
      var j :| 0 <= j < cnt - 1 && r[j] == x;
      var k := if j == 0 then cnt else j + 1;
      RootIsLargest(cmp, s, cnt, k);
      assert s[..cnt][k - 1] == x;
    }
    TakenInOrder(cmp, s, cnt);
    forall j | 2 <= j <= cnt - 1 && j / 2 >= 2 ensures Below(cmp, r, j, j / 2) {
      assert Below(cmp, s, j, j / 2);
    }
  }

  lemma TakenInOrder<T>(cmp: Compare<T>, s: seq<T>, cnt: nat)
    requires 1 <= cnt <= |s| && Ordered(cmp, s[cnt..]) && forall y :: y in s[cnt..] ==> cmp(s[0], y) <= 0
    ensures Ordered(cmp, [s[0]] + s[cnt..])
  {
  }

  /** Rearranging the unsorted part changes nothing about the sorted one. */
  lemma DonePermuted<T>(cmp: Compare<T>, s: seq<T>, r: seq<T>, cnt: nat)
    requires Done(cmp, s, cnt) && |r| == |s| && multiset(r[..cnt]) == multiset(s[..cnt]) && r[cnt..] == s[cnt..]
    ensures Done(cmp, r, cnt)
  {
    assert forall x :: x in r[..cnt] <==> x in multiset(r[..cnt]);
    assert forall x :: x in s[..cnt] <==> x in multiset(s[..cnt]);
  }

  lemma WholePermuted<T>(s: seq<T>, r: seq<T>, cnt: nat)
    requires cnt <= |s| == |r| && multiset(r[..cnt]) == multiset(s[..cnt]) && r[cnt..] == s[cnt..]
    ensures multiset(r) == multiset(s)
  {
    assert r == r[..cnt] + r[cnt..] && s == s[..cnt] + s[cnt..];
  }

  lemma HalfHeap<T>(cmp: Compare<T>, s: seq<T>)
    ensures Heap(cmp, s, |s| / 2 + 1, |s|)
  {
  }

  // ----- the code -----

  method DoSwap<T>(a: array<T>, i: nat, j: nat)
    requires 1 <= i <= a.Length && 1 <= j <= a.Length
    modifies a
    ensures a[..] == Swapped(old(a[..]), i, j)
  {
    a[i - 1], a[j - 1] := a[j - 1], a[i - 1];
  }

  method Heapify<T(!new)>(a: array<T>, start: nat, cnt: nat, cmp: Compare<T>)
    requires Preorder(cmp) && 1 <= start <= cnt <= a.Length && Heap(cmp, a[..], start + 1, cnt)
    modifies a
    ensures Heap(cmp, a[..], start, cnt)
    ensures multiset(a[..cnt]) == multiset(old(a[..cnt])) && a[cnt..] == old(a[cnt..])
  {
    var i := start;
    HeapButStart(cmp, a[..], start, cnt);
    while true
      invariant start <= i <= cnt && HeapBut(cmp, a[..], start, cnt, i)
      invariant multiset(a[..cnt]) == multiset(old(a[..cnt])) && a[cnt..] == old(a[cnt..])
      decreases cnt - i
    {
      var max := Largest(a, i, cnt, cmp);
      if max == i {
        FloatStops(cmp, a[..], start, cnt, i);
        break;
      }
      FloatDown(cmp, a[..], start, cnt, i, max);
      SwappedSame(a[..], i, max, cnt);
      ghost var s := a[..];
      DoSwap(a, i, max);
      PrefixOf(a, s, Swapped(s, i, max), cnt);
      i := max;
    }
  }

  lemma PrefixOf<T>(a: array<T>, s: seq<T>, r: seq<T>, cnt: nat)
    requires cnt <= a.Length && a[..] == r && |s| == |r|
    ensures a[..cnt] == r[..cnt] && a[cnt..] == r[cnt..]
  {
  }

  lemma HeapButStart<T>(cmp: Compare<T>, s: seq<T>, start: nat, cnt: nat)
    requires Heap(cmp, s, start + 1, cnt) && 1 <= start
    ensures HeapBut(cmp, s, start, cnt, start)
  {
  }

  method Largest<T(!new)>(a: array<T>, i: nat, cnt: nat, cmp: Compare<T>) returns (max: nat)
    requires Preorder(cmp) && 1 <= i <= cnt <= a.Length
    ensures LargestOf(cmp, a[..], i, cnt, max)
  {
    var left, right := 2 * i, 2 * i + 1;
    max := i;
    assert cmp(a[i - 1], a[i - 1]) <= 0;
    if left <= cnt && cmp(a[left - 1], a[max - 1]) > 0 {
      max := left;
    }
    if right <= cnt && cmp(a[right - 1], a[max - 1]) > 0 {
      max := right;
    }
  }

  /** Sorts every array: the result is in order and holds the same elements. */
  method Sort<T(!new)>(a: array<T>, cmp: Compare<T>)
    requires Preorder(cmp)
    modifies a
    ensures Ordered(cmp, a[..]) && multiset(a[..]) == multiset(old(a[..]))
  {
    var cnt := a.Length;
    HalfHeap(cmp, a[..]);
    var i := cnt / 2;
    while i > 0
      invariant 0 <= i <= cnt / 2 && Heap(cmp, a[..], i + 1, cnt) && multiset(a[..]) == multiset(old(a[..]))
    {
      assert a[..cnt] == a[..];
      Heapify(a, i, cnt, cmp);
      assert a[..cnt] == a[..];
      i := i - 1;
    }
    i := cnt;
    assert Done(cmp, a[..], cnt);
    while i > 1
      invariant 0 <= i <= cnt && Heap(cmp, a[..], 1, i) && Done(cmp, a[..], i)
      invariant multiset(a[..]) == multiset(old(a[..]))
    {
      ghost var s := a[..];
      TakeLargest(cmp, s, i);
      SwappedSame(s, 1, i, i);
      WholePermuted(s, Swapped(s, 1, i), i);
      DoSwap(a, 1, i);
      ghost var r := a[..];
      PrefixOf(a, s, r, i - 1);
      Heapify(a, 1, i - 1, cmp);
      PrefixOf(a, r, a[..], i - 1);
      DonePermuted(cmp, r, a[..], i - 1);
      WholePermuted(r, a[..], i - 1);
      i := i - 1;
    }
    SortedAtEnd(cmp, a[..], i);
  }

  lemma SortedAtEnd<T>(cmp: Compare<T>, s: seq<T>, cnt: nat)
    requires Done(cmp, s, cnt) && cnt <= 1
    ensures Ordered(cmp, s)
  {
    if cnt == 1 {
      assert s[..1] == [s[0]] && s == [s[0]] + s[1..];
      assert s[0] in s[..1];
      TakenInOrder(cmp, s, 1);
    } else {
      assert s[0..] == s;
    }
  }

  /** Finds a match in an ordered array if and only if there is one. */
  method BinarySearch<T(!new)>(key: T, a: array<T>, cmp: Compare<T>) returns (r: Option<nat>)
    requires Preorder(cmp) && Ordered(cmp, a[..])
    ensures r.Some? <==> exists i :: 0 <= i < a.Length && cmp(key, a[i]) == 0
    ensures r.Some? ==> r.value < a.Length && cmp(key, a[r.value]) == 0
  {
    var first, last := 0, a.Length;
    while first < last
      invariant 0 <= first <= last <= a.Length
      invariant forall i :: 0 <= i < first ==> cmp(key, a[i]) > 0
      invariant forall i :: last <= i < a.Length ==> cmp(key, a[i]) < 0
    {
      var middle := first + (last - first) / 2;
      var c := cmp(key, a[middle]);
      if c < 0 {
        forall i | middle <= i < last ensures cmp(key, a[i]) < 0 {
          Beyond(cmp, a[..], key, middle, i);
        }
        last := middle;
      } else if c > 0 {
        forall i | first <= i <= middle ensures cmp(key, a[i]) > 0 {
          Beyond(cmp, a[..], key, i, middle);
        }
        first := middle + 1;
      } else {
        return Some(middle);
      }
    }
    return None;
  }

  lemma Beyond<T(!new)>(cmp: Compare<T>, s: seq<T>, key: T, i: nat, j: nat)
    requires Preorder(cmp) && Ordered(cmp, s) && i <= j < |s|
    ensures cmp(key, s[i]) < 0 ==> cmp(key, s[j]) < 0
    ensures cmp(key, s[j]) > 0 ==> cmp(key, s[i]) > 0
  {
    assert cmp(s[i], s[i]) <= 0;
    assert cmp(s[i], s[j]) <= 0;
  }
}
