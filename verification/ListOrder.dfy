/**
 The order theory behind src/lib/kernel/list.c: strict weak orders on the
 elements of a sequence, ordered insertion, stable sorting and its uniqueness.

 A comparison is a function `less`; its laws are only ever demanded on the
 elements at hand, never on the whole type.
 */
module ListOrder {

  type Less<!T> = (T, T) -> bool

  /** The laws `less` must obey on the elements of `s`: asymmetry, and that
      incomparability is transitive.  Transitivity follows. */
  ghost predicate StrictWeakOrder<T>(less: Less<T>, s: seq<T>)
  {
    && (forall x, y | x in s && y in s :: less(x, y) ==> !less(y, x))
    && (forall x, y, z | x in s && y in s && z in s :: less(x, z) ==> less(x, y) || less(y, z))
  }

  predicate Equivalent<T>(less: Less<T>, x: T, y: T)
  {
    !less(x, y) && !less(y, x)
  }

  /** Nondecreasing. */
  ghost predicate Sorted<T>(less: Less<T>, s: seq<T>)
  {
    forall i, j :: 0 <= i < j < |s| ==> !less(s[j], s[i])
  }

  /** The elements of `s` equivalent to `c`, in order. */
  ghost function Class<T>(less: Less<T>, c: T, s: seq<T>): (r: seq<T>)
  {
    if s == [] then []
    else (if Equivalent(less, c, s[0]) then [s[0]] else []) + Class(less, c, s[1..])
  }

  /** `t` rearranges `s` without reordering equivalent elements. */
  ghost predicate StableRearrangement<T>(less: Less<T>, s: seq<T>, t: seq<T>)
  {
    && multiset(s) == multiset(t)
    && forall c | c in s :: Class(less, c, s) == Class(less, c, t)
  }

  // ----- ordered insertion: the specification of list_insert_ordered -----

  /** The number of leading elements that do not come after `x`. */
  function InsertPos<T>(less: Less<T>, s: seq<T>, x: T): (k: nat)
    ensures k <= |s|
    ensures forall i :: 0 <= i < k ==> !less(x, s[i])
    ensures k < |s| ==> less(x, s[k])
  {
    if s == [] || less(x, s[0]) then 0 else 1 + InsertPos(less, s[1..], x)
  }

  lemma {:induction false} InsertPosUnique<T>(less: Less<T>, s: seq<T>, x: T, k: nat)
    requires k <= |s|
    requires forall i :: 0 <= i < k ==> !less(x, s[i])
    requires k < |s| ==> less(x, s[k])
    ensures InsertPos(less, s, x) == k
  {
    if k > 0 {
      InsertPosUnique(less, s[1..], x, k - 1);
    }
  }

  function InsertOrdered<T>(less: Less<T>, s: seq<T>, x: T): (r: seq<T>)
    ensures |r| == |s| + 1
  {
    var k := InsertPos(less, s, x);
    s[..k] + [x] + s[k..]
  }

  /** The reference for list_sort: insert the elements one by one, in order. */
  function StableSort<T>(less: Less<T>, s: seq<T>): (r: seq<T>)
    ensures |r| == |s|
  {
    if s == [] then [] else InsertOrdered(less, StableSort(less, s[..|s| - 1]), s[|s| - 1])
  }

  lemma SeqMembers<T>(s: seq<T>, t: seq<T>)
    requires multiset(s) == multiset(t)
    ensures forall x :: x in s <==> x in t
    ensures |s| == |t|
  {
    assert forall x :: x in s <==> x in multiset(s);
    assert forall x :: x in t <==> x in multiset(t);
    assert |multiset(s)| == |s| && |multiset(t)| == |t|;
  }

  lemma OrderTransfers<T>(less: Less<T>, s: seq<T>, t: seq<T>)
    requires StrictWeakOrder(less, s)
    requires forall x :: x in t ==> x in s
    ensures StrictWeakOrder(less, t)
  {
  }

  // ----- classes -----

  lemma {:induction false} ClassConcat<T>(less: Less<T>, c: T, a: seq<T>, b: seq<T>)
    ensures Class(less, c, a + b) == Class(less, c, a) + Class(less, c, b)
  {
    if a == [] {
      assert a + b == b;
    } else {
      ClassConcat(less, c, a[1..], b);
      assert (a + b)[1..] == a[1..] + b;
      var h := if Equivalent(less, c, a[0]) then [a[0]] else [];
      assert Class(less, c, a + b) == h + Class(less, c, a[1..] + b);
      assert Class(less, c, a) == h + Class(less, c, a[1..]);
    }
  }

  lemma {:induction false} ClassEmpty<T>(less: Less<T>, c: T, s: seq<T>)
    requires forall x :: x in s ==> !Equivalent(less, c, x)
    ensures Class(less, c, s) == []
  {
    if s != [] {
      ClassEmpty(less, c, s[1..]);
    }
  }

  lemma ClassConcat4<T>(less: Less<T>, c: T, p: seq<T>, a: seq<T>, b: seq<T>, q: seq<T>)
    ensures Class(less, c, p + a + b + q) == Class(less, c, p) + Class(less, c, a) + Class(less, c, b) + Class(less, c, q)
  {
    ClassConcat(less, c, p + a + b, q);
    ClassConcat(less, c, p + a, b);
    ClassConcat(less, c, p, a);
  }

  lemma ClassOfMoved<T>(less: Less<T>, c: T, p: seq<T>, a: seq<T>, b: T, q: seq<T>)
    requires Equivalent(less, c, b) ==> forall x :: x in a ==> !Equivalent(less, c, x)
    ensures Class(less, c, p + a + [b] + q) == Class(less, c, p + [b] + a + q)
  {
    ClassConcat4(less, c, p, a, [b], q);
    ClassConcat4(less, c, p, [b], a, q);
    if Equivalent(less, c, b) {
      ClassEmpty(less, c, a);
    } else {
      ClassEmpty(less, c, [b]);
    }
  }

  /** Moving `b` from behind a block of strictly later elements to its front
      is a stable rearrangement: the step every merge is made of. */
  lemma MoveForward<T>(less: Less<T>, p: seq<T>, a: seq<T>, b: T, q: seq<T>)
    requires StrictWeakOrder(less, p + a + [b] + q)
    requires forall x :: x in a ==> less(b, x)
    ensures StableRearrangement(less, p + a + [b] + q, p + [b] + a + q)
  {
    var s := p + a + [b] + q;
    assert b in s && forall x :: x in a ==> x in s;
    forall c | c in s
      ensures Class(less, c, s) == Class(less, c, p + [b] + a + q)
    {
      ClassOfMoved(less, c, p, a, b, q);
    }
    MovedElements(p, a, b, q);
  }

  lemma MovedElements<T>(p: seq<T>, a: seq<T>, b: T, q: seq<T>)
    ensures multiset(p + a + [b] + q) == multiset(p + [b] + a + q)
  {
  }

  lemma StableTransitive<T>(less: Less<T>, s: seq<T>, t: seq<T>, u: seq<T>)
    requires StableRearrangement(less, s, t) && StableRearrangement(less, t, u)
    ensures StableRearrangement(less, s, u)
  {
    SeqMembers(s, t);
  }

  // ----- sorting -----

  lemma InsertKeepsSorted<T>(less: Less<T>, s: seq<T>, x: T)
    requires StrictWeakOrder(less, s + [x])
    requires Sorted(less, s)
    ensures Sorted(less, InsertOrdered(less, s, x))
    ensures StableRearrangement(less, s + [x], InsertOrdered(less, s, x))
  {
    var k := InsertPos(less, s, x);
    var r := InsertOrdered(less, s, x);
    assert forall y :: y in s ==> y in s + [x];
    assert x in s + [x];
    forall i | k <= i < |s| ensures less(x, s[i]) {
      assert less(x, s[k]);
      assert s[k] in s && s[i] in s;
      if i > k {
        assert !less(s[i], s[k]);
      }
    }
    assert Sorted(less, r) by {
      forall i, j | 0 <= i < j < |r| ensures !less(r[j], r[i]) {
        if i < k && j == k {
          assert r[i] == s[i];
        } else if i == k {
          assert r[j] == s[j - 1];
          assert less(x, s[j - 1]);
        }
      }
    }
    var a := s[k..];
    assert s + [x] == s[..k] + a + [x] + [];
    assert r == s[..k] + [x] + a + [];
    MoveForward(less, s[..k], a, x, []);
  }

  /** The reference sort sorts, and is stable. */
  lemma {:induction false} StableSortCorrect<T>(less: Less<T>, s: seq<T>)
    requires StrictWeakOrder(less, s)
    ensures Sorted(less, StableSort(less, s))
    ensures StableRearrangement(less, s, StableSort(less, s))
  {
    if s != [] {
      var p, x := s[..|s| - 1], s[|s| - 1];
      assert s == p + [x];
      OrderTransfers(less, s, p);
      StableSortCorrect(less, p);
      var r := StableSort(less, p);
      SeqMembers(p, r);
      forall y | y in r + [x] ensures y in s {
        if y in r {
          assert y in multiset(r);
          assert y in multiset(p);
        }
        assert y in p + [x];
      }
      OrderTransfers(less, s, r + [x]);
      InsertKeepsSorted(less, r, x);
      AppendStable(less, p, r, x);
      StableTransitive(less, s, r + [x], InsertOrdered(less, r, x));
    }
  }

  lemma AppendStable<T>(less: Less<T>, p: seq<T>, r: seq<T>, x: T)
    requires StrictWeakOrder(less, p + [x])
    requires StableRearrangement(less, p, r)
    ensures StableRearrangement(less, p + [x], r + [x])
  {
    SeqMembers(p, r);
    forall c | c in p + [x]
      ensures Class(less, c, p + [x]) == Class(less, c, r + [x])
    {
      ClassConcat(less, c, p, [x]);
      ClassConcat(less, c, r, [x]);
      if c !in p {
        SameClass(less, c, p, r, x);
      }
    }
  }

  lemma SameClass<T>(less: Less<T>, c: T, p: seq<T>, r: seq<T>, x: T)
    requires StrictWeakOrder(less, p + [x]) && c == x
    requires StableRearrangement(less, p, r)
    ensures Class(less, c, p) == Class(less, c, r)
  {
    SeqMembers(p, r);
    assert forall y :: y in p ==> y in p + [x];
    assert x in p + [x];
    if y :| y in p && Equivalent(less, c, y) {
      EquivalentClasses(less, c, y, p, p + [x]);
      EquivalentClasses(less, c, y, r, p + [x]);
    } else {
      ClassEmpty(less, c, p);
      ClassEmpty(less, c, r);
    }
  }

  lemma {:induction false} EquivalentClasses<T>(less: Less<T>, c: T, d: T, s: seq<T>, u: seq<T>)
    requires StrictWeakOrder(less, u)
    requires c in u && d in u && forall x :: x in s ==> x in u
    requires Equivalent(less, c, d)
    ensures Class(less, c, s) == Class(less, d, s)
  {
    if s != [] {
      assert s[0] in u;
      EquivalentClasses(less, c, d, s[1..], u);
    }
  }

  /** There is exactly one stable sorted rearrangement of a sequence. */
  lemma {:induction false} StableSortUnique<T>(less: Less<T>, s: seq<T>, t: seq<T>)
    requires StrictWeakOrder(less, s)
    requires Sorted(less, s) && Sorted(less, t)
    requires StableRearrangement(less, s, t)
    ensures s == t
  {
    SeqMembers(s, t);
    if s != [] {
      SortedHeads(less, s, t);
      SameHead(less, s, t);
      DropHead(less, s, t);
      OrderTransfers(less, s, s[1..]);
      StableSortUnique(less, s[1..], t[1..]);
      assert s == [s[0]] + s[1..] && t == [t[0]] + t[1..];
    }
  }

  lemma SameHead<T>(less: Less<T>, s: seq<T>, t: seq<T>)
    requires StrictWeakOrder(less, s)
    requires s != [] && t != [] && Equivalent(less, s[0], t[0])
    requires StableRearrangement(less, s, t)
    ensures s[0] == t[0]
  {
    assert s[0] in s;
    assert Class(less, s[0], s)[0] == s[0];
    assert Class(less, s[0], t)[0] == t[0];
  }

  lemma DropHead<T>(less: Less<T>, s: seq<T>, t: seq<T>)
    requires s != [] && t != [] && s[0] == t[0]
    requires StableRearrangement(less, s, t)
    ensures StableRearrangement(less, s[1..], t[1..])
  {
    var x, s', t' := s[0], s[1..], t[1..];
    assert s == [x] + s' && t == [x] + t';
    assert multiset(s') == multiset(s) - multiset{x};
    assert multiset(t') == multiset(t) - multiset{x};
    forall c | c in s'
      ensures Class(less, c, s') == Class(less, c, t')
    {
      assert c in s;
      var h := if Equivalent(less, c, x) then [x] else [];
      assert Class(less, c, s') == Class(less, c, s)[|h|..];
      assert Class(less, c, t') == Class(less, c, t)[|h|..];
    }
  }

  lemma SortedHeads<T>(less: Less<T>, s: seq<T>, t: seq<T>)
    requires StrictWeakOrder(less, s)
    requires Sorted(less, s) && Sorted(less, t)
    requires s != [] && t != []
    requires forall x :: x in s <==> x in t
    ensures Equivalent(less, s[0], t[0])
  {
    assert s[0] in t && t[0] in s;
    var i :| 0 <= i < |t| && t[i] == s[0];
    var j :| 0 <= j < |s| && s[j] == t[0];
    assert s[0] in s;
    assert !less(t[i], t[0]) by { if i > 0 { assert !less(t[i], t[0]); } else { assert !less(s[0], s[0]); } }
    assert !less(s[j], s[0]) by { if j > 0 { assert !less(s[j], s[0]); } else { assert !less(s[0], s[0]); } }
  }

  /** Any stable sorted rearrangement is the reference sort. */
  lemma StableSortIsTheOne<T>(less: Less<T>, s: seq<T>, t: seq<T>)
    requires StrictWeakOrder(less, s)
    requires Sorted(less, t)
    requires StableRearrangement(less, s, t)
    ensures t == StableSort(less, s)
  {
    StableSortCorrect(less, s);
    SeqMembers(s, t);
    OrderTransfers(less, s, t);
    var u := StableSort(less, s);
    assert StableRearrangement(less, t, u);
    StableSortUnique(less, t, u);
  }

  /** Sorting a sorted sequence changes nothing. */
  lemma SortIdempotent<T>(less: Less<T>, s: seq<T>)
    requires StrictWeakOrder(less, s) && Sorted(less, s)
    ensures StableSort(less, s) == s
  {
    StableSortIsTheOne(less, s, s);
  }

  // ----- natural runs -----

  /** The number of maximal nondecreasing runs. */
  ghost function Runs<T>(less: Less<T>, s: seq<T>): (r: nat)
    ensures r <= |s|
    ensures s != [] ==> r >= 1
  {
    if |s| == 0 then 0
    else if |s| == 1 then 1
    else (if less(s[1], s[0]) then 1 else 0) + Runs(less, s[1..])
  }

  /** Where the first run ends. */
  ghost function RunEnd<T>(less: Less<T>, s: seq<T>): (k: nat)
    requires s != []
    ensures 1 <= k <= |s|
    ensures forall i :: 1 <= i < k ==> !less(s[i], s[i - 1])
    ensures k < |s| ==> less(s[k], s[k - 1])
  {
    if |s| == 1 || less(s[1], s[0]) then 1 else 1 + RunEnd(less, s[1..])
  }

  lemma {:induction false} RunsAfterFirst<T>(less: Less<T>, s: seq<T>)
    requires s != []
    ensures Runs(less, s) == 1 + Runs(less, s[RunEnd(less, s)..])
  {
    if |s| == 1 {
      assert s[1..] == [];
    } else if !less(s[1], s[0]) {
      RunsAfterFirst(less, s[1..]);
      var k := RunEnd(less, s);
      assert s[k..] == s[1..][k - 1..];
    }
  }

  lemma {:induction false} RunsConcat<T>(less: Less<T>, a: seq<T>, b: seq<T>)
    ensures Runs(less, a + b) <= Runs(less, a) + Runs(less, b)
  {
    if a == [] {
      assert a + b == b;
    } else if |a| == 1 {
      assert (a + b)[1..] == b;
    } else {
      RunsConcat(less, a[1..], b);
      assert (a + b)[1..] == a[1..] + b;
    }
  }

  lemma {:induction false} SortedIsOneRun<T>(less: Less<T>, s: seq<T>)
    requires Sorted(less, s)
    ensures Runs(less, s) <= 1
  {
    if |s| > 1 {
      SortedIsOneRun(less, s[1..]);
    }
  }

  lemma {:induction false} OneRunIsSorted<T>(less: Less<T>, s: seq<T>)
    requires StrictWeakOrder(less, s)
    requires Runs(less, s) <= 1
    ensures Sorted(less, s)
  {
    if |s| > 1 {
      var t := s[1..];
      OrderTransfers(less, s, t);
      OneRunIsSorted(less, t);
      assert !less(t[0], s[0]);
      forall i, j | 0 <= i < j < |s| ensures !less(s[j], s[i]) {
        if i == 0 {
          assert s[j] == t[j - 1];
          if j > 1 {
            assert !less(t[j - 1], t[0]);
          }
          assert s[0] in s && s[j] in s && t[0] in s;
        } else {
          assert !less(t[j - 1], t[i - 1]);
        }
      }
    }
  }

  /** A stretch without a descent between neighbours is sorted. */
  lemma {:induction false} NoDescentIsSorted<T>(less: Less<T>, s: seq<T>)
    requires StrictWeakOrder(less, s)
    requires forall i :: 1 <= i < |s| ==> !less(s[i], s[i - 1])
    ensures Sorted(less, s)
  {
    NoDescentOneRun(less, s);
    OneRunIsSorted(less, s);
  }

  lemma {:induction false} NoDescentOneRun<T>(less: Less<T>, s: seq<T>)
    requires forall i :: 1 <= i < |s| ==> !less(s[i], s[i - 1])
    ensures Runs(less, s) <= 1
  {
    if |s| > 1 {
      NoDescentOneRun(less, s[1..]);
    }
  }

  lemma {:induction false} RunEndUnique<T>(less: Less<T>, s: seq<T>, k: nat)
    requires 1 <= k <= |s|
    requires forall i :: 1 <= i < k ==> !less(s[i], s[i - 1])
    requires k < |s| ==> less(s[k], s[k - 1])
    ensures RunEnd(less, s) == k
  {
    if k > 1 {
      RunEndUnique(less, s[1..], k - 1);
    }
  }

  // ----- merging in place -----

  ghost predicate SortedRange<T>(less: Less<T>, s: seq<T>, i: int, j: int)
    requires 0 <= i <= j <= |s|
  {
    forall u, v :: i <= u < v < j ==> !less(s[v], s[u])
  }

  /** Merging positions [i, j): [i, p) is final, and [p, q) and [q, j) are what
      is left of the two runs. */
  ghost predicate Merging<T>(less: Less<T>, s: seq<T>, i: int, p: int, q: int, j: int)
  {
    && 0 <= i <= p <= q <= j <= |s|
    && SortedRange(less, s, i, p)
    && SortedRange(less, s, p, q)
    && SortedRange(less, s, q, j)
    && forall u, v :: i <= u < p <= v < j ==> !less(s[v], s[u])
  }

  /** The head of the left run is taken when the right head is not smaller. */
  lemma MergeTakesLeft<T>(less: Less<T>, s: seq<T>, i: int, p: int, q: int, j: int)
    requires Merging(less, s, i, p, q, j) && p < q < j
    requires StrictWeakOrder(less, s[i..j])
    requires !less(s[q], s[p])
    ensures Merging(less, s, i, p + 1, q, j)
  {
    LeftHeadIsLeast(less, s, i, p, q, j);
    hide StrictWeakOrder;
  }

  lemma LeftHeadIsLeast<T>(less: Less<T>, s: seq<T>, i: int, p: int, q: int, j: int)
    requires Merging(less, s, i, p, q, j) && p < q < j
    requires StrictWeakOrder(less, s[i..j])
    requires !less(s[q], s[p])
    ensures forall v :: p + 1 <= v < j ==> !less(s[v], s[p])
  {
    InRange(s, i, j);
    forall v | p + 1 <= v < j ensures !less(s[v], s[p]) {
      if v > q {
        assert !less(s[v], s[q]);
      }
    }
  }

  lemma RightHeadIsLeast<T>(less: Less<T>, s: seq<T>, i: int, p: int, q: int, j: int)
    requires Merging(less, s, i, p, q, j) && p < q < j
    requires StrictWeakOrder(less, s[i..j])
    requires less(s[q], s[p])
    ensures forall v :: p <= v < q ==> less(s[q], s[v]) && !less(s[v], s[q])
    ensures forall v :: q < v < j ==> !less(s[v], s[q])
  {
    InRange(s, i, j);
    forall v | p <= v < q ensures less(s[q], s[v]) && !less(s[v], s[q]) {
      if v > p {
        assert !less(s[v], s[p]);
      }
    }
  }

  /** The head of the right run is moved in front otherwise. */
  lemma MergeTakesRight<T>(less: Less<T>, s: seq<T>, i: int, p: int, q: int, j: int, t: seq<T>)
    requires Merging(less, s, i, p, q, j) && p < q < j
    requires StrictWeakOrder(less, s[i..j])
    requires less(s[q], s[p])
    requires t == s[..p] + [s[q]] + s[p..q] + s[q + 1..]
    ensures Merging(less, t, i, p + 1, q + 1, j)
    ensures forall x :: x in s[p..q] ==> less(s[q], x)
  {
    RightHeadIsLeast(less, s, i, p, q, j);
    MergingRotated(less, s, i, p, q, j, t);
  }

  lemma MergingRotated<T>(less: Less<T>, s: seq<T>, i: int, p: int, q: int, j: int, t: seq<T>)
    requires Merging(less, s, i, p, q, j) && p < q < j
    requires forall v :: p <= v < j && v != q ==> !less(s[v], s[q])
    requires t == s[..p] + [s[q]] + s[p..q] + s[q + 1..]
    ensures Merging(less, t, i, p + 1, q + 1, j)
  {
    assert forall u | p < u <= q :: t[u] == s[u - 1];
    forall u, v | i <= u < p + 1 <= v < j ensures !less(t[v], t[u]) {
      var v' := if v <= q then v - 1 else v;
      assert t[v] == s[v'];
      assert t[u] == if u < p then s[u] else s[q];
    }
    forall u, v | i <= u < v < p + 1 ensures !less(t[v], t[u]) {
      assert t[v] == if v < p then s[v] else s[q];
    }
  }

  lemma InRange<T>(s: seq<T>, i: int, j: int)
    requires 0 <= i <= j <= |s|
    ensures forall u :: i <= u < j ==> s[u] in s[i..j]
  {
    forall u | i <= u < j ensures s[u] in s[i..j] {
      assert s[u] == s[i..j][u - i];
    }
  }

  /** When either run is used up, the whole range is sorted. */
  lemma MergeDone<T>(less: Less<T>, s: seq<T>, i: int, p: int, q: int, j: int)
    requires Merging(less, s, i, p, q, j) && (p == q || q == j)
    ensures SortedRange(less, s, i, j)
  {
    forall u, v | i <= u < v < j ensures !less(s[v], s[u]) {
      if v < p {
      } else if u < p {
      } else if q == j {
      } else {
      }
    }
  }

  ghost function Reversed<T>(s: seq<T>): (r: seq<T>)
    ensures |r| == |s| && forall i :: 0 <= i < |s| ==> r[i] == s[|s| - 1 - i]
  {
    seq(|s|, i requires 0 <= i < |s| => s[|s| - 1 - i])
  }

  /** A sentinel-delimited sequence without its two sentinels. */
  ghost function Interior<T>(s: seq<T>): (r: seq<T>)
    requires |s| >= 2
  {
    s[1..|s| - 1]
  }

  /** A whole merge step seen on the interior of a sentinel-delimited list. */
  lemma MergeStepIsStable<T>(less: Less<T>, s: seq<T>, i: int, p: int, q: int, j: int, t: seq<T>)
    requires Merging(less, s, i, p, q, j) && p < q < j
    requires 1 <= i && j < |s| && |s| >= 2 && StrictWeakOrder(less, Interior(s))
    requires less(s[q], s[p])
    requires t == s[..p] + [s[q]] + s[p..q] + s[q + 1..]
    ensures Merging(less, t, i, p + 1, q + 1, j)
    ensures t[..i] == s[..i] && t[j..] == s[j..]
    ensures StableRearrangement(less, Interior(s), Interior(t))
  {
    hide StrictWeakOrder, StableRearrangement, Merging, Interior;
    MergingBounds(less, s, i, p, q, j);
    InteriorOrder(less, s, i, j);
    MergeTakesRight(less, s, i, p, q, j, t);
    RotationEnds(s, i, p, q, j, t);
    InteriorRotated(s, p, q, t);
    var n := |s| - 1;
    MoveForward(less, s[1..p], s[p..q], s[q], s[q + 1..n]);
  }

  lemma MergingBounds<T>(less: Less<T>, s: seq<T>, i: int, p: int, q: int, j: int)
    requires Merging(less, s, i, p, q, j)
    ensures 0 <= i <= p <= q <= j <= |s|
  {
  }

  lemma RotationEnds<T>(s: seq<T>, i: int, p: int, q: int, j: int, t: seq<T>)
    requires 0 <= i <= p < q < j <= |s| && t == s[..p] + [s[q]] + s[p..q] + s[q + 1..]
    ensures |t| == |s| && t[..i] == s[..i] && t[j..] == s[j..]
  {
  }

  lemma InteriorRotated<T>(s: seq<T>, p: int, q: int, t: seq<T>)
    requires 1 <= p < q < |s| - 1 && t == s[..p] + [s[q]] + s[p..q] + s[q + 1..]
    ensures |t| == |s| && var n := |s| - 1;
      && Interior(s) == s[1..p] + s[p..q] + [s[q]] + s[q + 1..n]
      && Interior(t) == s[1..p] + [s[q]] + s[p..q] + s[q + 1..n]
  {
  }

  lemma InteriorOrder<T>(less: Less<T>, s: seq<T>, i: int, j: int)
    requires 1 <= i <= j < |s| && StrictWeakOrder(less, Interior(s))
    ensures StrictWeakOrder(less, s[i..j])
  {
    forall x | x in s[i..j] ensures x in Interior(s) {
      var k :| i <= k < j && s[k] == x;
      assert Interior(s)[k - 1] == x;
    }
    OrderTransfers(less, Interior(s), s[i..j]);
  }

  lemma StableKeepsOrder<T>(less: Less<T>, s: seq<T>, t: seq<T>)
    requires StrictWeakOrder(less, s) && StableRearrangement(less, s, t)
    ensures StrictWeakOrder(less, t)
  {
    SeqMembers(s, t);
    OrderTransfers(less, s, t);
  }

  lemma StableReflexive<T>(less: Less<T>, s: seq<T>)
    ensures StableRearrangement(less, s, s)
  {
  }

  /** Everything a merge of [i, j) maintains, relative to the list `s0` it started from. */
  ghost predicate MergeState<T>(less: Less<T>, s0: seq<T>, s: seq<T>, i: int, p: int, q: int, j: int)
  {
    && |s| == |s0| >= 2 && 1 <= i && j < |s|
    && Merging(less, s, i, p, q, j)
    && s[..i] == s0[..i] && s[j..] == s0[j..]
    && StrictWeakOrder(less, Interior(s0))
    && StableRearrangement(less, Interior(s0), Interior(s))
  }

  lemma MergeStateStarts<T>(less: Less<T>, s: seq<T>, i: int, m: int, j: int)
    requires |s| >= 2 && StrictWeakOrder(less, Interior(s)) && 1 <= i < m < j < |s|
    requires SortedRange(less, s, i, m) && SortedRange(less, s, m, j)
    ensures MergeState(less, s, s, i, i, m, j)
  {
    StableReflexive(less, Interior(s));
  }

  lemma MergeStateEnds<T>(less: Less<T>, s0: seq<T>, s: seq<T>, i: int, p: int, q: int, j: int)
    requires MergeState(less, s0, s, i, p, q, j) && (p == q || q == j)
    ensures |s| == |s0| >= 2 && 0 <= i <= j <= |s| && SortedRange(less, s, i, j)
    ensures s[..i] == s0[..i] && s[j..] == s0[j..]
    ensures StableRearrangement(less, Interior(s0), Interior(s))
  {
    MergeDone(less, s, i, p, q, j);
  }

  lemma MergeStateLeft<T>(less: Less<T>, s0: seq<T>, s: seq<T>, i: int, p: int, q: int, j: int)
    requires MergeState(less, s0, s, i, p, q, j) && p < q < j
    requires !less(s[q], s[p])
    ensures MergeState(less, s0, s, i, p + 1, q, j)
  {
    StableKeepsOrder(less, Interior(s0), Interior(s));
    InteriorOrder(less, s, i, j);
    MergeTakesLeft(less, s, i, p, q, j);
  }

  lemma MergeStateRight<T>(less: Less<T>, s0: seq<T>, s: seq<T>, i: int, p: int, q: int, j: int, t: seq<T>)
    requires MergeState(less, s0, s, i, p, q, j) && p < q < j
    requires less(s[q], s[p])
    requires t == s[..p] + [s[q]] + s[p..q] + s[q + 1..]
    ensures MergeState(less, s0, t, i, p + 1, q + 1, j)
    ensures t[p + 1] == s[p] && t[q + 1] == s[q + 1] && t[j] == s[j]
  {
    StableKeepsOrder(less, Interior(s0), Interior(s));
    MergeStepIsStable(less, s, i, p, q, j, t);
    StableTransitive(less, Interior(s0), Interior(s), Interior(t));
  }

  // ----- one pass of the natural merge sort -----

  /** Positions [1, k) hold `cnt` output runs; the rest is as it was. */
  ghost predicate PassState<T>(less: Less<T>, s0: seq<T>, s: seq<T>, k: int, cnt: int)
  {
    && |s| == |s0| >= 2 && 1 <= k < |s|
    && StrictWeakOrder(less, Interior(s0))
    && StableRearrangement(less, Interior(s0), Interior(s))
    && Runs(less, s[1..k]) <= cnt
    && 2 * cnt + Runs(less, s[k..|s| - 1]) == Runs(less, Interior(s0))
  }

  /** What a finished pass guarantees: about half as many runs as before. */
  ghost predicate PassDone<T>(less: Less<T>, s0: seq<T>, s: seq<T>, cnt: int)
  {
    && |s| == |s0| >= 2
    && StableRearrangement(less, Interior(s0), Interior(s))
    && Runs(less, Interior(s)) <= cnt
    && 2 * cnt <= Runs(less, Interior(s0)) + 1
  }

  lemma PassStarts<T>(less: Less<T>, s: seq<T>)
    requires |s| >= 2 && StrictWeakOrder(less, Interior(s))
    ensures PassState(less, s, s, 1, 0)
  {
    StableReflexive(less, Interior(s));
    assert s[1..1] == [] && s[1..|s| - 1] == Interior(s);
  }

  /** What the next two runs of a pass look like to the merge. */
  lemma PassOrder<T>(less: Less<T>, s0: seq<T>, s: seq<T>, k: int, cnt: int)
    requires PassState(less, s0, s, k, cnt)
    ensures 1 <= k < |s| == |s0| && StrictWeakOrder(less, Interior(s))
  {
    StableKeepsOrder(less, Interior(s0), Interior(s));
  }

  lemma RunIsSorted<T>(less: Less<T>, s: seq<T>, k: int, m: int)
    requires |s| >= 2 && 1 <= k < m < |s| && StrictWeakOrder(less, Interior(s))
    requires m - k == RunEnd(less, s[k..|s| - 1])
    ensures SortedRange(less, s, k, m)
    ensures Runs(less, s[k..|s| - 1]) == 1 + Runs(less, s[m..|s| - 1])
  {
    var u, e := s[k..|s| - 1], |s| - 1;
    RunsAfterFirst(less, u);
    assert u[m - k..] == s[m..e];
    InteriorOrder(less, s, k, m);
    var w := s[k..m];
    forall i | 1 <= i < |w| ensures !less(w[i], w[i - 1]) {
      assert w[i] == u[i] && w[i - 1] == u[i - 1];
    }
    NoDescentIsSorted(less, w);
    forall x, y | k <= x < y < m ensures !less(s[y], s[x]) {
      assert w[x - k] == s[x] && w[y - k] == s[y];
    }
  }

  /** The last, unpaired run of a pass. */
  lemma PassEndsOdd<T>(less: Less<T>, s0: seq<T>, s: seq<T>, k: int, cnt: int)
    requires PassState(less, s0, s, k, cnt) && k < |s| - 1
    requires |s| - 1 - k == RunEnd(less, s[k..|s| - 1])
    ensures PassDone(less, s0, s, cnt + 1)
  {
    hide StrictWeakOrder, StableRearrangement, SortedRange, Runs, RunEnd, Interior;
    StableKeepsOrder(less, Interior(s0), Interior(s));
    RunIsSorted(less, s, k, |s| - 1);
    RunsConcat(less, s[1..k], s[k..|s| - 1]);
    InteriorSplit(s, k);
    NoRuns(less, s[|s| - 1..|s| - 1]);
  }

  lemma InteriorSplit<T>(s: seq<T>, k: int)
    requires 1 <= k < |s|
    ensures Interior(s) == s[1..k] + s[k..|s| - 1]
  {
  }

  lemma NoRuns<T>(less: Less<T>, s: seq<T>)
    requires |s| == 0
    ensures Runs(less, s) == 0
  {
  }

  lemma PassEndsEven<T>(less: Less<T>, s0: seq<T>, s: seq<T>, cnt: int)
    requires PassState(less, s0, s, |s| - 1, cnt)
    ensures PassDone(less, s0, s, cnt)
  {
    assert s[1..|s| - 1] == Interior(s);
  }

  /** Two adjacent runs [k, m) and [m, j) merged into one. */
  lemma PassContinues<T>(less: Less<T>, s0: seq<T>, s: seq<T>, k: int, m: int, j: int, cnt: int, t: seq<T>)
    requires PassState(less, s0, s, k, cnt) && k < m < j < |s|
    requires m - k == RunEnd(less, s[k..|s| - 1])
    requires j - m == RunEnd(less, s[m..|s| - 1])
    requires |t| == |s| && SortedRange(less, t, k, j)
    requires t[..k] == s[..k] && t[j..] == s[j..]
    requires StableRearrangement(less, Interior(s), Interior(t))
    ensures PassState(less, s0, t, j, cnt + 1)
  {
    hide StrictWeakOrder, StableRearrangement, SortedRange, Runs, RunEnd;
    StableKeepsOrder(less, Interior(s0), Interior(s));
    StableTransitive(less, Interior(s0), Interior(s), Interior(t));
    RunIsSorted(less, s, k, m);
    RunIsSorted(less, s, m, j);
    assert t[j..|t| - 1] == t[j..][..|t| - 1 - j] == s[j..|s| - 1];
    OutputGrows(less, s, t, k, j);
  }

  lemma OutputGrows<T>(less: Less<T>, s: seq<T>, t: seq<T>, k: int, j: int)
    requires 1 <= k <= j < |s| == |t| && SortedRange(less, t, k, j) && t[..k] == s[..k]
    ensures Runs(less, t[1..j]) <= Runs(less, s[1..k]) + 1
  {
    hide Runs, SortedRange;
    assert t[1..k] == t[..k][1..k] == s[1..k];
    RangeIsOneRun(less, t, k, j);
    RunsConcat(less, t[1..k], t[k..j]);
    assert t[1..j] == t[1..k] + t[k..j];
  }

  lemma RangeIsOneRun<T>(less: Less<T>, t: seq<T>, k: int, j: int)
    requires 0 <= k <= j <= |t| && SortedRange(less, t, k, j)
    ensures Runs(less, t[k..j]) <= 1
  {
    forall x, y | 0 <= x < y < j - k ensures !less(t[k..j][y], t[k..j][x]) {
      assert !less(t[k + y], t[k + x]);
    }
    SortedIsOneRun(less, t[k..j]);
  }
}
