/**
 The kernel's doubly linked list with two sentinels (src/lib/kernel/list.c):
 pointer surgery proved against the sequence of nodes it represents.

 `nodes` is the ghost sequence from the head sentinel to the tail sentinel;
 `Interior(nodes)` is what C callers think of as the list.  C callers pass bare
 element pointers, so methods that take one also take its ghost position.
 */
module KernelList {
  import opened ListOrder
  import opened Sequences

  class Elem {
    var prev: Elem?
    var next: Elem?

    constructor ()
      ensures prev == null && next == null
    {
      prev, next := null, null;
    }
  }

  /** The same sentinels, with the nodes between them in reverse. */
  ghost function Backwards<T>(s: seq<T>): (r: seq<T>)
    requires |s| >= 2
  {
    var n := |s| - 1;
    seq(n + 1, i requires 0 <= i <= n => if i == 0 || i == n then s[i] else s[n - i])
  }

  lemma BackwardsNodes<T>(s: seq<T>)
    requires |s| >= 2 && Distinct(s)
    ensures Distinct(Backwards(s)) && Interior(Backwards(s)) == Reversed(Interior(s))
  {
    var n, r := |s| - 1, Backwards(s);
    forall i, j | 0 <= i < j <= n ensures r[i] != r[j] {
      var i', j' := if i == 0 then 0 else n - i, if j == n then n else n - j;
      assert r[i] == s[i'] && r[j] == s[j'] && i' != j';
    }
    var a, b := Interior(r), Reversed(Interior(s));
    assert |a| == |b| && forall k :: 0 <= k < |a| ==> a[k] == b[k];
  }

  /** A proper two-sentinel list: distinct nodes, each neighbouring pair linked
      both ways, and null beyond the sentinels. */
  ghost predicate Linked(nodes: seq<Elem>, repr: set<Elem>, head: Elem, tail: Elem)
    requires |nodes| >= 2
    reads repr
  {
    && nodes[0] == head && nodes[|nodes| - 1] == tail
    && (forall i :: 0 <= i < |nodes| ==> nodes[i] in repr)
    && Distinct(nodes)
    && (forall i {:trigger nodes[i].next} :: 0 <= i < |nodes| - 1 ==> nodes[i].next == nodes[i + 1])
    && (forall i {:trigger nodes[i].prev} :: 0 < i < |nodes| ==> nodes[i].prev == nodes[i - 1])
    && head.prev == null && tail.next == null
  }

  class List {
    const head: Elem
    const tail: Elem
    ghost var nodes: seq<Elem>
    ghost var repr: set<Elem>

    ghost predicate Valid()
      reads this, repr
    {
      |nodes| >= 2 && Linked(nodes, repr, head, tail)
    }

    constructor ()
      ensures Valid() && Interior(nodes) == [] && fresh(repr)
    {
      var h := new Elem();
      var t := new Elem();
      h.next := t;
      t.prev := h;
      head, tail := h, t;
      nodes, repr := [h, t], {h, t};
    }

    /** Inserts `elem` just before `before`, the node at position `k`. */
    method Insert(before: Elem, elem: Elem, ghost k: nat)
      requires Valid()
      requires 1 <= k < |nodes| && nodes[k] == before
      requires elem !in nodes
      modifies this, repr, elem
      ensures Valid() && repr == old(repr) + {elem}
      ensures nodes == old(nodes[..k]) + [elem] + old(nodes[k..])
    {
      ghost var ns := nodes;
      assert before.prev == ns[k - 1];
      elem.prev := before.prev;
      elem.next := before;
      before.prev.next := elem;
      before.prev := elem;
      nodes := ns[..k] + [elem] + ns[k..];
      repr := repr + {elem};
      DistinctInsert(ns, [elem], k);
      LinkedInsert(ns, [elem], k);
    }

    /** Unlinks the node at position `k` and returns its successor. */
    method Remove(elem: Elem, ghost k: nat) returns (after: Elem)
      requires Valid()
      requires 1 <= k < |nodes| - 1 && nodes[k] == elem
      modifies this, repr
      ensures Valid() && repr == old(repr)
      ensures nodes == old(nodes[..k]) + old(nodes[k + 1..])
      ensures after == nodes[k]
    {
      elem.prev.next := elem.next;
      elem.next.prev := elem.prev;
      after := elem.next;
      nodes := nodes[..k] + nodes[k + 1..];
    }

    /** The first half of list_splice: unlinks the nodes at positions [f, l). */
    method CutOut(first: Elem, lastIn: Elem, ghost f: nat, ghost l: nat)
      requires Valid()
      requires 1 <= f < l < |nodes| && nodes[f] == first && nodes[l - 1] == lastIn
      modifies this`nodes, repr
      ensures Valid()
      ensures nodes == old(nodes[..f]) + old(nodes[l..])
      ensures Chain(old(nodes[f..l]), repr)
      ensures Disjoint(nodes, old(nodes[f..l]))
    {
      ghost var seg := nodes[f..l];
      assert first.prev == nodes[f - 1] && lastIn.next == nodes[l];
      first.prev.next := lastIn.next;
      lastIn.next.prev := first.prev;
      nodes := nodes[..f] + nodes[l..];
      assert forall j :: 0 <= j < |seg| ==> seg[j] == old(nodes[j + f]);
      CutIsDisjoint(old(nodes), f, l);
    }

    /** The second half: links the chain `seg` in just before position `k`. */
    method PasteIn(before: Elem, first: Elem, lastIn: Elem, ghost seg: seq<Elem>, ghost k: nat)
      requires Valid()
      requires 1 <= k < |nodes| && nodes[k] == before
      requires Chain(seg, repr) && seg != [] && seg[0] == first && seg[|seg| - 1] == lastIn
      requires Disjoint(nodes, seg)
      modifies this`nodes, repr
      ensures Valid()
      ensures nodes == old(nodes[..k]) + seg + old(nodes[k..])
    {
      ghost var ns := nodes;
      var ahead := before.prev;
      assert ahead == ns[k - 1];
      first.prev := ahead;
      lastIn.next := before;
      ahead.next := first;
      before.prev := lastIn;
      nodes := ns[..k] + seg + ns[k..];
      DistinctInsert(ns, seg, k);
      DisjointAt(ns, seg);
      LinkedInsert(ns, seg, k);
    }

    /** Moves the nodes at positions [f, l) so that they come just before the node
        at position `b`, which may be the tail but none of the moved nodes. */
    method Splice(before: Elem, first: Elem, last: Elem, ghost b: nat, ghost f: nat, ghost l: nat)
      requires Valid()
      requires 1 <= f <= l < |nodes| && 1 <= b < |nodes| && (b < f || l <= b)
      requires nodes[b] == before && nodes[f] == first && nodes[l] == last
      modifies this`nodes, repr
      ensures Valid()
      ensures nodes == Spliced(old(nodes), b, f, l)
    {
      hide Linked, Disjoint, Chain;
      Positions(f, l);
      if first == last {
        return;
      }
      ghost var ns := nodes;
      var lastIn := last.prev;
      CutOut(first, lastIn, f, l);
      ghost var k := if b < f then b else b - (l - f);
      CutAndPaste(ns, b, f, l);
      PasteIn(before, first, lastIn, ns[f..l], k);
    }

    /** list_splice from another list: the nodes at its positions [f, l) leave it
        and come just before the node at position `b` of this one. */
    method SpliceFrom(other: List, before: Elem, first: Elem, last: Elem, ghost b: nat, ghost f: nat, ghost l: nat)
      requires Valid() && other != this && other.Valid() && repr !! other.repr
      requires 1 <= b < |nodes| && nodes[b] == before
      requires 1 <= f <= l < |other.nodes| && other.nodes[f] == first && other.nodes[l] == last
      modifies this, repr, other, other.repr
      ensures Valid() && other.Valid() && repr !! other.repr && repr + other.repr == old(repr) + old(other.repr)
      ensures nodes == old(nodes[..b]) + old(other.nodes[f..l]) + old(nodes[b..])
      ensures other.nodes == old(other.nodes[..f]) + old(other.nodes[l..])
    {
      hide Linked, Disjoint, Chain;
      other.Positions(f, l);
      if first == last {
        assert nodes == nodes[..b] + other.nodes[f..l] + nodes[b..];
        assert other.nodes == other.nodes[..f] + other.nodes[l..];
        return;
      }
      var lastIn := last.prev;
      ghost var seg := other.nodes[f..l];
      other.InRepr(f, l);
      other.CutOut(first, lastIn, f, l);
      ghost var moved := set x | x in seg;
      ChangesHands(nodes, repr, head, tail, other.nodes, other.repr, other.head, other.tail, seg, moved);
      repr, other.repr := repr + moved, other.repr - moved;
      PasteIn(before, first, lastIn, seg, b);
    }

    lemma InRepr(f: nat, l: nat)
      requires Valid() && 1 <= f <= l < |nodes|
      ensures forall x :: x in nodes[f..l] ==> x in repr
    {
    }

    lemma Ends(k: nat)
      requires Valid() && 1 <= k < |nodes|
      ensures head.next == nodes[1] && nodes[|nodes| - 1] == tail && (nodes[k] == tail <==> k == |nodes| - 1)
    {
    }

    lemma Positions(f: nat, l: nat)
      requires Valid() && 1 <= f <= l < |nodes|
      ensures (nodes[f] == nodes[l] <==> f == l) && nodes[l].prev == nodes[l - 1]
    {
    }

    /** Walks from position `i` to the end of the nondecreasing run that starts
        there, stopping at position `j` at the latest. */
    method FindEndOfRun(a0: Elem, b: Elem, less: Less<Elem>, ghost i: nat, ghost j: nat)
      returns (a: Elem, ghost k: nat)
      requires Valid()
      requires 1 <= i < j < |nodes| && nodes[i] == a0 && nodes[j] == b
      ensures i < k <= j && nodes[k] == a
      ensures k - i == RunEnd(less, nodes[i..j])
    {
      a, k := a0.next, i + 1;
      while a != b && !less(a, a.prev)
        invariant i < k <= j && nodes[k] == a
        invariant forall t :: i < t < k ==> !less(nodes[t], nodes[t - 1])
        decreases j - k
      {
        a, k := a.next, k + 1;
      }
      RunEndUnique(less, nodes[i..j], k - i);
    }

    /** The merge step that moves the node at position `q` in front of the one at
        position `p`; returns the node that followed it. */
    method MoveOne(a: Elem, a1b0: Elem, ghost p: nat, ghost q: nat) returns (c: Elem)
      requires Valid()
      requires 1 <= p < q < |nodes| - 1 && nodes[p] == a && nodes[q] == a1b0
      modifies this`nodes, repr
      ensures Valid()
      ensures nodes == old(nodes[..p]) + [old(nodes[q])] + old(nodes[p..q]) + old(nodes[q + 1..])
      ensures c == old(nodes[q + 1])
    {
      ghost var ns := nodes;
      c := a1b0.next;
      Splice(a, c.prev, c, p, q, q + 1);
      SplicedOne(ns, p, q);
    }

    /** Merges the sorted stretches [i, m) and [m, j) by moving nodes of the second
        in front of larger nodes of the first. */
    method InplaceMerge(a0: Elem, a1b0: Elem, b1: Elem, less: Less<Elem>, ghost i: nat, ghost m: nat, ghost j: nat)
      requires Valid() && StrictWeakOrder(less, Interior(nodes))
      requires 1 <= i < m < j < |nodes|
      requires nodes[i] == a0 && nodes[m] == a1b0 && nodes[j] == b1
      requires SortedRange(less, nodes, i, m) && SortedRange(less, nodes, m, j)
      modifies this`nodes, repr
      ensures Valid() && |nodes| == old(|nodes|)
      ensures SortedRange(less, nodes, i, j)
      ensures nodes[..i] == old(nodes[..i]) && nodes[j..] == old(nodes[j..])
      ensures StableRearrangement(less, Interior(old(nodes)), Interior(nodes))
    {
      hide StrictWeakOrder, StableRearrangement, SortedRange, Merging, MergeState;
      var a, c := a0, a1b0;
      ghost var p: int, q: int := i, m;
      ghost var s0 := nodes;
      MergeStateStarts(less, s0, i, m, j);
      while a != c && c != b1
        invariant Valid() && i <= p <= q <= j < |nodes|
        invariant MergeState(less, s0, nodes, i, p, q, j)
        invariant nodes[p] == a && nodes[q] == c && nodes[j] == b1
        decreases j - p
      {
        if !less(c, a) {
          MergeStateLeft(less, s0, nodes, i, p, q, j);
          a := a.next;
          p := p + 1;
        } else {
          ghost var ns := nodes;
          c := MoveOne(a, c, p, q);
          MergeStateRight(less, s0, ns, i, p, q, j, nodes);
          p, q := p + 1, q + 1;
        }
      }
      MergeStateEnds(less, s0, nodes, i, p, q, j);
    }

    /** One pass over the list: merges adjacent pairs of runs. */
    method SortPass(less: Less<Elem>) returns (outputRunCnt: nat)
      requires Valid() && StrictWeakOrder(less, Interior(nodes))
      modifies this`nodes, repr
      ensures Valid()
      ensures PassDone(less, old(nodes), nodes, outputRunCnt)
    {
      hide StrictWeakOrder, StableRearrangement, SortedRange, RunEnd, PassState, PassDone, Linked, Interior;
      Ends(1);
      outputRunCnt := 0;
      var a0 := head.next;
      ghost var k := 1;
      ghost var s0 := nodes;
      PassStarts(less, s0);
      while a0 != tail
        invariant Valid() && 1 <= k < |nodes| && nodes[k] == a0
        invariant PassState(less, s0, nodes, k, outputRunCnt)
        decreases |nodes| - k
      {
        PassOrder(less, s0, nodes, k, outputRunCnt);
        Ends(k);
        outputRunCnt := outputRunCnt + 1;
        var a1b0, m := FindEndOfRun(a0, tail, less, k, |nodes| - 1);
        Ends(m);
        if a1b0 == tail {
          PassEndsOdd(less, s0, nodes, k, outputRunCnt - 1);
          return;
        }
        a0, k := MergePair(a0, a1b0, less, k, m, s0, outputRunCnt - 1);
      }
      Ends(k);
      PassEndsEven(less, s0, nodes, outputRunCnt);
    }

    /** Finds the end of the second run and merges the two. */
    method MergePair(a0: Elem, a1b0: Elem, less: Less<Elem>, ghost k: nat, ghost m: nat, ghost s0: seq<Elem>,
                     ghost cnt: nat)
      returns (b1: Elem, ghost j: nat)
      requires Valid() && 1 <= k < m < |nodes| - 1 && nodes[k] == a0 && nodes[m] == a1b0
      requires m - k == RunEnd(less, nodes[k..|nodes| - 1]) && PassState(less, s0, nodes, k, cnt)
      modifies this`nodes, repr
      ensures Valid() && |nodes| == |old(nodes)| && m < j < |nodes| && nodes[j] == b1
      ensures PassState(less, s0, nodes, j, cnt + 1)
    {
      hide StrictWeakOrder, StableRearrangement, SortedRange, RunEnd, PassState, Linked, Interior;
      PassOrder(less, s0, nodes, k, cnt);
      Ends(k);
      ghost var s := nodes;
      b1, j := FindEndOfRun(a1b0, tail, less, m, |nodes| - 1);
      assert j - m == RunEnd(less, s[m..|s| - 1]);
      RunIsSorted(less, s, k, m);
      RunIsSorted(less, s, m, j);
      InplaceMerge(a0, a1b0, b1, less, k, m, j);
      PassContinues(less, s0, s, k, m, j, cnt, nodes);
      SuffixHead(nodes, s, j);
    }

    /** list_sort: passes until one run is left.  The list ends up holding the same
        nodes in the one stable sorted order. */
    method Sort(less: Less<Elem>)
      requires Valid() && StrictWeakOrder(less, Interior(nodes))
      modifies this`nodes, repr
      ensures Valid()
      ensures Interior(nodes) == StableSort(less, Interior(old(nodes)))
    {
      ghost var s0 := nodes;
      var outputRunCnt := SortPass(less);
      while outputRunCnt > 1
        invariant Valid() && |nodes| >= 2
        invariant StableRearrangement(less, Interior(s0), Interior(nodes))
        invariant Runs(less, Interior(nodes)) <= outputRunCnt
        decreases outputRunCnt
      {
        StableKeepsOrder(less, Interior(s0), Interior(nodes));
        ghost var s := nodes;
        outputRunCnt := SortPass(less);
        StableTransitive(less, Interior(s0), Interior(s), Interior(nodes));
      }
      StableKeepsOrder(less, Interior(s0), Interior(nodes));
      OneRunIsSorted(less, Interior(nodes));
      StableSortIsTheOne(less, Interior(s0), Interior(nodes));
    }

    /** list_reverse: swaps the two links of every node, then mends the ends. */
    method Reverse()
      requires Valid()
      modifies this`nodes, repr
      ensures Valid()
      ensures Interior(nodes) == Reversed(Interior(old(nodes)))
    {
      if head.next == tail {
        return;
      }
      ghost var s, n := nodes, |nodes| - 1;
      SwapLinks();
      head.next, tail.prev := tail.prev, head.next;
      head.next.prev, tail.prev.next := tail.prev.next, head.next.prev;
      assert forall i {:trigger s[i].next} :: 1 <= i < n ==> s[i].next == if i == 1 then s[n] else s[i - 1];
      assert forall i {:trigger s[i].prev} :: 1 <= i < n ==> s[i].prev == if i == n - 1 then s[0] else s[i + 1];
      BackwardsNodes(s);
      BackwardsLinked(s);
      hide Distinct, Interior, Reversed, Linked, Backwards;
      nodes := Backwards(s);
    }

    lemma BackwardsLinked(s: seq<Elem>)
      requires |s| > 2 && s[0] == head && s[|s| - 1] == tail && (forall i :: 0 <= i < |s| ==> s[i] in repr)
      requires Distinct(s)
      requires var n := |s| - 1;
        && head.next == s[n - 1] && tail.prev == s[1] && head.prev == null && tail.next == null
        && (forall i {:trigger s[i].next} :: 1 <= i < n ==> s[i].next == if i == 1 then s[n] else s[i - 1])
        && (forall i {:trigger s[i].prev} :: 1 <= i < n ==> s[i].prev == if i == n - 1 then s[0] else s[i + 1])
      ensures Linked(Backwards(s), repr, head, tail)
    {
      BackwardsNodes(s);
      hide Distinct, Interior, Reversed;
      var n, r := |s| - 1, Backwards(s);
      forall i {:trigger r[i].next} | 0 <= i < n ensures r[i].next == r[i + 1] {
        assert i > 0 ==> r[i] == s[n - i];
      }
      forall i {:trigger r[i].prev} | 0 < i <= n ensures r[i].prev == r[i - 1] {
        assert i < n ==> r[i] == s[n - i];
      }
    }

    /** The loop of list_reverse. */
    method SwapLinks()
      requires Valid() && |nodes| > 2
      modifies repr
      ensures forall i {:trigger nodes[i].next} :: 1 <= i < |nodes| - 1 ==> nodes[i].next == nodes[i - 1]
      ensures forall i {:trigger nodes[i].prev} :: 1 <= i < |nodes| - 1 ==> nodes[i].prev == nodes[i + 1]
      ensures head.next == nodes[1] && head.prev == null && tail.next == null && tail.prev == nodes[|nodes| - 2]
    {
      ghost var s, n := nodes, |nodes| - 1;
      var e := head.next;
      ghost var k := 1;
      while e != tail
        invariant 1 <= k <= n && s[k] == e
        invariant forall i {:trigger s[i].next} :: 1 <= i < k ==> s[i].next == s[i - 1]
        invariant forall i {:trigger s[i].prev} :: 1 <= i < k ==> s[i].prev == s[i + 1]
        invariant forall i {:trigger s[i].next} :: k <= i < n ==> s[i].next == s[i + 1]
        invariant forall i {:trigger s[i].prev} :: k <= i <= n ==> s[i].prev == old(s[i].prev)
        invariant s[0].next == s[1] && s[0].prev == null && s[n].next == null
        decreases n - k
      {
        e.prev, e.next := e.next, e.prev;
        e, k := e.prev, k + 1;
      }
    }

    /** list_insert_ordered: after every element that is not greater. */
    method InsertOrdered(elem: Elem, less: Less<Elem>)
      requires Valid() && elem !in nodes
      modifies this, repr, elem
      ensures Valid() && repr == old(repr) + {elem}
      ensures Interior(nodes) == ListOrder.InsertOrdered(less, Interior(old(nodes)), elem)
    {
      var e := head.next;
      ghost var k := 1;
      ghost var s := nodes;
      while e != tail && !less(elem, e)
        invariant 1 <= k < |nodes| && nodes[k] == e
        invariant forall i :: 1 <= i < k ==> !less(elem, nodes[i])
        decreases |nodes| - k
      {
        e, k := e.next, k + 1;
      }
      hide Linked;
      InsertPosUnique(less, Interior(s), elem, k - 1);
      Insert(e, elem, k);
      InteriorInsert(s, elem, k);
    }
  }

  lemma SplicedOne<T>(s: seq<T>, p: nat, q: nat)
    requires p <= q < |s|
    ensures Spliced(s, p, q, q + 1) == s[..p] + [s[q]] + s[p..q] + s[q + 1..]
  {
    assert s[q..q + 1] == [s[q]];
  }

  lemma SuffixHead<T>(s: seq<T>, t: seq<T>, j: nat)
    requires j < |s| == |t| && s[j..] == t[j..]
    ensures s[j] == t[j]
  {
    assert s[j..][0] == t[j..][0];
  }

  lemma InteriorInsert<T>(s: seq<T>, x: T, k: nat)
    requires 1 <= k < |s|
    ensures Interior(s[..k] + [x] + s[k..]) == Interior(s)[..k - 1] + [x] + Interior(s)[k - 1..]
  {
    assert Interior(s)[..k - 1] == s[1..k];
    assert Interior(s)[k - 1..] == s[k..|s| - 1];
  }

  lemma CutIsDisjoint<T>(s: seq<T>, f: nat, l: nat)
    requires f <= l <= |s| && Distinct(s)
    ensures Disjoint(s[..f] + s[l..], s[f..l]) && Distinct(s[f..l]) && Distinct(s[..f] + s[l..])
  {
  }

  lemma CutAndPaste<T>(s: seq<T>, b: nat, f: nat, l: nat)
    requires f < l <= |s| && b < |s| && (b < f || l <= b)
    ensures var k := if b < f then b else b - (l - f);
      var cut := s[..f] + s[l..];
      && k < |cut| && cut[k] == s[b]
      && cut[..k] + s[f..l] + cut[k..] == Spliced(s, b, f, l)
  {
    var cut := s[..f] + s[l..];
    if b < f {
      assert cut[..b] == s[..b];
      assert cut[b..] == s[b..f] + s[l..];
    } else {
      var k := b - (l - f);
      assert cut[..k] == s[..f] + s[l..b];
      assert cut[k..] == s[b..];
    }
  }

  lemma DistinctInsert<T>(s: seq<T>, seg: seq<T>, k: nat)
    requires k <= |s| && Distinct(s) && Distinct(seg)
    requires Disjoint(s, seg)
    ensures Distinct(s[..k] + seg + s[k..])
  {
    DisjointAt(s, seg);
  }

  /** Two linked stretches stay linked when one is threaded into the other. */
  lemma LinkedInsert(s: seq<Elem>, seg: seq<Elem>, k: nat)
    requires 1 <= k < |s| && seg != []
    requires forall i {:trigger s[i].next} :: 0 <= i < |s| - 1 && i != k - 1 ==> s[i].next == s[i + 1]
    requires forall i {:trigger s[i].prev} :: 0 < i < |s| && i != k ==> s[i].prev == s[i - 1]
    requires forall i {:trigger seg[i].next} :: 0 <= i < |seg| - 1 ==> seg[i].next == seg[i + 1]
    requires forall i {:trigger seg[i].prev} :: 0 < i < |seg| ==> seg[i].prev == seg[i - 1]
    requires s[k - 1].next == seg[0] && seg[0].prev == s[k - 1]
    requires seg[|seg| - 1].next == s[k] && s[k].prev == seg[|seg| - 1]
    ensures var r := s[..k] + seg + s[k..];
      && (forall i {:trigger r[i].next} :: 0 <= i < |r| - 1 ==> r[i].next == r[i + 1])
      && (forall i {:trigger r[i].prev} :: 0 < i < |r| ==> r[i].prev == r[i - 1])
  {
    var r := s[..k] + seg + s[k..];
    var n := |seg|;
    forall i | 0 <= i < |r| - 1
      ensures r[i].next == r[i + 1] && r[i + 1].prev == r[i]
    {
      if i < k - 1 {
        assert r[i] == s[i] && r[i + 1] == s[i + 1];
      } else if i == k - 1 {
      } else if i < k + n - 1 {
        assert r[i] == seg[i - k] && r[i + 1] == seg[i - k + 1];
      } else if i == k + n - 1 {
      } else {
        assert r[i] == s[i - n] && r[i + 1] == s[i - n + 1];
      }
    }
    forall i | 0 < i < |r| ensures r[i].prev == r[i - 1] {
      assert r[i - 1].next == r[i - 1 + 1];
    }
  }

  /** A stretch of nodes linked both ways among themselves. */
  ghost predicate Chain(s: seq<Elem>, repr: set<Elem>)
    reads repr
  {
    && (forall i :: 0 <= i < |s| ==> s[i] in repr)
    && Distinct(s)
    && (forall i {:trigger s[i].next} :: 0 <= i < |s| - 1 ==> s[i].next == s[i + 1])
    && (forall i {:trigger s[i].prev} :: 0 < i < |s| ==> s[i].prev == s[i - 1])
  }

  ghost function Spliced<T>(s: seq<T>, b: nat, f: nat, l: nat): (r: seq<T>)
    requires f <= l <= |s| && b <= |s| && (b <= f || l <= b)
    ensures |r| == |s|
  {
    if b <= f then s[..b] + s[f..l] + s[b..f] + s[l..]
    else s[..f] + s[l..b] + s[f..l] + s[b..]
  }

  /** Nodes unlinked from one list may be handed over to another. */
  lemma ChangesHands(nodes: seq<Elem>, repr: set<Elem>, head: Elem, tail: Elem,
                     other: seq<Elem>, otherRepr: set<Elem>, otherHead: Elem, otherTail: Elem, seg: seq<Elem>,
                     moved: set<Elem>)
    requires |nodes| >= 2 && Linked(nodes, repr, head, tail) && |other| >= 2
    requires Linked(other, otherRepr, otherHead, otherTail)
    requires Chain(seg, otherRepr) && Disjoint(other, seg) && repr !! otherRepr && moved == set x | x in seg
    ensures Linked(nodes, repr + moved, head, tail) && Linked(other, otherRepr - moved, otherHead, otherTail)
    ensures Chain(seg, repr + moved) && Disjoint(nodes, seg)
  {
  }
}
