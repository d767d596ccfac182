/**
 What allocating sectors for a file leaves behind (src/filesys/inode.c,
 allocate_inode_disk; src/filesys/free-map.c): values before and after, and how
 one call composes with the call it makes for the next node.
 */
module Allocation {
  import opened Bitmaps
  import opened Storage
  import opened Sequences
  import opened Inodes

  // ----- the free map -----

  lemma DistinctConcat(a: seq<nat>, b: seq<nat>)
    requires Distinct(a) && Distinct(b) && Disjoint(a, b)
    ensures Distinct(a + b)
  {
    var c := a + b;
    forall i, j | 0 <= i < j < |c| ensures c[i] != c[j] {
      if i < |a| <= j {
        assert a[i] in a && b[j - |a|] in b;
      }
    }
  }

  lemma DistinctParts(a: seq<nat>, b: seq<nat>)
    requires Distinct(a + b)
    ensures Distinct(a) && Distinct(b) && Disjoint(a, b)
  {
    var c := a + b;
    assert forall i :: 0 <= i < |a| ==> c[i] == a[i];
    assert forall j :: 0 <= j < |b| ==> c[|a| + j] == b[j];
    forall i, j | 0 <= i < |a| && 0 <= j < |b| ensures a[i] != b[j] {
      assert c[i] != c[|a| + j];
    }
    forall i, j | 0 <= i < j < |b| ensures b[i] != b[j] {
      assert c[|a| + i] != c[|a| + j];
    }
  }

  /** `used'` marks exactly `taken` besides, all of it free and distinct before. */
  ghost predicate Taken(used: seq<bool>, used': seq<bool>, taken: seq<nat>)
  {
    && |used'| == |used| && Distinct(taken)
    && (forall s :: s in taken ==> s < |used| && !used[s])
    && (forall s :: 0 <= s < |used| ==> used'[s] == (used[s] || s in taken))
  }

  lemma TakenOne(used: seq<bool>, s: nat)
    requires s < |used| && !used[s]
    ensures Taken(used, used[s := true], [s])
  {
  }

  lemma TakenMore(u: seq<bool>, u': seq<bool>, u'': seq<bool>, a: seq<nat>, b: seq<nat>)
    requires Taken(u, u', a) && Taken(u', u'', b)
    ensures Taken(u, u'', a + b) && Disjoint(a, b)
  {
    DistinctConcat(a, b);
  }

  /** Only which sectors are taken matters, not the order they are listed in. */
  lemma TakenReordered(u: seq<bool>, u': seq<bool>, a: seq<nat>, b: seq<nat>)
    requires Taken(u, u', a) && Distinct(b) && forall s :: s in a <==> s in b
    ensures Taken(u, u', b)
  {
  }

  /** Every sector taken is below every free one that is left. */
  ghost predicate Lowest(used: seq<bool>, taken: seq<nat>)
  {
    forall x, s :: x in taken && 0 <= s < |used| && !used[s] && s !in taken ==> x < s
  }

  ghost predicate Ascending(s: seq<nat>)
  {
    forall i, j :: 0 <= i < j < |s| ==> s[i] < s[j]
  }

  ghost predicate AllBelow(a: seq<nat>, b: seq<nat>)
  {
    forall x, y :: x in a && y in b ==> x < y
  }

  /** The lowest free sectors are taken, data in ascending order. */
  ghost predicate FirstFit(used: seq<bool>, nn: seq<nat>, dd: seq<nat>)
  {
    Lowest(used, nn + dd) && Ascending(dd)
  }

  lemma LowestOne(used: seq<bool>, s: nat)
    requires Scan(used, 0, 1, false) == Some(s)
    ensures Lowest(used, [s])
  {
    forall x | 0 <= x < |used| && !used[x] && x != s ensures s < x {
      assert Group(used, x, 1, false);
    }
  }

  lemma LowestMore(u: seq<bool>, u': seq<bool>, u'': seq<bool>, a: seq<nat>, b: seq<nat>)
    requires Taken(u, u', a) && Taken(u', u'', b) && Lowest(u, a) && Lowest(u', b)
    ensures Lowest(u, a + b) && AllBelow(a, b)
  {
  }

  lemma AscendingMore(a: seq<nat>, b: seq<nat>)
    requires Ascending(a) && Ascending(b) && AllBelow(a, b)
    ensures Ascending(a + b)
  {
    var c := a + b;
    forall i, j | 0 <= i < j < |c| ensures c[i] < c[j] {
      if i < |a| <= j {
        assert a[i] in a && b[j - |a|] in b;
      }
    }
  }

  lemma LowestReordered(u: seq<bool>, a: seq<nat>, b: seq<nat>)
    requires Lowest(u, a) && forall s :: s in a <==> s in b
    ensures Lowest(u, b)
  {
  }

  /** A full node, the next node, and what is allocated from there. */
  lemma FirstFitStep(u0: seq<bool>, u1: seq<bool>, u: seq<bool>, next: nat, dd1: seq<nat>, nn2: seq<nat>, dd2: seq<nat>)
    requires Taken(u0, u1, dd1) && FirstFit(u0, [], dd1) && next < |u1| && !u1[next] && Lowest(u1, [next])
    requires Taken(u1[next := true], u, nn2 + dd2) && FirstFit(u1[next := true], nn2, dd2)
    ensures FirstFit(u0, [next] + nn2, dd1 + dd2)
  {
    hide Taken, Lowest, Ascending, AllBelow;
    assert [] + dd1 == dd1;
    TakenOne(u1, next);
    LowestMore(u0, u1, u1[next := true], dd1, [next]);
    TakenMore(u0, u1, u1[next := true], dd1, [next]);
    LowestMore(u0, u1[next := true], u, dd1 + [next], nn2 + dd2);
    Rearranged(u0, next, dd1, nn2, dd2);
    AscendingMore(dd1, dd2);
  }

  lemma Rearranged(u: seq<bool>, next: nat, dd1: seq<nat>, nn2: seq<nat>, dd2: seq<nat>)
    requires Lowest(u, dd1 + [next] + (nn2 + dd2)) && AllBelow(dd1 + [next], nn2 + dd2)
    ensures Lowest(u, [next] + nn2 + (dd1 + dd2)) && AllBelow(dd1, dd2)
  {
    var a, b := dd1 + [next] + (nn2 + dd2), [next] + nn2 + (dd1 + dd2);
    assert forall s :: s in a <==> s == next || s in dd1 || s in nn2 || s in dd2;
    assert forall s :: s in b <==> s == next || s in dd1 || s in nn2 || s in dd2;
    LowestReordered(u, a, b);
    hide Lowest;
    forall x, y | x in dd1 && y in dd2 ensures x < y {
      assert x in dd1 + [next] && y in nn2 + dd2;
    }
  }

  function Free(used: seq<bool>): nat
  {
    Count(used, false)
  }

  lemma {:induction false} FreeAfterOne(used: seq<bool>, s: nat)
    requires s < |used| && !used[s]
    ensures Free(used[s := true]) + 1 == Free(used)
  {
    var n := |used| - 1;
    if s < n {
      FreeAfterOne(used[..n], s);
      assert used[s := true][..n] == used[..n][s := true];
    } else {
      assert used[s := true][..n] == used[..n];
    }
  }

  /** As many sectors fewer are free as are taken. */
  lemma {:induction false} FreeAfter(u: seq<bool>, u': seq<bool>, taken: seq<nat>)
    requires Taken(u, u', taken)
    ensures Free(u') + |taken| == Free(u)
    decreases |taken|
  {
    if taken == [] {
      assert u' == u;
    } else {
      var s, rest := taken[0], taken[1..];
      assert taken == [s] + rest;
      DistinctParts([s], rest);
      assert s in [s] && s in taken;
      assert forall x :: x in taken <==> x == s || x in rest;
      FreeAfterOne(u, s);
      FreeAfter(u[s := true], u', rest);
    }
  }

  lemma {:induction false} SomeFree(used: seq<bool>) returns (s: nat)
    requires Free(used) > 0
    ensures s < |used| && !used[s]
  {
    var n := |used| - 1;
    if used[n] {
      s := SomeFree(used[..n]);
    } else {
      s := n;
    }
  }

  // ----- nodes -----

  /** Entries `start..` of a node name `dd`. */
  ghost predicate Entries(b: Sector, start: nat, dd: seq<nat>)
  {
    |b| == SECTOR_SIZE && start + |dd| <= DIRECT_NO && forall j :: 0 <= j < |dd| ==> Direct(b, start + j) == dd[j]
  }

  /** The nodes from `h` on: `nn` follow it, and from entry `start` of the
      first one on they name `dd`, filling each node before the next. */
  ghost predicate Chain(d: seq<Sector>, h: nat, nn: seq<nat>, start: nat, dd: seq<nat>)
    requires Disk(d)
    decreases |nn|
  {
    h < |d| && Self(d[h]) == h && start <= DIRECT_NO &&
    if start + |dd| <= DIRECT_NO then
      nn == [] && Entries(d[h], start, dd)
    else
      nn != [] && Entries(d[h], start, dd[..DIRECT_NO - start]) && Link(d[h]) == nn[0] &&
      Chain(d, nn[0], nn[1..], 0, dd[DIRECT_NO - start..])
  }

  function Last(h: nat, nn: seq<nat>): nat
  {
    if nn == [] then h else nn[|nn| - 1]
  }

  /** Outside `h` and `nn` only `dd` changed, and that is all zero bytes. */
  ghost predicate Zeroed(d0: seq<Sector>, d: seq<Sector>, h: nat, nn: seq<nat>, dd: seq<nat>)
  {
    && |d| == |d0|
    && (forall s :: 0 <= s < |d| && s != h && s !in nn && s !in dd ==> d[s] == d0[s])
    && (forall s :: s in dd ==> s < |d| && d[s] == Zeros())
  }

  /** What one allocation did to the node it started from. */
  ghost predicate HeadSet(b0: Sector, b: Sector, start: nat, length: nat)
  {
    && |b0| == |b| == SECTOR_SIZE && Length(b) == length
    && forall i :: 0 <= i < start && i < DIRECT_NO ==> Direct(b, i) == Direct(b0, i)
  }

  /** The words that every node of an allocation gets besides its entries and its link. */
  ghost predicate Stamped(b: Sector, length: nat, info: Word)
  {
    |b| == SECTOR_SIZE && Length(b) == length && Info(b) == info && Magic(b) == 0x494e_4f44
  }

  ghost predicate AllStamped(d: seq<Sector>, nodes: seq<nat>, length: nat, info: Word)
  {
    forall s :: s in nodes ==> s < |d| && Stamped(d[s], length, info)
  }

  /** The nodes of a file of kind `info` say so, and have the magic number. */
  ghost predicate Marked(d: seq<Sector>, nodes: seq<nat>, info: Word)
  {
    forall s :: s in nodes ==> s < |d| && |d[s]| == SECTOR_SIZE && Info(d[s]) == info && Magic(d[s]) == 0x494e_4f44
  }

  /** From entry `e` on a node names what it named before. */
  ghost predicate EntriesKept(b0: Sector, b: Sector, e: int)
    requires |b0| == |b| == SECTOR_SIZE
  {
    forall i :: 0 <= i < DIRECT_NO && e <= i ==> Direct(b, i) == Direct(b0, i)
  }

  /** The effect of allocate_inode_disk: `nn` new nodes and `dd` new data
      sectors.  The link of the last node, and its entries after the new ones,
      are whatever its sector held. */
  ghost predicate Grown(d0: seq<Sector>, u0: seq<bool>, d: seq<Sector>, u: seq<bool>,
                        h: nat, start: nat, length: nat, nn: seq<nat>, dd: seq<nat>)
  {
    && Disk(d0) && Disk(d) && Taken(u0, u, nn + dd) && h < |d0| == |u0| && u0[h]
    && Zeroed(d0, d, h, nn, dd) && Chain(d, h, nn, start, dd) && HeadSet(d0[h], d[h], start, length)
    && Last(h, nn) < |d| && Link(d[Last(h, nn)]) == Link(d0[Last(h, nn)])
    && EntriesKept(d0[Last(h, nn)], d[Last(h, nn)], start + |dd| - DIRECT_NO * |nn|)
  }

  lemma {:induction false} ChainLength(d: seq<Sector>, h: nat, nn: seq<nat>, start: nat, dd: seq<nat>)
    requires Disk(d) && Chain(d, h, nn, start, dd)
    ensures |nn| == ExtraNodes(start + |dd|)
    decreases |nn|
  {
    if start + |dd| > DIRECT_NO {
      ChainLength(d, nn[0], nn[1..], 0, dd[DIRECT_NO - start..]);
      ExtraNodesNext(start + |dd|);
    }
  }

  /** A full first node, then the allocation for the next one. */
  lemma GrownStep(d0: seq<Sector>, u0: seq<bool>, d1: seq<Sector>, u1: seq<bool>, d2: seq<Sector>, u2: seq<bool>,
                  d: seq<Sector>, u: seq<bool>, h: nat, start: nat, length: nat, dd1: seq<nat>, next: nat,
                  nn2: seq<nat>, dd2: seq<nat>)
    requires Disk(d0) && h < |d0| == |u0| && u0[h]
    requires Taken(u0, u1, dd1) && Zeroed(d0, d1, h, [], dd1) && d1[h] == d0[h]
    requires next < |u1| && !u1[next] && u2 == u1[next := true] && Disk(d2)
    requires |d2| == |d1| && d2 == d1[h := d2[h]]
    requires start + |dd1| == DIRECT_NO && Entries(d2[h], start, dd1) && Self(d2[h]) == h && Link(d2[h]) == next
    requires HeadSet(d0[h], d2[h], start, length)
    requires dd2 != [] && Grown(d2, u2, d, u, next, 0, length, nn2, dd2)
    ensures Grown(d0, u0, d, u, h, start, length, [next] + nn2, dd1 + dd2)
  {
    GrownTaken(u0, u1, u, next, dd1, nn2, dd2);
    GrownZeroed(d0, d1, d2, d, u0, u1, u, h, next, dd1, nn2, dd2);
    var nn, dd := [next] + nn2, dd1 + dd2;
    assert h !in nn && h !in dd;
    assert d[h] == d2[h];
    assert dd[..DIRECT_NO - start] == dd1 && dd[DIRECT_NO - start..] == dd2 && nn[1..] == nn2;
    assert Chain(d, h, nn, start, dd);
    assert Last(h, nn) == Last(next, nn2);
    assert d2[Last(h, nn)] == d0[Last(h, nn)];
  }

  /** The whole allocation fits the first node. */
  lemma GrownLast(d0: seq<Sector>, u0: seq<bool>, d1: seq<Sector>, u: seq<bool>, h: nat, start: nat, length: nat,
                  info: Word, dd: seq<nat>, w: seq<Word>)
    requires Disk(d0) && Disk(d1) && h < |d0| == |u0| && u0[h] && Taken(u0, u, dd) && Zeroed(d0, d1, h, [], dd)
    requires d1[h] == d0[h]
    requires Filled(ToWords(d0[h]), w, h, start, length, info, dd)
    ensures Grown(d0, u0, d1[h := ToBytes(w)], u, h, start, length, [], dd) && Stamped(ToBytes(w), length, info)
  {
    FilledNode(d0[h], w, h, start, length, info, dd, w[126]);
    assert w[126 := w[126]] == w;
    assert [] + dd == dd;
    assert h !in dd;
  }

  lemma ExtraNodesNext(t: nat)
    requires t > DIRECT_NO
    ensures ExtraNodes(t) == 1 + ExtraNodes(t - DIRECT_NO)
  {
    assert t - 1 == DIRECT_NO + (t - DIRECT_NO - 1);
  }

  lemma GrownTaken(u0: seq<bool>, u1: seq<bool>, u: seq<bool>, next: nat, dd1: seq<nat>, nn2: seq<nat>, dd2: seq<nat>)
    requires Taken(u0, u1, dd1) && next < |u1| && !u1[next] && Taken(u1[next := true], u, nn2 + dd2)
    ensures Taken(u0, u, [next] + nn2 + (dd1 + dd2))
    ensures next !in dd1 && next !in nn2 && next !in dd2 && Disjoint(dd1, nn2) && Disjoint(dd1, dd2)
    ensures Disjoint(nn2, dd2)
  {
    TakenOne(u1, next);
    TakenMore(u0, u1, u1[next := true], dd1, [next]);
    TakenMore(u0, u1[next := true], u, dd1 + [next], nn2 + dd2);
    DistinctParts(nn2, dd2);
    var a, b := dd1 + [next] + (nn2 + dd2), [next] + nn2 + (dd1 + dd2);
    assert forall s :: s in a <==> s == next || s in dd1 || s in nn2 || s in dd2;
    assert forall s :: s in b <==> s == next || s in dd1 || s in nn2 || s in dd2;
    assert next in dd1 + [next];
    assert forall s :: s in dd1 ==> s in dd1 + [next];
    assert forall s :: s in nn2 || s in dd2 ==> s in nn2 + dd2;
    DistinctConcat([next], nn2);
    DistinctConcat(dd1, dd2);
    DistinctConcat([next] + nn2, dd1 + dd2);
    TakenReordered(u0, u, a, b);
  }

  lemma GrownZeroed(d0: seq<Sector>, d1: seq<Sector>, d2: seq<Sector>, d: seq<Sector>, u0: seq<bool>, u1: seq<bool>,
                    u: seq<bool>,
                    h: nat, next: nat, dd1: seq<nat>, nn2: seq<nat>, dd2: seq<nat>)
    requires h < |d0| == |u0| && u0[h] && Taken(u0, u1, dd1) && next < |u1| && !u1[next]
    requires Taken(u1[next := true], u, nn2 + dd2)
    requires Zeroed(d0, d1, h, [], dd1) && |d2| == |d1| && d2 == d1[h := d2[h]] && Zeroed(d2, d, next, nn2, dd2)
    ensures Zeroed(d0, d, h, [next] + nn2, dd1 + dd2) && h !in [next] + nn2 && h !in dd1 + dd2
    ensures d[h] == d2[h] && forall s :: s in [next] + nn2 ==> s < |d2| && d2[s] == d0[s]
  {
    GrownTaken(u0, u1, u, next, dd1, nn2, dd2);
    assert forall s :: s in nn2 || s in dd2 ==> s in nn2 + dd2;
    assert h != next && h !in nn2 && h !in dd2 && h !in dd1;
    forall s | s in dd1 + dd2 ensures s < |d| && d[s] == Zeros() {
      if s in dd1 {
        assert s != next && s !in nn2 && s !in dd2;
      }
    }
  }

  // ----- one node in memory -----

  /** What allocating into a node from entry `start` on sets, and what it leaves as it was. */
  ghost predicate Filled(w0: seq<Word>, w: seq<Word>, h: nat, start: nat, length: nat, info: Word, dd: seq<nat>)
  {
    && |w0| == |w| == 128 && start + |dd| <= DIRECT_NO
    && w[0] == h && w[1] == info && w[2] == length && w[126] == w0[126] && w[127] == 0x494e_4f44
    && (forall k :: 3 <= k < 3 + start ==> w[k] == w0[k])
    && (forall k :: 3 + start + |dd| <= k < 126 ==> w[k] == w0[k])
    && (forall j :: 0 <= j < |dd| ==> w[3 + start + j] == dd[j])
  }

  lemma FilledMore(w0: seq<Word>, w: seq<Word>, h: nat, start: nat, length: nat, info: Word, dd: seq<nat>, s: Word)
    requires Filled(w0, w, h, start, length, info, dd) && start + |dd| < DIRECT_NO
    ensures Filled(w0, w[3 + start + |dd| := s], h, start, length, info, dd + [s])
  {
  }

  lemma FilledNothing(b: Sector, h: nat, start: nat, length: Word, info: Word)
    requires |b| == SECTOR_SIZE && start <= DIRECT_NO && h < 0x8000_0000
    ensures Filled(ToWords(b), ToWords(b)[2 := length][0 := h][1 := info][127 := INODE_MAGIC], h, start, length, info, [])
  {
  }

  /** The fields of a node, read from the sector it was written to. */
  lemma NodeFields(w: seq<Word>)
    requires |w| == 128
    ensures var b := ToBytes(w); Self(b) == w[0] && Length(b) == w[2] && Link(b) == w[126]
    ensures var b := ToBytes(w); Info(b) == w[1] && Magic(b) == w[127]
    ensures var b := ToBytes(w); forall i :: 0 <= i < DIRECT_NO ==> Direct(b, i) == w[3 + i]
  {
    WordRoundTrip(w, 0);
    WordRoundTrip(w, 1);
    WordRoundTrip(w, 2);
    WordRoundTrip(w, 126);
    WordRoundTrip(w, 127);
    forall i | 0 <= i < DIRECT_NO ensures Direct(ToBytes(w), i) == w[3 + i] {
      WordRoundTrip(w, 3 + i);
    }
  }

  /** The fields of a node with its length or its link changed. */
  lemma WordSet(b: Sector, i: nat, x: Word)
    requires |b| == SECTOR_SIZE && (i == 2 || i == 126)
    ensures var b' := WithWord(b, i, x);
      && Self(b') == Self(b) && (forall k :: 0 <= k < DIRECT_NO ==> Direct(b', k) == Direct(b, k))
      && Length(b') == (if i == 2 then x else Length(b)) && Link(b') == (if i == 126 then x else Link(b))
      && Info(b') == Info(b) && Magic(b') == Magic(b)
  {
    NodeFields(ToWords(b)[i := x]);
  }

  lemma FilledNode(b0: Sector, w: seq<Word>, h: nat, start: nat, length: nat, info: Word, dd: seq<nat>, link: Word)
    requires |b0| == SECTOR_SIZE && Filled(ToWords(b0), w, h, start, length, info, dd)
    ensures var b := ToBytes(w[126 := link]);
      && Entries(b, start, dd) && Self(b) == h && Length(b) == length && Link(b) == link
      && HeadSet(b0, b, start, length) && EntriesKept(b0, b, start + |dd|) && Stamped(b, length, info)
  {
    NodeFields(w[126 := link]);
    hide ToBytes;
  }

  // ----- chains and files -----

  /** The recursive and the indexed description of a file's nodes agree. */
  lemma {:induction false} ChainIsLinked(d: seq<Sector>, h: nat, nn: seq<nat>, dd: seq<nat>, length: nat)
    requires Disk(d) && (forall s :: s in dd ==> s < |d|)
    ensures Chain(d, h, nn, 0, dd) <==> Linked(d, File([h] + nn, dd, length))
    decreases |dd|
  {
    if |dd| <= DIRECT_NO {
      OneNode(d, h, nn, dd, length);
    } else if nn != [] {
      var rest := dd[DIRECT_NO..];
      assert forall s :: s in rest ==> s in dd;
      ChainIsLinked(d, nn[0], nn[1..], rest, length);
      assert [nn[0]] + nn[1..] == nn;
      if Linked(d, File(nn, rest, length)) && Chain(d, h, nn, 0, dd) {
        LinkedCons(d, h, nn, dd, length);
      }
      if Linked(d, File([h] + nn, dd, length)) {
        LinkedHead(d, h, nn, dd, length);
        LinkedTail(d, h, nn, dd, length);
      }
    } else {
      ExtraNodesNext(|dd|);
    }
  }

  lemma OneNode(d: seq<Sector>, h: nat, nn: seq<nat>, dd: seq<nat>, length: nat)
    requires Disk(d) && (forall s :: s in dd ==> s < |d|) && |dd| <= DIRECT_NO
    ensures Chain(d, h, nn, 0, dd) <==> Linked(d, File([h] + nn, dd, length))
  {
    hide WordAt;
    var f := File([h] + nn, dd, length);
    assert f.nodes[0] == h;
    assert forall j :: 0 <= j < |dd| ==> f.data[j] in dd;
    if h < |d| && nn == [] {
      forall j | 0 <= j < |dd| ensures Named(d, f, j) <==> Direct(d[h], 0 + j) == dd[j] {
        assert j / DIRECT_NO == 0 && j % DIRECT_NO == j;
      }
      assert Entries(d[h], 0, dd) <==> forall j :: 0 <= j < |dd| ==> Named(d, f, j);
    }
  }

  lemma LinkedCons(d: seq<Sector>, h: nat, nn: seq<nat>, dd: seq<nat>, length: nat)
    requires Disk(d) && (forall s :: s in dd ==> s < |d|) && |dd| > DIRECT_NO && nn != [] && h < |d|
    requires Linked(d, File(nn, dd[DIRECT_NO..], length))
    requires Self(d[h]) == h && Entries(d[h], 0, dd[..DIRECT_NO]) && Link(d[h]) == nn[0]
    ensures Linked(d, File([h] + nn, dd, length))
  {
    var f, g := File([h] + nn, dd, length), File(nn, dd[DIRECT_NO..], length);
    ExtraNodesNext(|dd|);
    hide WordAt, ExtraNodes;
    assert forall i :: 0 < i < |f.nodes| ==> f.nodes[i] == g.nodes[i - 1];
    assert forall j :: 0 <= j < |dd| ==> f.data[j] in dd;
    forall j | 0 <= j < |dd| ensures Named(d, f, j) {
      if j < DIRECT_NO {
        assert j / DIRECT_NO == 0 && j % DIRECT_NO == j && Direct(d[h], 0 + j) == dd[..DIRECT_NO][j] == dd[j];
      } else {
        NamedShift(d, h, nn, dd, length, j);
        assert Named(d, g, j - DIRECT_NO);
      }
    }
  }

  lemma NamedShift(d: seq<Sector>, h: nat, nn: seq<nat>, dd: seq<nat>, length: nat, j: nat)
    requires Disk(d) && DIRECT_NO <= j < |dd|
    ensures Named(d, File([h] + nn, dd, length), j) <==> Named(d, File(nn, dd[DIRECT_NO..], length), j - DIRECT_NO)
  {
    var k := j - DIRECT_NO;
    assert j / DIRECT_NO == k / DIRECT_NO + 1 && j % DIRECT_NO == k % DIRECT_NO && dd[DIRECT_NO..][k] == dd[j];
  }

  lemma LinkedHead(d: seq<Sector>, h: nat, nn: seq<nat>, dd: seq<nat>, length: nat)
    requires Disk(d) && |dd| > DIRECT_NO && nn != [] && Linked(d, File([h] + nn, dd, length))
    ensures h < |d| && Self(d[h]) == h && Entries(d[h], 0, dd[..DIRECT_NO]) && Link(d[h]) == nn[0]
  {
    hide WordAt, ExtraNodes;
    var f := File([h] + nn, dd, length);
    assert f.nodes[0] == h && f.nodes[1] == nn[0];
    forall j | 0 <= j < DIRECT_NO ensures Direct(d[h], 0 + j) == dd[..DIRECT_NO][j] {
      assert Named(d, f, j) && j / DIRECT_NO == 0 && j % DIRECT_NO == j;
    }
  }

  lemma LinkedTail(d: seq<Sector>, h: nat, nn: seq<nat>, dd: seq<nat>, length: nat)
    requires Disk(d) && |dd| > DIRECT_NO && nn != [] && Linked(d, File([h] + nn, dd, length))
    ensures Linked(d, File(nn, dd[DIRECT_NO..], length))
  {
    var f, g := File([h] + nn, dd, length), File(nn, dd[DIRECT_NO..], length);
    ExtraNodesNext(|dd|);
    hide WordAt, ExtraNodes, Self, Link, Direct;
    forall i | 0 <= i < |nn| ensures nn[i] == f.nodes[i + 1] < |d| && Self(d[nn[i]]) == nn[i] {
    }
    forall i | 0 <= i < |nn| - 1 ensures Link(d[nn[i]]) == nn[i + 1] {
      assert f.nodes[i + 1] == nn[i] && f.nodes[i + 2] == nn[i + 1];
    }
    forall k | 0 <= k < |g.data| ensures g.data[k] < |d| && Named(d, g, k) {
      assert Named(d, f, k + DIRECT_NO) && g.data[k] == f.data[k + DIRECT_NO];
      NamedShift(d, h, nn, dd, length, k + DIRECT_NO);
    }
  }

  // ----- a new file -----

  /** inode_create makes a file of zero bytes that owns exactly what was taken.
      It is well formed if and only if the sector that became its last node
      held a zero where the link is kept: the code never clears that word. */
  lemma CreatedFile(d0: seq<Sector>, u0: seq<bool>, d: seq<Sector>, u: seq<bool>, h: nat, length: nat, nn: seq<nat>,
                    dd: seq<nat>)
    requires Grown(d0, u0, d, u, h, 0, length, nn, dd) && u0[0] && |dd| == SectorCount(length) && length < 0x8000_0000
    ensures var f := File([h] + nn, dd, length);
      && Stored(d, u, f) && ZeroFrom(Contents(d, f), 0)
      && (WellFormed(d, u, f) <==> Link(d0[Last(h, nn)]) == 0)
  {
    var f := File([h] + nn, dd, length);
    assert forall s :: s in dd ==> s in nn + dd;
    ChainIsLinked(d, h, nn, dd, length);
    assert f.nodes[|f.nodes| - 1] == Last(h, nn);
    OwnsTaken(u0, u, h, nn, dd, length);
    assert forall i :: 1 <= i < |f.nodes| ==> f.nodes[i] in nn + dd;
    forall p | 0 <= p < |Contents(d, f)| ensures Contents(d, f)[p] == 0 {
      assert f.data[p / SECTOR_SIZE] in dd;
    }
  }

  lemma OwnsTaken(u0: seq<bool>, u: seq<bool>, h: nat, nn: seq<nat>, dd: seq<nat>, length: nat)
    requires Taken(u0, u, nn + dd) && h < |u0| && u0[h]
    ensures Owns(u, File([h] + nn, dd, length))
  {
    assert h !in nn + dd;
    DistinctConcat([h], nn + dd);
    assert [h] + (nn + dd) == ([h] + nn) + dd;
  }

  /** Releasing what was taken restores the free map bit for bit. */
  lemma ReleaseRestores(u0: seq<bool>, u: seq<bool>, u': seq<bool>, taken: seq<nat>)
    requires Taken(u0, u, taken) && Taken(u', u, taken)
    ensures u' == u0
  {
    forall s | 0 <= s < |u0| ensures u'[s] == u0[s] {
      if s in taken {
      }
    }
  }

  // ----- a longer file -----

  /** Where the next data sector of a file goes in its last node. */
  function NextEntry(t: nat): nat
  {
    t - DIRECT_NO * ExtraNodes(t)
  }

  lemma NextEntryBound(t: nat)
    ensures 0 <= NextEntry(t) <= DIRECT_NO && (NextEntry(t) == 0 <==> t == 0)
    ensures NextEntry(t) == DIRECT_NO <==> t > 0 && t % DIRECT_NO == 0
    ensures NextEntry(t) < DIRECT_NO ==> NextEntry(t) == t % DIRECT_NO
  {
    if t > DIRECT_NO {
      var k := (t - 1) / DIRECT_NO;
      assert t - 1 == DIRECT_NO * k + (t - 1) % DIRECT_NO;
      if NextEntry(t) == DIRECT_NO {
        assert t == DIRECT_NO * (k + 1);
      }
    }
  }

  /** Adding to the last node of a chain adds to the chain. */
  lemma {:induction false} ExtendChain(d: seq<Sector>, d': seq<Sector>, h: nat, nn0: seq<nat>, s0: nat, dd0: seq<nat>,
                                       s1: nat, nn: seq<nat>, dd: seq<nat>)
    requires Disk(d) && Disk(d') && |d'| == |d| && Chain(d, h, nn0, s0, dd0) && Distinct([h] + nn0)
    requires s1 + DIRECT_NO * |nn0| == s0 + |dd0| && Chain(d', Last(h, nn0), nn, s1, dd)
    requires forall x :: x in [h] + nn0 && x != Last(h, nn0) ==> x < |d| && d'[x] == d[x]
    requires Last(h, nn0) < |d|
    requires forall i :: 0 <= i < s1 && i < DIRECT_NO ==> Direct(d'[Last(h, nn0)], i) == Direct(d[Last(h, nn0)], i)
    ensures Chain(d', h, nn0 + nn, s0, dd0 + dd)
    decreases |nn0|
  {
    hide WordAt, Direct, Link, Self;
    if nn0 == [] {
      ExtendNode(d, d', h, s0, dd0, s1, nn, dd);
      assert [] + nn == nn;
    } else {
      var dd', k := dd0 + dd, DIRECT_NO - s0;
      assert dd'[..k] == dd0[..k] && dd'[k..] == dd0[k..] + dd;
      assert (nn0 + nn)[1..] == nn0[1..] + nn;
      DistinctParts([h], nn0);
      assert [nn0[0]] + nn0[1..] == nn0;
      assert h in [h] && Last(h, nn0) in nn0 && Last(nn0[0], nn0[1..]) == Last(h, nn0);
      assert forall x :: x in nn0 ==> x in [h] + nn0;
      ExtendChain(d, d', nn0[0], nn0[1..], 0, dd0[k..], s1, nn, dd);
    }
  }

  lemma ExtendNode(d: seq<Sector>, d': seq<Sector>, h: nat, s0: nat, dd0: seq<nat>, s1: nat, nn: seq<nat>, dd: seq<nat>)
    requires Disk(d) && Disk(d') && |d'| == |d| && Chain(d, h, [], s0, dd0) && s1 == s0 + |dd0|
    requires Chain(d', h, nn, s1, dd)
    requires forall i :: 0 <= i < s1 && i < DIRECT_NO ==> Direct(d'[h], i) == Direct(d[h], i)
    ensures Chain(d', h, nn, s0, dd0 + dd)
  {
    hide WordAt, Direct, Link, Self;
    var dd' := dd0 + dd;
    if s0 + |dd'| > DIRECT_NO {
      var k := DIRECT_NO - s0;
      assert dd'[..k] == dd0 + dd[..DIRECT_NO - s1];
      assert dd'[k..] == dd[DIRECT_NO - s1..];
    }
  }

  /** The file grew by nodes `nn` and zeroed data sectors `dd`; of the old
      sectors only the last node changed. */
  ghost predicate Extended(d0: seq<Sector>, u0: seq<bool>, d: seq<Sector>, u: seq<bool>, f: File, nn: seq<nat>,
                           dd: seq<nat>)
    requires f.nodes != []
  {
    var last, s := f.nodes[|f.nodes| - 1], NextEntry(|f.data|);
    && Disk(d0) && Disk(d) && Taken(u0, u, nn + dd) && last < |d0| == |u0|
    && Zeroed(d0, d, last, nn, dd) && 0 <= s && Chain(d, last, nn, s, dd)
    && (forall i :: 0 <= i < s && i < DIRECT_NO ==> Direct(d[last], i) == Direct(d0[last], i))
    && Last(last, nn) < |d| && Link(d[Last(last, nn)]) == Link(d0[Last(last, nn)])
  }

  /** The last node has room: allocation starts in it. */
  lemma ExtendedInPlace(d0: seq<Sector>, u0: seq<bool>, d: seq<Sector>, u: seq<bool>, f: File, length: nat,
                        nn: seq<nat>, dd: seq<nat>)
    requires f.nodes != [] && NextEntry(|f.data|) >= 0
    requires Grown(d0, u0, d, u, f.nodes[|f.nodes| - 1], NextEntry(|f.data|), length, nn, dd)
    ensures Extended(d0, u0, d, u, f, nn, dd)
  {
  }

  /** The last node is full: it is linked to a new one, where allocation starts. */
  lemma ExtendedByNode(d0: seq<Sector>, u0: seq<bool>, d1: seq<Sector>, d: seq<Sector>, u: seq<bool>, f: File, x: nat,
                       length: nat,
                       nn: seq<nat>, dd: seq<nat>)
    requires f.nodes != [] && Disk(d0) && NextEntry(|f.data|) == DIRECT_NO && dd != []
    requires var last := f.nodes[|f.nodes| - 1];
      && last < |d0| == |u0| && u0[last] && x < |u0| && !u0[x] && d1 == Relinked(d0, last, x)
      && Self(d0[last]) == last && Grown(d1, u0[x := true], d, u, x, 0, length, nn, dd)
    ensures Extended(d0, u0, d, u, f, [x] + nn, dd)
  {
    hide WordAt, WithWord, NextEntry;
    var last := f.nodes[|f.nodes| - 1];
    TakenOne(u0, x);
    TakenMore(u0, u0[x := true], u, [x], nn + dd);
    assert [x] + (nn + dd) == [x] + nn + dd;
    assert last !in nn + dd;
    assert last !in nn && last !in dd;
    WordSet(d0[last], 126, x);
    assert d[last] == d1[last];
    assert ([x] + nn)[1..] == nn && dd[..0] == [] && dd[0..] == dd;
    assert Last(last, [x] + nn) == Last(x, nn);
    assert Last(x, nn) == x || Last(x, nn) in nn + dd;
  }

  lemma OwnsMore(u0: seq<bool>, u: seq<bool>, f: File, nn: seq<nat>, dd: seq<nat>, length: nat)
    requires Owns(u0, f) && Taken(u0, u, nn + dd)
    ensures Owns(u, File(f.nodes + nn, f.data + dd, length))
    ensures Disjoint(f.nodes + f.data, nn + dd)
  {
    forall s | s in f.nodes + f.data ensures s !in nn + dd {
      assert u0[s];
    }
    DistinctParts(f.nodes, f.data);
    DistinctParts(nn, dd);
    assert forall s :: s in f.nodes || s in f.data ==> s in f.nodes + f.data;
    assert forall s :: s in nn || s in dd ==> s in nn + dd;
    DistinctConcat(f.nodes, nn);
    DistinctConcat(f.data, dd);
    DistinctConcat(f.nodes + nn, f.data + dd);
  }

  lemma ExtendedKeepsNodes(d0: seq<Sector>, u0: seq<bool>, d: seq<Sector>, u: seq<bool>, f: File, nn: seq<nat>,
                           dd: seq<nat>)
    requires f.nodes != [] && Owns(u0, f) && Extended(d0, u0, d, u, f, nn, dd)
    ensures forall x :: x in f.nodes && x != f.nodes[|f.nodes| - 1] ==> x < |d0| && d[x] == d0[x]
  {
    OwnsMore(u0, u, f, nn, dd, 0);
    forall x | x in f.nodes && x != f.nodes[|f.nodes| - 1] ensures x < |d0| && d[x] == d0[x] {
      assert x in f.nodes + f.data;
      assert x !in nn + dd;
    }
  }

  lemma DataInRange(d: seq<Sector>, u0: seq<bool>, u: seq<bool>, f: File, nn: seq<nat>, dd: seq<nat>)
    requires Owns(u0, f) && Taken(u0, u, nn + dd) && |d| == |u0|
    ensures forall s :: s in f.data ==> s < |d|
    ensures forall s :: s in f.data + dd ==> s < |d|
  {
    forall s | s in f.data + dd ensures s < |d| {
      assert s in f.nodes + f.data || s in nn + dd;
    }
    assert forall s :: s in f.data ==> s in f.data + dd;
  }

  lemma ExtendedChain(d0: seq<Sector>, u0: seq<bool>, d: seq<Sector>, u: seq<bool>, f: File, h: nat, nn0: seq<nat>,
                      nn: seq<nat>, dd: seq<nat>)
    requires Disk(d0) && f.nodes == [h] + nn0 && |nn0| == ExtraNodes(|f.data|) && Chain(d0, h, nn0, 0, f.data)
    requires Owns(u0, f)
    requires Extended(d0, u0, d, u, f, nn, dd)
    ensures Chain(d, h, nn0 + nn, 0, f.data + dd)
  {
    hide Chain, Zeroed, Taken, Direct, ExtraNodes;
    ExtendedKeepsNodes(d0, u0, d, u, f, nn, dd);
    DistinctParts(f.nodes, f.data);
    assert Last(h, nn0) == f.nodes[|f.nodes| - 1];
    ZeroedSize(d0, d, f.nodes[|f.nodes| - 1], nn, dd);
    hide Owns, Distinct;
    ExtendChain(d0, d, h, nn0, 0, f.data, NextEntry(|f.data|), nn, dd);
  }

  lemma ExtendedLinked(d0: seq<Sector>, u0: seq<bool>, d: seq<Sector>, u: seq<bool>, f: File, nn: seq<nat>,
                       dd: seq<nat>, length: nat)
    requires Disk(d0) && Linked(d0, f) && Owns(u0, f) && Extended(d0, u0, d, u, f, nn, dd)
    ensures Linked(d, File(f.nodes + nn, f.data + dd, length))
  {
    hide Linked, Chain, Zeroed, Taken, Owns, Direct, Link, ExtraNodes;
    LinkedCount(d0, f);
    var h, nn0 := f.nodes[0], f.nodes[1..];
    assert [h] + nn0 == f.nodes && f == File([h] + nn0, f.data, f.length);
    DataInRange(d0, u0, u, f, nn, dd);
    ChainIsLinked(d0, h, nn0, f.data, f.length);
    ExtendedChain(d0, u0, d, u, f, h, nn0, nn, dd);
    ZeroedSize(d0, d, f.nodes[|f.nodes| - 1], nn, dd);
    ChainIsLinked(d, h, nn0 + nn, f.data + dd, length);
    assert [h] + (nn0 + nn) == f.nodes + nn;
  }

  lemma LinkedCount(d: seq<Sector>, f: File)
    requires Disk(d) && Linked(d, f)
    ensures |f.nodes| == 1 + ExtraNodes(|f.data|) && f.nodes[0] < |d| && f.nodes[|f.nodes| - 1] < |d|
  {
  }

  lemma ZeroedSize(d0: seq<Sector>, d: seq<Sector>, h: nat, nn: seq<nat>, dd: seq<nat>)
    requires Zeroed(d0, d, h, nn, dd)
    ensures |d| == |d0|
  {
  }

  lemma ExtendedByte(d0: seq<Sector>, u0: seq<bool>, d: seq<Sector>, u: seq<bool>, f: File, nn: seq<nat>, dd: seq<nat>,
                     length: nat, p: nat)
    requires Disk(d0) && Linked(d0, f) && Owns(u0, f) && Extended(d0, u0, d, u, f, nn, dd)
    requires var f' := File(f.nodes + nn, f.data + dd, length); Linked(d, f') && p < |Contents(d, f')|
    ensures Contents(d, File(f.nodes + nn, f.data + dd, length))[p] == if p < |Contents(d0, f)| then Contents(d0, f)[p] else 0
  {
    OwnsMore(u0, u, f, nn, dd, length);
    var k := p / SECTOR_SIZE;
    if k < |f.data| {
      var s := f.data[k];
      assert s in f.nodes + f.data && s !in nn + dd;
      DistinctParts(f.nodes, f.data);
      assert f.nodes[|f.nodes| - 1] in f.nodes && s in f.data;
      assert s !in nn && s !in dd;
      assert d[s] == d0[s];
    } else {
      assert (f.data + dd)[k] in dd;
    }
  }

  /** `c` with zero bytes after it. */
  ghost predicate ZeroExtended(c: seq<Byte>, c': seq<Byte>)
  {
    |c| <= |c'| && forall p :: 0 <= p < |c'| ==> c'[p] == if p < |c| then c[p] else 0
  }

  /** An extended file keeps its contents and gains zero bytes. */
  lemma ExtendedFile(d0: seq<Sector>, u0: seq<bool>, d: seq<Sector>, u: seq<bool>, f: File, nn: seq<nat>, dd: seq<nat>,
                     length: nat)
    requires Disk(d0) && Linked(d0, f) && Owns(u0, f) && Extended(d0, u0, d, u, f, nn, dd)
    ensures var f' := File(f.nodes + nn, f.data + dd, length);
      Linked(d, f') && Owns(u, f') && ZeroExtended(Contents(d0, f), Contents(d, f'))
  {
    var f' := File(f.nodes + nn, f.data + dd, length);
    ExtendedLinked(d0, u0, d, u, f, nn, dd, length);
    OwnsMore(u0, u, f, nn, dd, length);
    assert Disk(d);
    hide *;
    var c, c' := Contents(d0, f), Contents(d, f');
    forall p | 0 <= p < |c'| ensures c'[p] == if p < |c| then c[p] else 0 {
      ExtendedByte(d0, u0, d, u, f, nn, dd, length, p);
    }
    ZeroExtendedPointwise(c, c');
  }

  lemma ZeroExtendedPointwise(c: seq<Byte>, c': seq<Byte>)
    requires |c| <= |c'| && forall p :: 0 <= p < |c'| ==> c'[p] == if p < |c| then c[p] else 0
    ensures ZeroExtended(c, c')
  {
  }

  /** Growing over a full last node by less than a sector: the code adds a
      node that no entry ever uses. */
  predicate Leaks(length: nat, newLength: nat)
  {
    NextEntry(SectorCount(length)) == DIRECT_NO && SectorCount(newLength) == SectorCount(length)
  }

  /** The disk with another length in node `h`. */
  function Relengthed(d: seq<Sector>, h: nat, length: Word): (d': seq<Sector>)
    requires Disk(d) && h < |d|
    ensures Disk(d') && |d'| == |d|
  {
    d[h := WithWord(d[h], 2, length)]
  }

  /** The disk with another link in node `h`. */
  function Relinked(d: seq<Sector>, h: nat, link: Word): (d': seq<Sector>)
    requires Disk(d) && h < |d|
    ensures Disk(d') && |d'| == |d|
  {
    d[h := WithWord(d[h], 126, link)]
  }

  /** Storing a length in the head changes nothing else about the file. */
  lemma LengthStored(d: seq<Sector>, f: File, length: Word)
    requires Disk(d) && Linked(d, f) && Distinct(f.nodes + f.data)
    ensures var h := f.nodes[0];
      var d' := Relengthed(d, h, length);
      && Linked(d', f) && Contents(d', f) == Contents(d, f) && Length(d'[h]) == length
      && (forall i :: 0 <= i < |f.nodes| ==> Link(d'[f.nodes[i]]) == Link(d[f.nodes[i]]))
  {
    hide WordAt, WithWord, ExtraNodes, Self, Link, Length, Direct, Info, Magic;
    var h := f.nodes[0];
    var d' := Relengthed(d, h, length);
    WordSet(d[h], 2, length);
    forall j | 0 <= j < |f.data| ensures Named(d', f, j) {
      assert Named(d, f, j);
    }
    DistinctParts(f.nodes, f.data);
    assert h in f.nodes;
    assert forall j :: 0 <= j < |f.data| ==> f.data[j] in f.data;
    assert forall p :: 0 <= p < |Contents(d, f)| ==> Contents(d', f)[p] == Contents(d, f)[p];
    assert Contents(d', f) == Contents(d, f);
  }

  /** The grown file is well formed exactly when no stale link was inherited
      and the old sectors hold nothing past the new end. */
  lemma GrownFileForm(d0: seq<Sector>, u0: seq<bool>, d: seq<Sector>, u: seq<bool>, f: File, nn: seq<nat>, dd: seq<nat>,
                      length: Word)
    requires Disk(d0) && Stored(d0, u0, f) && u0 != [] && u0[0] && Extended(d0, u0, d, u, f, nn, dd)
    requires f.length < length < 0x8000_0000 && |f.data| + |dd| == SectorCount(length)
    ensures var f' := File(f.nodes + nn, f.data + dd, length);
      var d' := Relengthed(d, f.nodes[0], length);
      && Stored(d', u, f') && ZeroExtended(Contents(d0, f), Contents(d', f'))
      && (WellFormed(d', u, f') <==> Link(d0[f'.nodes[|f'.nodes| - 1]]) == 0 && ZeroFrom(Contents(d0, f), length))
  {
    hide WordAt, Relengthed, Chain, Taken, Zeroed, NextEntry, Contents, Distinct, Self, Direct, Length, Link;
    var f' := File(f.nodes + nn, f.data + dd, length);
    ExtendedFile(d0, u0, d, u, f, nn, dd, length);
    LengthStored(d, f', length);
    assert f'.nodes[0] == f.nodes[0];
    assert f'.nodes[|f'.nodes| - 1] == Last(f.nodes[|f.nodes| - 1], nn);
    NodesNotZero(u0, u, f, nn, dd, length);
    ZeroedSize(d0, d, f.nodes[|f.nodes| - 1], nn, dd);
    var d' := Relengthed(d, f.nodes[0], length);
    ZeroExtendedFrom(Contents(d0, f), Contents(d', f'), length);
  }

  lemma ZeroExtendedFrom(c: seq<Byte>, c': seq<Byte>, n: nat)
    requires ZeroExtended(c, c')
    ensures ZeroFrom(c', n) <==> ZeroFrom(c, n)
  {
    if ZeroFrom(c', n) {
      forall p | n <= p < |c| ensures c[p] == 0 {
        assert c'[p] == 0;
      }
    }
  }

  lemma NodesNotZero(u0: seq<bool>, u: seq<bool>, f: File, nn: seq<nat>, dd: seq<nat>, length: nat)
    requires u0 != [] && u0[0] && Taken(u0, u, nn + dd) && forall i :: 1 <= i < |f.nodes| ==> f.nodes[i] != 0
    ensures |u| == |u0| && forall i :: 1 <= i < |f.nodes + nn| ==> (f.nodes + nn)[i] != 0
  {
    assert 0 !in nn + dd;
    assert forall s :: s in nn ==> s in nn + dd;
  }

  /** The last node linked to a node without entries: the file's data stays. */
  lemma RelinkedFile(d: seq<Sector>, f: File, x: Word)
    requires Disk(d) && Linked(d, f) && Distinct(f.nodes + f.data)
    ensures var last := f.nodes[|f.nodes| - 1];
      var d' := Relinked(d, last, x);
      Linked(d', f) && Contents(d', f) == Contents(d, f) && Link(d'[last]) == x
  {
    var last := f.nodes[|f.nodes| - 1];
    var d' := Relinked(d, last, x);
    WordSet(d[last], 126, x);
    hide WordAt, WithWord, ExtraNodes, Self, Link, Length, Direct;
    DistinctParts(f.nodes, f.data);
    forall j | 0 <= j < |f.data| ensures Named(d', f, j) {
      assert Named(d, f, j);
    }
    assert last in f.nodes;
    assert forall j :: 0 <= j < |f.data| ==> f.data[j] in f.data;
    assert forall p :: 0 <= p < |Contents(d, f)| ==> Contents(d', f)[p] == Contents(d, f)[p];
    assert Contents(d', f) == Contents(d, f);
  }

  /** Nothing to allocate. */
  lemma ExtendedByNothing(d: seq<Sector>, u: seq<bool>, f: File)
    requires Disk(d) && Stored(d, u, f)
    ensures Extended(d, u, d, u, f, [], [])
  {
    NextEntryBound(|f.data|);
  }

  /** The stored length plays no part in what the sectors hold. */
  lemma LengthFree(d: seq<Sector>, f: File, length: nat)
    requires Disk(d) && Linked(d, f)
    ensures Linked(d, f.(length := length)) && Contents(d, f.(length := length)) == Contents(d, f)
  {
    var f' := f.(length := length);
    forall j | 0 <= j < |f.data| ensures Named(d, f', j) {
      assert Named(d, f, j);
    }
    var c, c' := Contents(d, f), Contents(d, f');
    assert forall p :: 0 <= p < |c| ==> c'[p] == c[p];
  }

  /** The disk after growth that loses node `x`. */
  function Leaked(d: seq<Sector>, f: File, x: Word, length: Word): seq<Sector>
    requires Disk(d) && f.nodes != [] && f.nodes[0] < |d| && f.nodes[|f.nodes| - 1] < |d|
  {
    Relengthed(Relinked(d, f.nodes[|f.nodes| - 1], x), f.nodes[0], length)
  }

  lemma LeakedParts(d: seq<Sector>, f: File, x: Word, length: Word)
    requires Disk(d) && Linked(d, f) && Distinct(f.nodes + f.data)
    ensures var last, h, f', d' := f.nodes[|f.nodes| - 1], f.nodes[0], f.(length := length), Leaked(d, f, x, length);
      && Disk(d') && |d'| == |d| && Linked(d', f') && Contents(d', f') == Contents(d, f)
      && Link(d'[last]) == x && Length(d'[h]) == length
  {
    hide *;
    LinkedCount(d, f);
    var last, f' := f.nodes[|f.nodes| - 1], f.(length := length);
    LengthFree(d, f, length);
    RelinkedFile(d, f', x);
    LengthStored(Relinked(d, last, x), f', length);
    LeakedForm(d, f, x, length);
  }

  lemma LeakedForm(d: seq<Sector>, f: File, x: Word, length: Word)
    requires Disk(d) && f.nodes != [] && f.nodes[0] < |d| && f.nodes[|f.nodes| - 1] < |d|
    ensures Leaked(d, f, x, length) == Relengthed(Relinked(d, f.nodes[|f.nodes| - 1], x), f.nodes[0], length)
  {
  }

  /** Growth that loses a node: the data is as it should be, the chain is not. */
  lemma LeakedFileForm(d: seq<Sector>, u: seq<bool>, f: File, x: nat, length: Word)
    requires Disk(d) && Stored(d, u, f) && 0 < x < |u| && !u[x]
    requires f.length < length < 0x8000_0000 && |f.data| == SectorCount(length)
    ensures var d', f' := Leaked(d, f, x, length), f.(length := length);
      && Disk(d') && Stored(d', u[x := true], f') && Contents(d', f') == Contents(d, f)
      && !WellFormed(d', u[x := true], f')
  {
    hide Leaked, Contents, Linked, Self, Link, Length, WordAt, SectorCount, Distinct;
    LinkedCount(d, f);
    LeakedParts(d, f, x, length);
  }

  // ----- the growth branch of inode_write_at as a whole -----

  ghost predicate OutsideSame(d0: seq<Sector>, d: seq<Sector>, f: File)
  {
    |d| == |d0| && forall s :: 0 <= s < |d| && s !in f.nodes && s !in f.data ==> d[s] == d0[s]
  }

  /** From `f` to `f'`, with `lost` marked used and owned by no file. */
  ghost predicate GrownTo(d0: seq<Sector>, u0: seq<bool>, d: seq<Sector>, u: seq<bool>, f: File, f': File,
                          lost: seq<nat>)
    requires Disk(d0) && Linked(d0, f)
  {
    && Disk(d) && Stored(d, u, f') && f.nodes <= f'.nodes && f.data <= f'.data && |lost| <= 1
    && ZeroExtended(Contents(d0, f), Contents(d, f')) && OutsideSame(d0, d, f')
    && Taken(u0, u, f'.nodes[|f.nodes|..] + f'.data[|f.data|..] + lost)
    && var last := f'.nodes[|f'.nodes| - 1]; Link(d[last]) == if lost == [] then Link(d0[last]) else lost[0]
  }

  lemma GrownToByExtension(d0: seq<Sector>, u0: seq<bool>, d: seq<Sector>, u: seq<bool>, f: File, nn: seq<nat>,
                           dd: seq<nat>, length: Word)
    requires Disk(d0) && Stored(d0, u0, f) && u0 != [] && u0[0] && Extended(d0, u0, d, u, f, nn, dd)
    requires f.length < length < 0x8000_0000 && |f.data| + |dd| == SectorCount(length)
    ensures f.nodes[0] < |d|
    ensures GrownTo(d0, u0, Relengthed(d, f.nodes[0], length), u, f, File(f.nodes + nn, f.data + dd, length), [])
  {
    hide Contents, ZeroExtended, Taken, Distinct, OutsideSame, SectorCount, Link, Length, Self, NextEntry, Chain,
         Zeroed, Direct, Named, ExtraNodes;
    var f' := File(f.nodes + nn, f.data + dd, length);
    LinkedCount(d0, f);
    GrownFileForm(d0, u0, d, u, f, nn, dd, length);
    ExtendedFile(d0, u0, d, u, f, nn, dd, length);
    LengthStored(d, f', length);
    assert f'.nodes[0] == f.nodes[0] && f'.nodes[|f'.nodes| - 1] == Last(f.nodes[|f.nodes| - 1], nn);
    assert f'.nodes[|f.nodes|..] == nn && f'.data[|f.data|..] == dd && nn + dd + [] == nn + dd;
    ExtendedOutside(d0, u0, d, u, f, nn, dd, length, WithWord(d[f.nodes[0]], 2, length));
    hide WithWord;
  }

  lemma ExtendedOutside(d0: seq<Sector>, u0: seq<bool>, d: seq<Sector>, u: seq<bool>, f: File, nn: seq<nat>,
                        dd: seq<nat>, length: nat, b: Sector)
    requires f.nodes != [] && Extended(d0, u0, d, u, f, nn, dd) && f.nodes[0] < |d|
    ensures OutsideSame(d0, d[f.nodes[0] := b], File(f.nodes + nn, f.data + dd, length))
  {
    assert f.nodes[|f.nodes| - 1] in f.nodes && f.nodes[0] in f.nodes;
  }

  lemma GrownToByLeak(d: seq<Sector>, u: seq<bool>, f: File, x: nat, length: Word)
    requires Disk(d) && Stored(d, u, f) && 0 < x < |u| && !u[x]
    requires f.length < length < 0x8000_0000 && |f.data| == SectorCount(length)
    ensures GrownTo(d, u, Leaked(d, f, x, length), u[x := true], f, f.(length := length), [x])
  {
    hide Contents, Taken, Distinct, Stored, SectorCount, Linked, Length, Self, Link;
    StoredFacts(d, u, f);
    LeakedFileForm(d, u, f, x, length);
    LeakedParts(d, f, x, length);
    TakenOne(u, x);
    assert f.nodes[|f.nodes|..] + f.data[|f.data|..] + [x] == [x];
    assert f.nodes[|f.nodes| - 1] in f.nodes && f.nodes[0] in f.nodes;
  }

  lemma StoredFacts(d: seq<Sector>, u: seq<bool>, f: File)
    requires Disk(d) && Stored(d, u, f)
    ensures Linked(d, f) && Owns(u, f) && Distinct(f.nodes + f.data) && |u| == |d| && |f.data| == SectorCount(f.length)
    ensures f.nodes != [] && f.nodes[0] < |d| && f.nodes[|f.nodes| - 1] < |d|
    ensures Length(d[f.nodes[0]]) == f.length && Self(d[f.nodes[0]]) == f.nodes[0]
  {
  }
}
