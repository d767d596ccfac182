/**
 Writes that leave their file (src/filesys/inode.c, inode_write_at): one that starts
 inside the file and does not fit its sectors goes on through the entries past
 the last one.  When that reaches another file, and a run in which it does.
 */
module StrayWrites {
  import opened Storage
  import opened Sequences
  import opened Bitmaps
  import opened Inodes
  import opened Allocation
  import opened BufferCache
  import opened WriteWalks
  import opened FileSystem

  // ----- the entries past the end -----

  /** How many sectors past its own a write to the file takes. */
  function Excess(f: File, offset: nat, size: nat): nat
    requires offset + size > SECTOR_SIZE * |f.data|
  {
    SectorCount(offset + size - SECTOR_SIZE * |f.data|)
  }

  ghost function LastNode(d: seq<Sector>, f: File): (b: Sector)
    requires Disk(d) && Linked(d, f)
    ensures |b| == SECTOR_SIZE
  {
    d[f.nodes[|f.nodes| - 1]]
  }

  /** The nodes that `n` sectors past the end make the loop follow links to. */
  ghost function EndNodes(d: seq<Sector>, f: File, n: nat): seq<nat>
    requires Disk(d) && Linked(d, f)
  {
    var b, i := LastNode(d, f), NextEntry(|f.data|);
    NextEntryBound(|f.data|);
    if i < DIRECT_NO then NodesAhead(d, b, i, n)
    else if Link(b) >= |d| then []
    else [Link(b)] + NodesAhead(d, d[Link(b)], 0, n)
  }

  /** None of the `n` entries past the end names `s`, or a node yet to be followed. */
  ghost predicate EndSpares(d: seq<Sector>, f: File, n: nat, s: nat)
    requires Disk(d) && Linked(d, f)
  {
    var b, i := LastNode(d, f), NextEntry(|f.data|);
    NextEntryBound(|f.data|);
    if i < DIRECT_NO then Spared(d, b, i, n, s)
    else Link(b) >= |d| || Spared(d, d[Link(b)], 0, n, s)
  }

  /** Besides, no such node is one of the file's own sectors from the `q`th on. */
  ghost predicate Clear(d: seq<Sector>, f: File, q: nat, n: nat, s: nat)
    requires Disk(d) && Linked(d, f) && q <= |f.data|
  {
    Disjoint(f.data[q..], EndNodes(d, f, n)) && EndSpares(d, f, n, s)
  }

  lemma LastEntry(f: File, node: nat, idx: nat)
    requires |f.nodes| == 1 + ExtraNodes(|f.data|) && node < |f.nodes| && idx < DIRECT_NO
    requires DIRECT_NO * node + idx + 1 == |f.data|
    ensures node == |f.nodes| - 1 && idx + 1 == NextEntry(|f.data|)
  {
    NextEntryBound(|f.data|);
  }

  /** One entry of the file: it names its data sector, and what comes next. */
  lemma AtEntry(d: seq<Sector>, f: File, refer: Sector, node: nat, idx: nat, k: nat)
    requires Intact(d, f) && k < |f.data| && Cursor(d, f, refer, node, idx, 0, SECTOR_SIZE * k)
    ensures Disk(d) && Linked(d, f) && |refer| == SECTOR_SIZE && idx < DIRECT_NO
    ensures Direct(refer, idx) == f.data[k] < |d|
    ensures k + 1 < |f.data| && idx + 1 < DIRECT_NO ==> Cursor(d, f, refer, node, idx + 1, 0, SECTOR_SIZE * (k + 1))
    ensures k + 1 < |f.data| && idx + 1 == DIRECT_NO ==> Link(refer) < |d| && Link(refer) !in f.data
    ensures k + 1 < |f.data| && idx + 1 == DIRECT_NO ==>
      Cursor(d, f, d[Link(refer)], node + 1, 0, 0, SECTOR_SIZE * (k + 1))
    ensures k + 1 == |f.data| ==> refer == LastNode(d, f) && idx + 1 == NextEntry(|f.data|)
  {
    EntryAt(d, f, refer, node, idx, 0, SECTOR_SIZE * k);
    if k + 1 < |f.data| {
      NextCursor(d, f, refer, node, idx, 0, SECTOR_SIZE * k, SECTOR_SIZE);
      NodesAreNotData(f);
    } else {
      LastEntry(f, node, idx);
    }
  }

  /** The file's own nodes are not its data, so only the nodes past the end count. */
  lemma {:induction false} AheadInFile(d: seq<Sector>, f: File, refer: Sector, node: nat, idx: nat, k: nat, n: nat, x: nat)
    requires Intact(d, f) && k < |f.data| && Cursor(d, f, refer, node, idx, 0, SECTOR_SIZE * k) && n > 0 && x in f.data
    ensures Disk(d) && Linked(d, f) && |refer| == SECTOR_SIZE && idx < DIRECT_NO
    ensures x in NodesAhead(d, refer, idx, |f.data| - k + n) <==> x in EndNodes(d, f, n)
    decreases |f.data| - k
  {
    hide Intact, Cursor, Direct, Link, LastNode, NextEntry, Linked;
    AtEntry(d, f, refer, node, idx, k);
    if k + 1 == |f.data| {
    } else if idx + 1 < DIRECT_NO {
      AheadInFile(d, f, refer, node, idx + 1, k + 1, n, x);
    } else {
      AheadFirst(d, refer, idx, |f.data| - k + n);
      AheadInFile(d, f, d[Link(refer)], node + 1, 0, k + 1, n, x);
    }
  }

  /** From one of its own entries on, what a write spares is what the entries past
      the end spare. */
  lemma {:induction false} SparedInFile(d: seq<Sector>, f: File, refer: Sector, node: nat, idx: nat, k: nat, n: nat, s: nat)
    requires Intact(d, f) && k < |f.data| && Cursor(d, f, refer, node, idx, 0, SECTOR_SIZE * k) && n > 0 && s !in f.data
    ensures Disk(d) && Linked(d, f) && |refer| == SECTOR_SIZE && idx < DIRECT_NO
    ensures Spared(d, refer, idx, |f.data| - k + n, s) <==> Clear(d, f, k, n, s)
    decreases |f.data| - k
  {
    hide Intact, Cursor, Direct, Link, LastNode, NextEntry, Linked, EndNodes, NodesAhead, Disjoint;
    AtEntry(d, f, refer, node, idx, k);
    AheadInFile(d, f, refer, node, idx, k, n, f.data[k]);
    OwnFirst(f, k, EndNodes(d, f, n));
    if k + 1 == |f.data| {
    } else if idx + 1 < DIRECT_NO {
      SparedInFile(d, f, refer, node, idx + 1, k + 1, n, s);
    } else {
      SparedInFile(d, f, d[Link(refer)], node + 1, 0, k + 1, n, s);
    }
  }

  lemma OwnFirst(f: File, k: nat, v: seq<nat>)
    requires k < |f.data|
    ensures Disjoint(f.data[k..], v) <==> f.data[k] !in v && Disjoint(f.data[k + 1..], v)
    ensures Disjoint(f.data[|f.data|..], v)
  {
    assert f.data[k..] == [f.data[k]] + f.data[k + 1..];
  }

  lemma ChunksPastEnd(f: File, offset: nat, size: nat)
    requires offset < SECTOR_SIZE * |f.data| < offset + size
    ensures Excess(f, offset, size) > 0 && offset / SECTOR_SIZE < |f.data|
    ensures Chunks(offset % SECTOR_SIZE, size) == |f.data| - offset / SECTOR_SIZE + Excess(f, offset, size)
  {
    var q, x := offset / SECTOR_SIZE, offset + size - SECTOR_SIZE * |f.data|;
    assert offset % SECTOR_SIZE + size == x + SECTOR_SIZE * (|f.data| - q);
  }

  // ----- which files a write leaves alone -----

  /** Whatever the write makes of the disk, the sectors of `g` are as they were. */
  ghost predicate LeavesAlone(d: seq<Sector>, f: File, offset: nat, buffer: seq<Byte>, g: File)
    requires Disk(d) && f.nodes != [] && f.nodes[0] < |d|
  {
    forall d', written, off :: Wrote(d, d', d[f.nodes[0]], offset, buffer, written, off) ==> Kept(d, d', g)
  }

  ghost predicate Kept(d: seq<Sector>, d': seq<Sector>, g: File)
  {
    |d'| == |d| && forall s :: s in g.nodes + g.data ==> s < |d| && d'[s] == d[s]
  }

  /** Every sector of `g` is clear of a write of `size` bytes at `offset`. */
  ghost predicate AllClear(d: seq<Sector>, f: File, g: File, offset: nat, size: nat)
    requires Disk(d) && Linked(d, f) && offset < SECTOR_SIZE * |f.data| < offset + size
  {
    ChunksPastEnd(f, offset, size);
    forall s :: s in g.nodes + g.data ==> Clear(d, f, offset / SECTOR_SIZE, Excess(f, offset, size), s)
  }

  lemma SectorCursor(d: seq<Sector>, f: File, p: nat)
    requires Disk(d) && Linked(d, f) && p < SECTOR_SIZE * |f.data|
    ensures var node, q := p / (SECTOR_SIZE * DIRECT_NO), p / SECTOR_SIZE;
      node < |f.nodes| && f.nodes[node] < |d| && Cursor(d, f, d[f.nodes[node]], node, q % DIRECT_NO, 0, SECTOR_SIZE * q)
  {
    hide Linked;
    StartCursor(d, f, p);
  }

  /** What the entry of byte `offset` says of one sector. */
  lemma OneSector(d: seq<Sector>, f: File, offset: nat, size: nat, s: nat)
    requires Intact(d, f) && Disk(d) && Linked(d, f) && offset < SECTOR_SIZE * |f.data| < offset + size
    requires s < |d| && s !in f.data
    ensures var node := offset / (SECTOR_SIZE * DIRECT_NO);
      node < |f.nodes| && f.nodes[node] < |d| && offset / SECTOR_SIZE < |f.data| &&
      var refer, idx, ofs := d[f.nodes[node]], offset / SECTOR_SIZE % DIRECT_NO, offset % SECTOR_SIZE;
      (Spared(d, refer, idx, Chunks(ofs, size), s) <==> Clear(d, f, offset / SECTOR_SIZE, Excess(f, offset, size), s)) &&
      Direct(refer, idx) == f.data[offset / SECTOR_SIZE] &&
      (Direct(refer, idx) in NodesAhead(d, refer, idx, Chunks(ofs, size)) <==>
       f.data[offset / SECTOR_SIZE] in EndNodes(d, f, Excess(f, offset, size)))
  {
    hide Intact, Cursor, Linked, Spared, Clear, NodesAhead, EndNodes, Chunks, Excess, Direct;
    SectorCursor(d, f, offset);
    ChunksPastEnd(f, offset, size);
    var node, q := offset / (SECTOR_SIZE * DIRECT_NO), offset / SECTOR_SIZE;
    var refer, idx := d[f.nodes[node]], q % DIRECT_NO;
    AtEntry(d, f, refer, node, idx, q);
    SparedInFile(d, f, refer, node, idx, q, Excess(f, offset, size), s);
    AheadInFile(d, f, refer, node, idx, q, Excess(f, offset, size), f.data[q]);
  }

  /** The write from `offset` on leaves sector `s` as it was. */
  ghost predicate SectorKept(d: seq<Sector>, f: File, offset: nat, buffer: seq<Byte>, s: nat)
    requires Disk(d) && s < |d|
  {
    var node := offset / (SECTOR_SIZE * DIRECT_NO);
    && node < |f.nodes| && f.nodes[node] < |d|
    && Untouched(d, d[f.nodes[node]], offset / SECTOR_SIZE % DIRECT_NO, offset % SECTOR_SIZE, buffer, s)
  }

  lemma KeptBySector(d: seq<Sector>, f: File, offset: nat, buffer: seq<Byte>, g: File)
    requires Disk(d) && Linked(d, f) && offset / (SECTOR_SIZE * DIRECT_NO) < |f.nodes|
    requires forall s :: s in g.nodes + g.data ==> s < |d|
    ensures LeavesAlone(d, f, offset, buffer, g) <==>
      forall s :: s in g.nodes + g.data ==> SectorKept(d, f, offset, buffer, s)
  {
    HopsInFile(d, f, 0, offset / (SECTOR_SIZE * DIRECT_NO));
    hide WalkWrite, Hopped;
    var refer := d[f.nodes[offset / (SECTOR_SIZE * DIRECT_NO)]];
    var r := WalkWrite(d, refer, offset / SECTOR_SIZE % DIRECT_NO, offset % SECTOR_SIZE, buffer, 0);
    assert Wrote(d, r.0, d[f.nodes[0]], offset, buffer, r.1, r.2);
  }

  /** One sector: it is clear exactly when no buffer changes it. */
  lemma SectorIff(d: seq<Sector>, f: File, offset: nat, size: nat, s: nat)
    requires Intact(d, f) && Disk(d) && Linked(d, f) && offset < SECTOR_SIZE * |f.data| < offset + size
    requires s < |d| && s !in f.data && offset / SECTOR_SIZE < |f.data|
    requires offset % SECTOR_SIZE == 0 || f.data[offset / SECTOR_SIZE] !in EndNodes(d, f, Excess(f, offset, size))
    ensures Clear(d, f, offset / SECTOR_SIZE, Excess(f, offset, size), s) <==>
      forall buffer: seq<Byte> :: |buffer| == size ==> SectorKept(d, f, offset, buffer, s)
  {
    hide Intact, Linked, Spared, Clear, NodesAhead, EndNodes, Chunks, Excess, Direct, Untouched;
    OneSector(d, f, offset, size, s);
    var refer := d[f.nodes[offset / (SECTOR_SIZE * DIRECT_NO)]];
    SparesIff(d, refer, offset / SECTOR_SIZE % DIRECT_NO, offset % SECTOR_SIZE, size, s);
    assert forall buffer: seq<Byte> :: |buffer| == size ==>
      (SectorKept(d, f, offset, buffer, s) <==>
       Untouched(d, refer, offset / SECTOR_SIZE % DIRECT_NO, offset % SECTOR_SIZE, buffer, s));
  }

  /** When no write of `size` bytes touches a sector of another file, as the entries
      past the last one are before it. */
  lemma StraySparesIff(d: seq<Sector>, u: seq<bool>, f: File, g: File, offset: nat, size: nat)
    requires Disk(d) && Stored(d, u, f) && Stored(d, u, g) && Disjoint(f.nodes + f.data, g.nodes + g.data)
    requires offset < f.length && !Fits(f, offset, size)
    ensures offset < SECTOR_SIZE * |f.data| < offset + size && offset / SECTOR_SIZE < |f.data|
    ensures AllClear(d, f, g, offset, size) ==>
      forall buffer: seq<Byte> :: |buffer| == size ==> LeavesAlone(d, f, offset, buffer, g)
    ensures offset % SECTOR_SIZE == 0 || f.data[offset / SECTOR_SIZE] !in EndNodes(d, f, Excess(f, offset, size)) ==>
      (AllClear(d, f, g, offset, size) <==>
       forall buffer: seq<Byte> :: |buffer| == size ==> LeavesAlone(d, f, offset, buffer, g))
  {
    FitsSectors(f.length);
    ChunksPastEnd(f, offset, size);
    Position(f, offset);
    OthersSectors(d, u, f, g);
    IsIntact(d, f);
    hide Stored, Intact, Linked, Clear, EndNodes, Excess, LeavesAlone, SectorKept, SectorCount, Distinct, Owns, Disk;
    assert AllClear(d, f, g, offset, size) ==>
      f.data[offset / SECTOR_SIZE] !in EndNodes(d, f, Excess(f, offset, size)) by {
      OwnSpared(d, f, g, offset, size);
    }
    if offset % SECTOR_SIZE == 0 || f.data[offset / SECTOR_SIZE] !in EndNodes(d, f, Excess(f, offset, size)) {
      forall s | s in g.nodes + g.data
        ensures Clear(d, f, offset / SECTOR_SIZE, Excess(f, offset, size), s) <==>
          forall buffer: seq<Byte> :: |buffer| == size ==> SectorKept(d, f, offset, buffer, s)
      {
        SectorIff(d, f, offset, size, s);
      }
      forall buffer: seq<Byte> | |buffer| == size
        ensures LeavesAlone(d, f, offset, buffer, g) <==>
          forall s :: s in g.nodes + g.data ==> SectorKept(d, f, offset, buffer, s)
      {
        KeptBySector(d, f, offset, buffer, g);
      }
    }
  }

  lemma OthersSectors(d: seq<Sector>, u: seq<bool>, f: File, g: File)
    requires Disk(d) && Stored(d, u, f) && Stored(d, u, g) && Disjoint(f.nodes + f.data, g.nodes + g.data)
    ensures Linked(d, f) && Distinct(f.nodes + f.data) && g.nodes != [] && g.nodes[0] in g.nodes + g.data
    ensures forall s :: s in g.nodes + g.data ==> s < |d| && s !in f.data
    ensures forall i :: 0 <= i < |f.nodes| ==> f.nodes[i] < |d|
  {
    forall s | s in g.nodes + g.data ensures s !in f.data {
      assert s in f.data ==> s in f.nodes + f.data;
    }
  }

  lemma OwnSpared(d: seq<Sector>, f: File, g: File, offset: nat, size: nat)
    requires Disk(d) && Linked(d, f) && offset < SECTOR_SIZE * |f.data| < offset + size && offset / SECTOR_SIZE < |f.data|
    requires g.nodes != []
    ensures AllClear(d, f, g, offset, size) ==>
      f.data[offset / SECTOR_SIZE] !in EndNodes(d, f, Excess(f, offset, size))
  {
    hide EndNodes, EndSpares, Excess;
    if AllClear(d, f, g, offset, size) {
      assert g.nodes[0] in g.nodes + g.data;
      OwnFirst(f, offset / SECTOR_SIZE, EndNodes(d, f, Excess(f, offset, size)));
    }
  }

  /** A file that is left alone is there as before. */
  lemma KeptFile(d: seq<Sector>, u: seq<bool>, d': seq<Sector>, g: File)
    requires Disk(d) && Disk(d') && Stored(d, u, g) && Kept(d, d', g)
    ensures Stored(d', u, g) && Contents(d', g) == Contents(d, g) && (WellFormed(d', u, g) <==> WellFormed(d, u, g))
  {
    OtherFileUnchanged(d, u, d', u, g);
  }

  /** A file whose data is struck holds that part of the buffer. */
  lemma StrayOverwrites(d: seq<Sector>, u: seq<bool>, refer: Sector, idx: nat, ofs: nat, buffer: seq<Byte>, g: File,
                        j: nat, k: nat)
    requires Disk(d) && Stored(d, u, g) && |refer| == SECTOR_SIZE && idx < DIRECT_NO && ofs < SECTOR_SIZE
    requires var v := Visits(d, refer, idx, ofs, buffer);
      Disjoint(g.nodes, v) && LastVisit(v, j) && k < |g.data| && v[j] == g.data[k]
    ensures var d' := WalkWrite(d, refer, idx, ofs, buffer, 0).0;
      Linked(d', g) && HoldsChunk(Contents(d', g), k, ofs, buffer, j)
  {
    hide WalkWrite, Visits, LastVisit, Contents, Astray, Stored, Linked, Landed, SameOutside, HoldsChunk;
    var d', v := WalkWrite(d, refer, idx, ofs, buffer, 0).0, Visits(d, refer, idx, ofs, buffer);
    WalkEffect(d, refer, idx, ofs, buffer, 0);
    LastLanded(d, d', v, ofs, buffer, j);
    NodesStay(d, d', u, g, v);
    ChunkInFile(d', g, k, ofs, buffer, j);
  }

  /** From data sector `k` on, contents `c` have chunk `j` of the buffer. */
  ghost predicate HoldsChunk(c: seq<Byte>, k: nat, ofs: nat, buffer: seq<Byte>, j: nat)
    requires ofs < SECTOR_SIZE
  {
    var o, a, n := SECTOR_SIZE * k + if j == 0 then ofs else 0, Start(ofs, j), ChunkLength(ofs, j, |buffer|);
    0 <= a && 0 < n && a + n <= |buffer| && o + n <= |c| && c[o..o + n] == buffer[a..a + n]
  }

  lemma LastLanded(d: seq<Sector>, d': seq<Sector>, v: seq<nat>, ofs: nat, rest: seq<Byte>, j: nat)
    requires ofs < SECTOR_SIZE && Astray(d, d', v, ofs, rest) && LastVisit(v, j)
    ensures SameOutside(d, d', v) && j < |v| && v[j] < |d'| && Landed(d'[v[j]], ofs, rest, j)
  {
    assert LandedAt(d', v, ofs, rest, j);
  }

  lemma ChunkInFile(d: seq<Sector>, g: File, k: nat, ofs: nat, buffer: seq<Byte>, j: nat)
    requires Disk(d) && Linked(d, g) && k < |g.data| && g.data[k] < |d| && ofs < SECTOR_SIZE
    requires Landed(d[g.data[k]], ofs, buffer, j)
    ensures HoldsChunk(Contents(d, g), k, ofs, buffer, j)
  {
    hide Linked, Contents;
    var o, n := if j == 0 then ofs else 0, ChunkLength(ofs, j, |buffer|);
    assert SECTOR_SIZE * k + o + n <= SECTOR_SIZE * (k + 1) <= SECTOR_SIZE * |g.data|;
    ChunkOfFile(d, g, g.data[k], SECTOR_SIZE * k + o, n);
  }

  lemma NodesStay(d: seq<Sector>, d': seq<Sector>, u: seq<bool>, g: File, v: seq<nat>)
    requires Disk(d) && Disk(d') && Stored(d, u, g) && SameOutside(d, d', v) && Disjoint(g.nodes, v)
    ensures Linked(d', g)
  {
    assert forall i :: 0 <= i < |g.nodes| ==> g.nodes[i] in g.nodes;
    assert forall i :: 0 <= i < |g.nodes| ==> d'[g.nodes[i]] == d[g.nodes[i]];
    forall j | 0 <= j < |g.data| ensures Named(d', g, j) {
      assert Named(d, g, j);
    }
  }

  // ----- growth that does not find the end of the file -----

  /** A file that grows through a stale link keeps its bytes, unless the sector where
      the new link goes is one of its own.  Its last node does not link to what was
      allocated: it leads where it led before. */
  lemma StaleGrowth(d0: seq<Sector>, u0: seq<bool>, d: seq<Sector>, u: seq<bool>, f: File, length: Word, off: bool)
    requires Disk(d0) && Stored(d0, u0, f) && !EndsClean(d0, f) && MisgrownTo(d0, u0, d, u, f, length, true, off)
    ensures EndNode(d0, f) < |d0|
    ensures Self(d0[EndNode(d0, f)]) !in f.nodes + f.data ==>
      && Disk(d) && Linked(d, f) && Contents(d, f) == Contents(d0, f) && Length(d[f.nodes[0]]) == length
      && Link(LastNode(d, f)) == EndNode(d0, f)
    ensures var add := AddedSectors(f.length, length); Free(u) + 1 + add + ExtraNodes(add) == Free(u0)
  {
    var d1, nn, dd :| MisgrownVia(d0, u0, d1, d, u, f, length, true, off, nn, dd);
    var add := AddedSectors(f.length, length);
    MisgrownSectors(d0, u0, d1, u, f, add, length, off, nn, dd);
    hide Stored, Misgrown, MisgrownTo, Contents, Free, Linked, EndNode, Self, ExtraNodes, AddedSectors, Link, Length;
    StoredFacts(d0, u0, f);
    if Self(d0[EndNode(d0, f)]) !in f.nodes + f.data {
      KeptFile(d0, u0, d1, f);
      StoredFacts(d1, u0, f);
      LengthStored(d1, f, length);
      StaleEnd(d0, d1, u0, f);
    }
  }

  lemma StaleEnd(d0: seq<Sector>, d1: seq<Sector>, u0: seq<bool>, f: File)
    requires Disk(d0) && Disk(d1) && Stored(d0, u0, f) && Kept(d0, d1, f) && !EndsClean(d0, f) && Linked(d1, f)
    ensures Link(LastNode(d1, f)) == EndNode(d0, f)
  {
    assert f.nodes[|f.nodes| - 1] in f.nodes + f.data;
  }

  lemma MisgrownSectors(d0: seq<Sector>, u0: seq<bool>, d: seq<Sector>, u: seq<bool>, f: File, add: nat, length: Word,
                        off: bool, nn: seq<nat>, dd: seq<nat>)
    requires Disk(d0) && Stored(d0, u0, f) && Misgrown(d0, u0, d, u, f, add, length, true, off, nn, dd)
    ensures EndNode(d0, f) < |d0| && (Self(d0[EndNode(d0, f)]) !in f.nodes + f.data ==> Kept(d0, d, f))
    ensures Free(u) + 1 + add + ExtraNodes(add) == Free(u0)
  {
    hide EndNode, Linked, WithWord, Self, Free, Grown, ExtraNodes, Scan;
    var x, p := EndNode(d0, f), Scan(u0, 0, 1, false).value;
    var y := Self(d0[x]);
    assert Group(u0, p, 1, false);
    FreeAfterOne(u0, p);
    var d1, u1 := d0[y := WithWord(d0[x], 126, p)], u0[p := true];
    if add > 0 {
      AllocatedFree(d1, u1, d, u, p, length, nn, dd);
      forall s | s in f.nodes + f.data && s != y ensures s < |d0| && d[s] == d0[s] {
        AllocatedElsewhere(d1, u1, d, u, p, length, nn, dd, s);
      }
    } else {
      NoExtraNodes();
    }
  }

  lemma NoExtraNodes()
    ensures ExtraNodes(0) == 0
  {
  }

  lemma AllocatedFree(d1: seq<Sector>, u1: seq<bool>, d: seq<Sector>, u: seq<bool>, p: nat, length: Word, nn: seq<nat>,
                      dd: seq<nat>)
    requires Grown(d1, u1, d, u, p, 0, length, nn, dd)
    ensures Free(u) + |dd| + ExtraNodes(|dd|) == Free(u1) && |d| == |d1|
  {
    FreeAfter(u1, u, nn + dd);
    ChainLength(d, p, nn, 0, dd);
  }

  lemma AllocatedElsewhere(d1: seq<Sector>, u1: seq<bool>, d: seq<Sector>, u: seq<bool>, p: nat, length: Word, nn: seq<nat>,
                           dd: seq<nat>, s: nat)
    requires Grown(d1, u1, d, u, p, 0, length, nn, dd) && s < |u1| && u1[s] && s != p
    ensures s < |d| == |d1| && d[s] == d1[s]
  {
    assert s !in nn + dd;
  }

  /** So a longer file at that head goes on in the stale sector, and is not apart
      from a file that this belongs to. */
  lemma StaleGrowthTangles(d0: seq<Sector>, u0: seq<bool>, d: seq<Sector>, u: seq<bool>, f: File, length: Word, off: bool,
                           f': File)
    requires Disk(d0) && Stored(d0, u0, f) && !EndsClean(d0, f) && MisgrownTo(d0, u0, d, u, f, length, true, off)
    requires EndNode(d0, f) < |d0| && Self(d0[EndNode(d0, f)]) !in f.nodes + f.data
    requires Disk(d) && Stored(d, u, f') && f'.nodes[0] == f.nodes[0] && |f'.data| > |f.data|
    ensures EndNode(d0, f) in f'.nodes
  {
    StaleGrowth(d0, u0, d, u, f, length, off);
    var n := |f.nodes|;
    LongerChain(d0, f, f', d);
    SameChain(d, f, f', n - 1);
    NextNode(d, f', n - 1);
    assert f'.nodes[n] in f'.nodes;
  }

  lemma LongerChain(d0: seq<Sector>, f: File, f': File, d: seq<Sector>)
    requires Disk(d0) && Linked(d0, f) && !EndsClean(d0, f) && Disk(d) && Linked(d, f') && |f'.data| > |f.data|
    ensures |f'.nodes| > |f.nodes|
  {
    NextEntryBound(|f.data|);
    NextEntryBound(|f'.data|);
  }

  /** Two files with one head share their nodes. */
  lemma {:induction false} SameChain(d: seq<Sector>, f: File, f': File, i: nat)
    requires Disk(d) && Linked(d, f) && Linked(d, f') && f'.nodes[0] == f.nodes[0] && i < |f.nodes| && i < |f'.nodes|
    ensures f'.nodes[i] == f.nodes[i]
  {
    if i > 0 {
      SameChain(d, f, f', i - 1);
      NextNode(d, f, i - 1);
      NextNode(d, f', i - 1);
    }
  }

  // ----- a run in which a write destroys another file -----

  /** `a` and `b` are the two lowest free sectors. */
  ghost predicate TwoLowest(u: seq<bool>, a: nat, b: nat)
  {
    a < b < |u| && !u[a] && !u[b] && Lowest(u, [a, b])
  }

  lemma LowestOfTwo(u: seq<bool>, a: nat, b: nat, x: nat)
    requires TwoLowest(u, a, b) && x < |u| && !u[x] && Lowest(u, [x])
    ensures x == a
  {
    assert a in [a, b] && x in [x] && (x != a && x != b ==> x !in [a, b]) && (x != a ==> a !in [x]);
  }

  lemma NextLowest(u: seq<bool>, a: nat, b: nat, x: nat)
    requires TwoLowest(u, a, b) && x < |u| && !u[a := true][x] && Lowest(u[a := true], [x])
    ensures x == b
  {
    assert b in [a, b] && x in [x] && (x != b ==> x !in [a, b] && b !in [x]);
  }

  lemma SmallFile(d: seq<Sector>, u: seq<bool>, f: File)
    requires Disk(d) && Stored(d, u, f) && f.length <= 2 * SECTOR_SIZE
    ensures f.nodes == [f.nodes[0]] && |f.data| == SectorCount(f.length) <= 2 && f.nodes[1..] + f.data == f.data
    ensures f.nodes[0] < |d| && forall i :: 0 <= i < |f.data| ==> Direct(d[f.nodes[0]], i) == f.data[i] < |d|
  {
    forall i | 0 <= i < |f.data| ensures Direct(d[f.nodes[0]], i) == f.data[i] {
      assert Named(d, f, i) && i / DIRECT_NO == 0 && i % DIRECT_NO == i;
    }
  }

  lemma TwoSectors(u0: seq<bool>, u: seq<bool>, f: File)
    requires f.nodes != [] && |f.data| == 2 && f.nodes[1..] + f.data == f.data && Taken(u0, u, f.nodes[1..] + f.data)
    requires FirstFit(u0, f.nodes[1..], f.data)
    ensures TwoLowest(u0, f.data[0], f.data[1])
  {
    assert f.data == [f.data[0], f.data[1]] && f.data[0] in f.data && f.data[1] in f.data;
  }

  /** A file of two sectors is created and removed: its head still names the second. */
  method MakeAndRemove(v: Volume, head: nat, info: Word) returns (ghost a: nat, ghost b: nat)
    requires v.Valid() && 0 < head < |v.Data()| && v.used[head] && Free(v.used) >= 2
    modifies v`used, v.cache, v.cache.slots
    ensures v.Valid() && |v.Data()| == |old(v.Data())| && v.used == old(v.used)[head := false]
    ensures TwoLowest(old(v.used), a, b) && Direct(v.Data()[head], 1) == b
  {
    ghost var u0 := v.used;
    assert SectorCount(2 * SECTOR_SIZE) == 2;
    hide Stored, Taken, FirstFit, Zeroed, Contents, WellFormed, EntriesKept, Consistent, Logical, Free, SectorCount, Disk,
         ZeroFrom, Link, Direct;
    var ok;
    ghost var f;
    ok, f := v.Create(head, 2 * SECTOR_SIZE, info);
    ghost var u1 := v.used;
    SmallFile(v.Data(), v.used, f);
    TwoSectors(u0, u1, f);
    a, b := f.data[0], f.data[1];
    HeadAndRest(u0, u1, f, head);
    StoredFacts(v.Data(), v.used, f);
    var data := v.Load(head);
    v.ReleaseFile(data, f);
    ReleaseRestores(u0[head := false], u1, v.used, f.nodes + f.data);
  }

  /** A file of one byte takes the place of the removed one, and an empty file goes
      where the stale second entry of its head leads. */
  method TwoFiles(v: Volume, info: Word) returns (head: nat, ghost f: File, ghost g: File)
    requires v.Valid() && Free(v.used) >= 3
    modifies v`used, v.cache, v.cache.slots
    ensures v.Valid() && Stored(v.Data(), v.used, f) && Stored(v.Data(), v.used, g) && f.length == 1 && g.length == 0
    ensures Disjoint(f.nodes + f.data, g.nodes + g.data) && g.nodes[0] != 0
    ensures f.nodes[0] == head && Direct(v.Data()[head], 1) == g.nodes[0]
  {
    ghost var u0 := v.used;
    assert SectorCount(1) == 1 && SectorCount(0) == 0;
    hide Stored, Taken, FirstFit, Zeroed, Contents, WellFormed, EntriesKept, Consistent, Logical, Free, SectorCount, Disk,
         ZeroFrom, Link, Direct, Scan, Lowest, TwoLowest, Disjoint;
    var sector := v.AllocateSector();
    head := sector.value;
    ghost var u1 := v.used;
    ghost var a, b := MakeAndRemove(v, head, info);
    ghost var d1 := v.Data();
    assert v.used == u0;
    sector := v.AllocateSector();
    var ok;
    ok, f := v.Create(head, 1, info);
    ghost var d2, u2 := v.Data(), v.used;
    FirstOfTwo(d1, u1, d2, u2, f, a, b);
    sector := v.AllocateSector();
    NextLowest(u1, a, b, sector.value);
    ghost var u3 := v.used;
    ok, g := v.Create(sector.value, 0, info);
    SecondOfTwo(d2, u2, v.Data(), v.used, f, g, b);
  }

  lemma FirstOfTwo(d1: seq<Sector>, u1: seq<bool>, d: seq<Sector>, u: seq<bool>, f: File, a: nat, b: nat)
    requires Disk(d1) && Disk(d) && |d1| == |d| && Stored(d, u, f) && f.length == 1 && TwoLowest(u1, a, b)
    requires Taken(u1, u, f.nodes[1..] + f.data) && FirstFit(u1, f.nodes[1..], f.data)
    requires f.nodes[0] < |d| && Direct(d1[f.nodes[0]], 1) == b
    requires var last := f.nodes[|f.nodes| - 1];
      last < |d| && EntriesKept(d1[last], d[last], |f.data| - DIRECT_NO * (|f.nodes| - 1))
    ensures u == u1[a := true] && !u[b] && Free(u) > 0 && Direct(d[f.nodes[0]], 1) == b
  {
    SmallFile(d, u, f);
    hide Stored, TwoLowest, Free;
    TookOne(u1, u, f.data, a, b);
    FreeAfterOne(u, b);
  }

  lemma TookOne(u1: seq<bool>, u: seq<bool>, dd: seq<nat>, a: nat, b: nat)
    requires |dd| == 1 && Taken(u1, u, dd) && Lowest(u1, dd) && TwoLowest(u1, a, b)
    ensures u == u1[a := true] && b < |u| && !u[b]
  {
    assert dd == [dd[0]] && dd[0] in dd;
    LowestOfTwo(u1, a, b, dd[0]);
  }

  lemma SecondOfTwo(d0: seq<Sector>, u0: seq<bool>, d: seq<Sector>, u: seq<bool>, f: File, g: File, b: nat)
    requires Disk(d0) && Disk(d) && Stored(d0, u0, f) && f.length == 1 && b < |u0| && !u0[b]
    requires Stored(d, u, g) && g.length == 0 && g.nodes[0] == b && Zeroed(d0, d, b, g.nodes[1..], g.data)
    requires Taken(u0[b := true], u, g.nodes[1..] + g.data)
    ensures Stored(d, u, f) && Disjoint(f.nodes + f.data, g.nodes + g.data) && d[f.nodes[0]] == d0[f.nodes[0]]
  {
    SmallFile(d, u, g);
    OtherFileUnchanged(d0, u0, d, u, f);
  }

  lemma ZeroSelf(b: Sector)
    requires |b| == SECTOR_SIZE && ZeroFrom(b, 0)
    ensures Self(b) == 0
  {
  }

  /** Writing two sectors of zeros to a file of one sector clears the sector that
      its second entry names. */
  lemma SecondCleared(d: seq<Sector>, refer: Sector, b: nat, buffer: seq<Byte>)
    requires Disk(d) && |refer| == SECTOR_SIZE && Direct(refer, 0) < |d| && Direct(refer, 1) == b < |d|
    requires Direct(refer, 0) != b && |buffer| == 2 * SECTOR_SIZE && ZeroFrom(buffer, 0)
    ensures var r := WalkWrite(d, refer, 0, 0, buffer, 0);
      b < |r.0| && |r.0[b]| == SECTOR_SIZE && Self(r.0[b]) == 0 && r.1 == 2 * SECTOR_SIZE
  {
    hide WalkWrite, Visits, Direct, Self, Astray, Landed;
    var r, v := WalkWrite(d, refer, 0, 0, buffer, 0), Visits(d, refer, 0, 0, buffer);
    TwoVisits(d, refer, buffer);
    WalkEffect(d, refer, 0, 0, buffer, 0);
    LastLanded(d, r.0, v, 0, buffer, 1);
    SecondChunk(r.0[b], buffer);
  }

  lemma TwoVisits(d: seq<Sector>, refer: Sector, buffer: seq<Byte>)
    requires Disk(d) && |refer| == SECTOR_SIZE && Direct(refer, 0) < |d| && Direct(refer, 1) < |d|
    requires |buffer| == 2 * SECTOR_SIZE
    ensures Visits(d, refer, 0, 0, buffer) == [Direct(refer, 0), Direct(refer, 1)]
    ensures LastVisit(Visits(d, refer, 0, 0, buffer), 1)
  {
    hide Visits, Direct, Struck, LastVisit;
    var n, rest := SECTOR_SIZE, buffer[SECTOR_SIZE..];
    var d1 := Struck(d, refer, 0, 0, buffer);
    var d2 := Struck(d1, refer, 1, 0, rest);
    assert |rest| == n && rest[n..] == [];
    VisitStep(d, refer, 0, 0, buffer);
    VisitStep(d1, refer, 1, 0, rest);
    VisitStep(d2, refer, 2, 0, []);
    LastOfTwo(Direct(refer, 0), Direct(refer, 1));
  }

  lemma LastOfTwo(a: nat, b: nat)
    ensures LastVisit([a, b], 1)
  {
  }

  lemma SecondChunk(b: Sector, buffer: seq<Byte>)
    requires |b| == SECTOR_SIZE && |buffer| == 2 * SECTOR_SIZE && ZeroFrom(buffer, 0) && Landed(b, 0, buffer, 1)
    ensures Self(b) == 0
  {
    assert b == b[0..SECTOR_SIZE];
    ZeroSelf(b);
  }

  /** On every volume with three free sectors: two files are there, apart from each
      other, and a write to one that is reported in full destroys the other. */
  method StrayRun(v: Volume, info: Word)
    returns (written: int, off: bool, ghost d: seq<Sector>, ghost u: seq<bool>, ghost f: File, ghost g: File)
    requires v.Valid() && Free(v.used) >= 3
    modifies v`used, v.cache, v.cache.slots
    ensures v.Valid() && Disk(d) && Stored(d, u, f) && Stored(d, u, g) && Disjoint(f.nodes + f.data, g.nodes + g.data)
    ensures v.used == u && Wrote(d, v.Data(), d[f.nodes[0]], 0, seq(2 * SECTOR_SIZE, _ => 0), written, off)
    ensures f.length == 1 && g.length == 0 && written == 2 * SECTOR_SIZE && !Stored(v.Data(), v.used, g)
  {
    hide Stored, WellFormed, WriteDone, Contents, AfterWrite, CanGrow, Disjoint, Consistent, Logical, Free, Direct, Wrote,
         RunsOff, EndsClean, Linked, ZeroFrom, Link;
    var head;
    head, f, g := TwoFiles(v, info);
    d, u := v.Data(), v.used;
    var buffer: seq<Byte> := seq(2 * SECTOR_SIZE, _ => 0);
    StartOfRun(d, u, f, g, buffer);
    var data := v.Load(head);
    var data', ok;
    ghost var f', lost;
    data', written, ok, off, f', lost := v.WriteAt(data, buffer, 0, false, f);
    EndOfRun(d, u, v.Data(), f, g, buffer, written, off);
  }

  lemma StartOfRun(d: seq<Sector>, u: seq<bool>, f: File, g: File, buffer: seq<Byte>)
    requires Disk(d) && Stored(d, u, f) && f.length == 1 && |buffer| == 2 * SECTOR_SIZE
    ensures !Fits(f, 0, |buffer|) && !Grows(f.length, 0, |buffer|) && f.nodes[0] < |d|
  {
  }

  lemma EndOfRun(d: seq<Sector>, u: seq<bool>, d': seq<Sector>, f: File, g: File, buffer: seq<Byte>, written: int,
                 off: bool)
    requires Disk(d) && Disk(d') && Stored(d, u, f) && Stored(d, u, g) && f.length == 1 && g.length == 0 && g.nodes[0] != 0
    requires Disjoint(f.nodes + f.data, g.nodes + g.data) && Direct(d[f.nodes[0]], 1) == g.nodes[0]
    requires buffer == seq(2 * SECTOR_SIZE, _ => 0) && Wrote(d, d', d[f.nodes[0]], 0, buffer, written, off)
    ensures written == 2 * SECTOR_SIZE && !Stored(d', u, g)
  {
    RunFacts(d, u, f, g);
    hide Stored, Disjoint, WalkWrite, Direct, ZeroFrom, Self;
    SecondCleared(d, d[f.nodes[0]], g.nodes[0], buffer);
    NotStored(d', u, g);
  }

  lemma RunFacts(d: seq<Sector>, u: seq<bool>, f: File, g: File)
    requires Disk(d) && Stored(d, u, f) && Stored(d, u, g) && f.length == 1 && g.length == 0
    requires Disjoint(f.nodes + f.data, g.nodes + g.data)
    ensures f.nodes[0] < |d| && Direct(d[f.nodes[0]], 0) < |d| && g.nodes[0] < |d| && Direct(d[f.nodes[0]], 0) != g.nodes[0]
  {
    SmallFile(d, u, f);
    SmallFile(d, u, g);
    assert f.data[0] in f.nodes + f.data && g.nodes[0] in g.nodes + g.data;
  }

  /** A node that does not name itself heads no file. */
  lemma NotStored(d: seq<Sector>, u: seq<bool>, g: File)
    requires Disk(d) && g.nodes != [] && g.nodes[0] < |d| && Self(d[g.nodes[0]]) != g.nodes[0]
    ensures !Stored(d, u, g)
  {
  }
}
